/**
 * The N x N board and its incremental scoring engine.
 *
 * Every mark counts +1 (PLAYER_ONE) or -1 (PLAYER_TWO). Besides the cells the
 * board keeps a running total per row, per column and per diagonal, so that a
 * move decides in constant time whether it won the game: a line is complete
 * exactly when its total reaches +-boardSize.
 *
 * The ghost field `Cells` is the value of `boardState`, row by row; `Valid()`
 * ties every running total to the signed sum of the marks on its line.
 */
module TicTacToe {
  import opened Results
  import opened BoardMath

  const DefaultSize: int := 3

  /** Construction with a side length of 1 or less is refused. */
  datatype BoardError = InvalidSize

  /** The two ways `Move` throws: a null player, or the same player twice in a row. */
  datatype MoveError = NullPlayer | SamePlayerTwice

  class Board {
    const boardSize: nat
    var boardState: array2<Cell>
    var rowTotals: array<int>
    var colTotals: array<int>
    var topToBottomDiagTotal: int
    var bottomToTopDiagTotal: int
    var lastMove: Option<PlayerId>
    var boardWon: bool
    var moveCounter: int

    /** The cells by row and column: Cells[r][c] is boardState[r, c]. */
    ghost var Cells: Grid

    /** The array has the board's shape and holds exactly the cells of `Cells`. */
    ghost predicate Linked()
      reads this`boardState, this`Cells, boardState
    {
      && boardState.Length0 == boardSize && boardState.Length1 == boardSize
      && IsSquare(Cells, boardSize)
      && (forall r, c :: 0 <= r < boardSize && 0 <= c < boardSize ==> boardState[r, c] == Cells[r][c])
    }

    ghost predicate Valid()
      reads this, boardState, rowTotals, colTotals
    {
      && 1 < boardSize <= MaxSize
      && Linked()
      && rowTotals.Length == boardSize && colTotals.Length == boardSize
      && rowTotals != colTotals
      && Scores(Cells, boardSize, rowTotals[..], colTotals[..], topToBottomDiagTotal,
                bottomToTopDiagTotal, moveCounter, lastMove, boardWon)
    }

    /** A board on which nobody has moved yet. */
    ghost predicate IsFresh()
      reads this, rowTotals, colTotals
    {
      && Cells == seq(boardSize, _ => seq(boardSize, _ => Free))
      && moveCounter == 0 && lastMove == None && !boardWon
      && (forall k :: 0 <= k < rowTotals.Length ==> rowTotals[k] == 0)
      && (forall k :: 0 <= k < colTotals.Length ==> colTotals[k] == 0)
      && topToBottomDiagTotal == 0 && bottomToTopDiagTotal == 0
    }

    constructor (size: int)
      requires 1 < size <= MaxSize
      ensures Valid() && IsFresh() && boardSize == size
      ensures fresh(boardState) && fresh(rowTotals) && fresh(colTotals)
    {
      var cells := new Cell[size, size];
      var rows := new int[size];
      var cols := new int[size];
      for i := 0 to size
        invariant forall k :: 0 <= k < i ==> rows[k] == 0 && cols[k] == 0
        invariant forall r, c :: 0 <= r < i && 0 <= c < size ==> cells[r, c] == Free
      {
        rows[i] := 0;
        cols[i] := 0;
        for j := 0 to size
          invariant forall k :: 0 <= k <= i ==> rows[k] == 0 && cols[k] == 0
          invariant forall r, c :: 0 <= r < i && 0 <= c < size ==> cells[r, c] == Free
          invariant forall c :: 0 <= c < j ==> cells[i, c] == Free
        {
          cells[i, j] := Free;
        }
      }
      boardSize := size;
      boardState, rowTotals, colTotals := cells, rows, cols;
      topToBottomDiagTotal, bottomToTopDiagTotal := 0, 0;
      lastMove, boardWon, moveCounter := None, false, 0;
      Cells := seq(size, _ => seq(size, _ => Free));
      new;
      EmptyBoardValid();
    }

    /** The facts that make a freshly filled board valid. */
    lemma EmptyBoardValid()
      requires 1 < boardSize <= MaxSize
      requires boardState.Length0 == boardSize && boardState.Length1 == boardSize
      requires rowTotals.Length == boardSize && colTotals.Length == boardSize
      requires rowTotals != colTotals
      requires Cells == seq(boardSize, _ => seq(boardSize, _ => Free))
      requires forall r, c :: 0 <= r < boardSize && 0 <= c < boardSize ==> boardState[r, c] == Free
      requires forall k :: 0 <= k < boardSize ==> rowTotals[k] == 0 && colTotals[k] == 0
      requires topToBottomDiagTotal == 0 && bottomToTopDiagTotal == 0
      requires moveCounter == 0 && lastMove == None && !boardWon
      ensures Valid()
    {
      var n := boardSize;
      EmptyScores(n);
      assert rowTotals[..] == seq(n, _ => 0) && colTotals[..] == seq(n, _ => 0);
    }

    /** The cell at position p (1-based, row-major). */
    function GetCell(p: int): (c: Cell)
      reads this, boardState, rowTotals, colTotals
      requires Valid() && 1 <= p <= boardSize * boardSize
      ensures !OutOfBounds(boardSize, RowOf(boardSize, p), ColOf(boardSize, p))
      ensures c == Cells[RowOf(boardSize, p)][ColOf(boardSize, p)]
    {
      CoordinatesRoundTrip(boardSize, p);
      boardState[RowOf(boardSize, p), ColOf(boardSize, p)]
    }

    /** A move is valid when it names a cell of the board and that cell is free. */
    function IsValidMove(p: int): (v: bool)
      reads this, boardState, rowTotals, colTotals
      requires Valid()
      ensures v <==> 1 <= p <= boardSize * boardSize && GetCell(p).Free?
    {
      1 <= p && p <= boardSize * boardSize && GetCell(p).IsFree()
    }

    /** The counter test finds exactly whether some position is still a valid move. */
    function ValidMovesRemain(): (v: bool)
      reads this, boardState, rowTotals, colTotals
      requires Valid()
      ensures v <==> exists p :: IsValidMove(p)
    {
      CountTakenFree(Cells, boardSize);
      FreeCellsAreValidMoves();
      moveCounter < boardSize * boardSize
    }

    lemma FreeCellsAreValidMoves()
      requires Valid()
      ensures HasFreeCell(Cells) <==> exists p :: IsValidMove(p)
    {
      if HasFreeCell(Cells) {
        var r, c :| 0 <= r < |Cells| && 0 <= c < |Cells[r]| && Cells[r][c].Free?;
        PositionRoundTrip(boardSize, r, c);
        assert IsValidMove(GetMovePosition(boardSize, r, c));
      }
      if exists p :: IsValidMove(p) {
        var p :| IsValidMove(p);
        assert Cells[RowOf(boardSize, p)][ColOf(boardSize, p)].Free?;
      }
    }

    /** The won flag holds exactly when some row, column or diagonal carries
        one player's mark in every cell. */
    function IsBoardWon(): (w: bool)
      reads this, boardState, rowTotals, colTotals
      requires Valid()
      ensures w <==> SomeLineOwned(Cells, boardSize)
    {
      CompleteIffOwned(Cells, boardSize);
      boardWon
    }

    /** The win test after a move at (row, col): the row, the column or either
        diagonal has reached +-boardSize. */
    function MoveWinsGame(row: int, col: int): bool
      reads this, rowTotals, colTotals
      requires rowTotals.Length == boardSize && colTotals.Length == boardSize
      requires !OutOfBounds(boardSize, row, col)
    {
      || Abs(rowTotals[row]) == boardSize
      || Abs(colTotals[col]) == boardSize
      || Abs(bottomToTopDiagTotal) == boardSize
      || Abs(topToBottomDiagTotal) == boardSize
    }

    /** Adds the player's value to the totals of every line through (row, col). */
    method UpdateScore(playerId: PlayerId, row: int, col: int)
      requires rowTotals.Length == boardSize && colTotals.Length == boardSize && rowTotals != colTotals
      requires !OutOfBounds(boardSize, row, col)
      modifies this`topToBottomDiagTotal, this`bottomToTopDiagTotal, rowTotals, colTotals
      ensures rowTotals[..] == old(rowTotals[..])[row := old(rowTotals[row]) + playerId.NumVal()]
      ensures colTotals[..] == old(colTotals[..])[col := old(colTotals[col]) + playerId.NumVal()]
      ensures topToBottomDiagTotal ==
              old(topToBottomDiagTotal) + (if OnTopToBottomDiag(row, col) then playerId.NumVal() else 0)
      ensures bottomToTopDiagTotal ==
              old(bottomToTopDiagTotal) + (if OnBottomToTopDiag(boardSize, row, col) then playerId.NumVal() else 0)
    {
      rowTotals[row] := rowTotals[row] + playerId.NumVal();
      colTotals[col] := colTotals[col] + playerId.NumVal();
      if OnTopToBottomDiag(row, col) {
        topToBottomDiagTotal := topToBottomDiagTotal + playerId.NumVal();
      }
      if OnBottomToTopDiag(boardSize, row, col) {
        bottomToTopDiagTotal := bottomToTopDiagTotal + playerId.NumVal();
      }
    }

    /** The cell at position p takes `player` when it is free; otherwise
        nothing changes. The answer says whether the cell was taken. */
    method SetPlayerIdAt(p: int, player: PlayerId) returns (wasUpdated: bool)
      requires Linked() && boardSize > 0 && 1 <= p <= boardSize * boardSize
      modifies boardState, this`Cells
      ensures Linked()
      ensures !OutOfBounds(boardSize, RowOf(boardSize, p), ColOf(boardSize, p))
      ensures var row, col := RowOf(boardSize, p), ColOf(boardSize, p);
              && wasUpdated == old(Cells[row][col]).Free?
              && Cells == if wasUpdated then Put(old(Cells), row, col, Taken(player)) else old(Cells)
    {
      CoordinatesRoundTrip(boardSize, p);
      var row, col := RowOf(boardSize, p), ColOf(boardSize, p);
      var (cell, updated) := boardState[row, col].SetPlayerId(Some(player));
      if updated {
        boardState[row, col] := cell;
        Cells := Put(Cells, row, col, cell);
      }
      wasUpdated := updated;
    }

    /** The update `Move` performs once its checks have passed: `p` takes the
        free cell at `movePosition`, then the counter, the last mover, the
        line totals and the won flag follow. */
    method Claim(movePosition: int, p: PlayerId) returns (wasUpdated: bool)
      requires Valid() && !boardWon && lastMove != Some(p) && IsValidMove(movePosition)
      modifies this, boardState, rowTotals, colTotals
      ensures Valid() && wasUpdated
      ensures boardState == old(boardState) && rowTotals == old(rowTotals) && colTotals == old(colTotals)
      ensures
        var row, col := RowOf(boardSize, movePosition), ColOf(boardSize, movePosition);
        && Cells == Put(old(Cells), row, col, Taken(p))
        && moveCounter == old(moveCounter) + 1
        && lastMove == Some(p)
    {
      var n := boardSize;
      ghost var g, rows, cols := Cells, rowTotals[..], colTotals[..];
      ghost var d1, d2, counter, last := topToBottomDiagTotal, bottomToTopDiagTotal, moveCounter, lastMove;
      wasUpdated := SetPlayerIdAt(movePosition, p);
      if wasUpdated {
        lastMove := Some(p);
        moveCounter := moveCounter + 1;
        var row := (movePosition - 1) / n;
        var col := (movePosition - 1) % n;
        UpdateScore(p, row, col);
        if MoveWinsGame(row, col) {
          boardWon := true;
        }
        ClaimKeepsScores(g, n, rows, cols, d1, d2, counter, last, row, col, p, Cells, rowTotals[..],
                         colTotals[..], topToBottomDiagTotal, bottomToTopDiagTotal, boardWon);
      }
    }

    /** Claim the cell at `movePosition` for `playerId`.
        Turn-order errors come first, before the board is looked at; a move on
        a won board or on an invalid position is refused with `false` and
        changes nothing; otherwise exactly that cell is marked and the counter
        and the last mover advance. `Valid()` afterwards says that every
        running total is again the sum of its line and that the won flag
        records whether some line is complete. */
    method Move(movePosition: int, playerId: Option<PlayerId>) returns (r: Result<bool, MoveError>)
      requires Valid()
      modifies this, boardState, rowTotals, colTotals
      ensures Valid()
      ensures boardState == old(boardState) && rowTotals == old(rowTotals) && colTotals == old(colTotals)
      ensures playerId.None? ==> r == Failure(NullPlayer)
      ensures playerId.Some? && playerId == old(lastMove) ==> r == Failure(SamePlayerTwice)
      ensures playerId.Some? && playerId != old(lastMove) ==>
                r == Success(!old(boardWon) && old(IsValidMove(movePosition)))
      ensures r != Success(true) ==>
                && Cells == old(Cells) && moveCounter == old(moveCounter)
                && lastMove == old(lastMove) && boardWon == old(boardWon)
                && rowTotals[..] == old(rowTotals[..]) && colTotals[..] == old(colTotals[..])
                && topToBottomDiagTotal == old(topToBottomDiagTotal)
                && bottomToTopDiagTotal == old(bottomToTopDiagTotal)
      ensures r == Success(true) ==>
                var n := boardSize;
                var row, col := RowOf(n, movePosition), ColOf(n, movePosition);
                var v := playerId.value.NumVal();
                && Cells == Put(old(Cells), row, col, Taken(playerId.value))
                && moveCounter == old(moveCounter) + 1
                && lastMove == playerId
                && rowTotals[..] == old(rowTotals[..])[row := old(rowTotals[row]) + v]
                && colTotals[..] == old(colTotals[..])[col := old(colTotals[col]) + v]
                && topToBottomDiagTotal ==
                     old(topToBottomDiagTotal) + (if OnTopToBottomDiag(row, col) then v else 0)
                && bottomToTopDiagTotal ==
                     old(bottomToTopDiagTotal) + (if OnBottomToTopDiag(n, row, col) then v else 0)
                && boardWon == (Abs(rowTotals[row]) == n || Abs(colTotals[col]) == n
                                || Abs(topToBottomDiagTotal) == n || Abs(bottomToTopDiagTotal) == n)
      ensures r == Success(true) ==>
                forall q :: IsValidMove(q) <==> old(IsValidMove(q)) && q != movePosition
      ensures old(boardWon) ==> boardWon
    {
      if playerId.None? {
        r := Failure(NullPlayer);
      } else if lastMove == playerId {
        r := Failure(SamePlayerTwice);
      } else if boardWon {
        r := Success(false);
      } else if !IsValidMove(movePosition) {
        r := Success(false);
      } else {
        var n := boardSize;
        var row, col := RowOf(n, movePosition), ColOf(n, movePosition);
        ghost var g, rows, cols := Cells, rowTotals[..], colTotals[..];
        ghost var d1, d2, counter, last := topToBottomDiagTotal, bottomToTopDiagTotal, moveCounter, lastMove;
        var wasUpdated := Claim(movePosition, playerId.value);
        r := Success(wasUpdated);
        ClaimDeterminesScores(g, n, rows, cols, d1, d2, counter, last, row, col, playerId.value,
                              rowTotals[..], colTotals[..], topToBottomDiagTotal,
                              bottomToTopDiagTotal, moveCounter, lastMove, boardWon);
        forall q ensures IsValidMove(q) <==> old(IsValidMove(q)) && q != movePosition {
          if 1 <= q <= n * n {
            CoordinatesRoundTrip(n, q);
            CoordinatesRoundTrip(n, movePosition);
            if RowOf(n, q) == row && ColOf(n, q) == col {
              assert q == movePosition;
            }
          }
        }
      }
    }
  }

  /** Build a board of the given side length; side lengths of 1 or less are refused. */
  method NewBoard(boardSize: int) returns (r: Result<Board, BoardError>)
    requires boardSize <= MaxSize
    ensures r.Failure? <==> boardSize <= 1
    ensures r.Failure? ==> r.error == InvalidSize
    ensures r.Success? ==> fresh(r.value) && r.value.Valid() && r.value.IsFresh()
                           && r.value.boardSize == boardSize
    ensures r.Success? ==> fresh(r.value.boardState) && fresh(r.value.rowTotals) && fresh(r.value.colTotals)
  {
    if boardSize <= 1 {
      return Failure(InvalidSize);
    }
    var b := new Board(boardSize);
    r := Success(b);
  }

  /** The board of the default side length 3. */
  method NewDefaultBoard() returns (b: Board)
    ensures fresh(b) && b.Valid() && b.IsFresh() && b.boardSize == DefaultSize
    ensures fresh(b.boardState) && fresh(b.rowTotals) && fresh(b.colTotals)
  {
    b := new Board(DefaultSize);
  }

  /** No running total exceeds the side length in magnitude. */
  lemma TotalsBounded(b: Board)
    requires b.Valid()
    ensures forall r :: 0 <= r < b.boardSize ==> -(b.boardSize as int) <= b.rowTotals[r] <= b.boardSize
    ensures forall c :: 0 <= c < b.boardSize ==> -(b.boardSize as int) <= b.colTotals[c] <= b.boardSize
    ensures -(b.boardSize as int) <= b.topToBottomDiagTotal <= b.boardSize
    ensures -(b.boardSize as int) <= b.bottomToTopDiagTotal <= b.boardSize
  {
    var n, g := b.boardSize, b.Cells;
    forall r | 0 <= r < n
      ensures -(n as int) <= b.rowTotals[r] <= n && -(n as int) <= b.colTotals[r] <= n
    {
      assert b.rowTotals[r] == b.rowTotals[..][r] && b.colTotals[r] == b.colTotals[..][r];
      LineSumBounds(g, RowLine(n, r));
      LineSumBounds(g, ColLine(n, r));
    }
    LineSumBounds(g, TopToBottomLine(n));
    LineSumBounds(g, BottomToTopLine(n));
  }

  /** The counter never exceeds the number of cells. */
  lemma CounterBounded(b: Board)
    requires b.Valid()
    ensures 0 <= b.moveCounter <= b.boardSize * b.boardSize
  {
    CountTakenFree(b.Cells, b.boardSize);
  }

  /** A won board has seen at least 2 * boardSize - 1 moves, five on the
      default board: the winner holds a whole line and the other player,
      moving in turn, has one mark fewer at most. */
  lemma WinNeedsMoves(b: Board)
    requires b.Valid() && b.boardWon
    ensures b.moveCounter >= 2 * b.boardSize - 1
  {
    CompleteLineNeedsClaims(b.Cells, b.boardSize, b.lastMove);
  }

  /** On a valid board the win test after a move at (row, col) holds exactly
      when the total of its row, of its column or of one of the two diagonals
      has magnitude boardSize; both diagonals are tested whether or not
      (row, col) lies on them. Either way some line is complete.
      `WinAfterClaim` gives the converse for the cell just claimed. */
  lemma MoveWinsGameSound(b: Board, row: int, col: int)
    requires b.Valid() && !OutOfBounds(b.boardSize, row, col)
    ensures b.MoveWinsGame(row, col) <==>
      || Abs(LineSum(b.Cells, RowLine(b.boardSize, row))) == b.boardSize
      || Abs(LineSum(b.Cells, ColLine(b.boardSize, col))) == b.boardSize
      || Abs(LineSum(b.Cells, TopToBottomLine(b.boardSize))) == b.boardSize
      || Abs(LineSum(b.Cells, BottomToTopLine(b.boardSize))) == b.boardSize
    ensures b.MoveWinsGame(row, col) ==> SomeLineComplete(b.Cells, b.boardSize)
  {
  }

  /** A position is a valid move exactly when it is the position of a free
      cell of the board. */
  lemma ValidMoveIffFreeCell(b: Board, p: int)
    requires b.Valid()
    ensures b.IsValidMove(p) <==> exists row, col ::
      && !OutOfBounds(b.boardSize, row, col)
      && GetMovePosition(b.boardSize, row, col) == p
      && b.Cells[row][col].Free?
  {
    var n := b.boardSize;
    if b.IsValidMove(p) {
      CoordinatesRoundTrip(n, p);
      var row, col := RowOf(n, p), ColOf(n, p);
      assert GetMovePosition(n, row, col) == p && b.Cells[row][col].Free?;
    }
    if exists row, col :: !OutOfBounds(n, row, col) && GetMovePosition(n, row, col) == p && b.Cells[row][col].Free? {
      var row, col :| !OutOfBounds(n, row, col) && GetMovePosition(n, row, col) == p && b.Cells[row][col].Free?;
      PositionRoundTrip(n, row, col);
      assert b.GetCell(p) == b.Cells[row][col];
    }
  }
}
