/**
 * Games played on the default 3 x 3 board, as the repository's own tests play
 * them, with the outcome each test expects stated and proved.
 */
module Scenarios {
  import opened Results
  import opened BoardMath
  import opened TicTacToe
  import opened Strategies

  /** One turn the tests expect to succeed: `Move` accepts it, with the
      effect its contract states for an accepted move. */
  method Turn(b: Board, movePosition: int, p: PlayerId)
    requires b.Valid() && !b.boardWon && b.lastMove != Some(p) && b.IsValidMove(movePosition)
    modifies b, b.boardState, b.rowTotals, b.colTotals
    ensures b.Valid()
    ensures b.boardState == old(b.boardState) && b.rowTotals == old(b.rowTotals) && b.colTotals == old(b.colTotals)
    ensures var n := b.boardSize;
            var row, col := RowOf(n, movePosition), ColOf(n, movePosition);
            && b.Cells == Put(old(b.Cells), row, col, Taken(p))
            && b.lastMove == Some(p)
            && b.rowTotals[..] == old(b.rowTotals[..])[row := old(b.rowTotals[row]) + p.NumVal()]
            && b.colTotals[..] == old(b.colTotals[..])[col := old(b.colTotals[col]) + p.NumVal()]
            && b.topToBottomDiagTotal ==
                 old(b.topToBottomDiagTotal) + (if OnTopToBottomDiag(row, col) then p.NumVal() else 0)
            && b.bottomToTopDiagTotal ==
                 old(b.bottomToTopDiagTotal) + (if OnBottomToTopDiag(n, row, col) then p.NumVal() else 0)
            && b.moveCounter == old(b.moveCounter) + 1
            && b.boardWon == (Abs(b.rowTotals[row]) == n || Abs(b.colTotals[col]) == n
                              || Abs(b.topToBottomDiagTotal) == n || Abs(b.bottomToTopDiagTotal) == n)
    ensures forall q :: b.IsValidMove(q) <==> old(b.IsValidMove(q)) && q != movePosition
  {
    var r := b.Move(movePosition, Some(p));
  }

  const X: Cell := Taken(PlayerOne)
  const O: Cell := Taken(PlayerTwo)

  /** The part of a 3 x 3 board the scenarios track: valid, not won, and
      holding these totals after `counter` moves, the last one by `last`. */
  ghost predicate Shows(b: Board, r0: int, r1: int, r2: int, c0: int, c1: int, c2: int,
                        d1: int, d2: int, counter: int, last: PlayerId)
    reads b, b.boardState, b.rowTotals, b.colTotals
  {
    && b.Valid() && b.boardSize == 3 && !b.boardWon
    && b.rowTotals[0] == r0 && b.rowTotals[1] == r1 && b.rowTotals[2] == r2
    && b.colTotals[0] == c0 && b.colTotals[1] == c1 && b.colTotals[2] == c2
    && b.topToBottomDiagTotal == d1 && b.bottomToTopDiagTotal == d2
    && b.moveCounter == counter && b.lastMove == Some(last)
  }

  // ---------------------------------------------------------------------
  // The won board: X on 1, 2, 3 and O on 4, 5.

  /** X on 1 and 2, O on 4. */
  method WonBoardOpening() returns (b: Board)
    ensures fresh(b) && fresh(b.boardState) && fresh(b.rowTotals) && fresh(b.colTotals)
    ensures Shows(b, 2, -1, 0, 0, 1, 0, 1, 0, 3, PlayerOne)
    ensures b.IsValidMove(3) && b.IsValidMove(5)
  {
    b := NewDefaultBoard();
    Turn(b, 1, PlayerOne);
    Turn(b, 4, PlayerTwo);
    Turn(b, 2, PlayerOne);
  }

  /** O's move 5 leaves the board unwon; X's move 3 completes the top row: the
      board is won while moves remain, and a computer player of any
      algorithm then refuses to choose a move. */
  method WonBoardScenario(algo: Algorithm, draw: nat)
    returns (wonBefore: bool, wonAfter: bool, remain: bool, next: Result<int, SelectError>)
    ensures !wonBefore && wonAfter && remain
    ensures next == Failure(AlreadyWon)
  {
    var b := WonBoardOpening();
    Turn(b, 5, PlayerTwo);
    wonBefore := b.IsBoardWon();
    Turn(b, 3, PlayerOne);
    wonAfter := b.IsBoardWon();
    remain := b.ValidMovesRemain();
    next := GetNextMove(AIPlayer(PlayerTwo, "AI", algo), b, draw);
  }

  // ---------------------------------------------------------------------
  // The drawn board:
  //   X X O
  //   O O X
  //   X X O
  // played as X 1, O 3, X 2, O 4, X 6, O 5, X 7, O 9, X 8.

  /** X on 1 and 2, O on 3. */
  method DrawOpening() returns (b: Board)
    ensures fresh(b) && fresh(b.boardState) && fresh(b.rowTotals) && fresh(b.colTotals)
    ensures Shows(b, 1, 0, 0, 1, 1, -1, 1, -1, 3, PlayerOne)
    ensures b.IsValidMove(4) && b.IsValidMove(5) && b.IsValidMove(6)
    ensures b.IsValidMove(7) && b.IsValidMove(8) && b.IsValidMove(9)
  {
    b := NewDefaultBoard();
    Turn(b, 1, PlayerOne);
    Turn(b, 3, PlayerTwo);
    Turn(b, 2, PlayerOne);
  }

  /** O on 4, X on 6, O on 5: the middle row is full and nobody has won. */
  method DrawMiddle(b: Board)
    requires Shows(b, 1, 0, 0, 1, 1, -1, 1, -1, 3, PlayerOne)
    requires b.IsValidMove(4) && b.IsValidMove(5) && b.IsValidMove(6)
    requires b.IsValidMove(7) && b.IsValidMove(8) && b.IsValidMove(9)
    modifies b, b.boardState, b.rowTotals, b.colTotals
    ensures b.boardState == old(b.boardState) && b.rowTotals == old(b.rowTotals) && b.colTotals == old(b.colTotals)
    ensures Shows(b, 1, -1, 0, 0, 0, 0, 0, -2, 6, PlayerTwo)
    ensures b.IsValidMove(7) && b.IsValidMove(8) && b.IsValidMove(9)
  {
    Turn(b, 4, PlayerTwo);
    Turn(b, 6, PlayerOne);
    Turn(b, 5, PlayerTwo);
  }

  /** X 7 and O 9 leave one move, and X's 8 fills the board without a winner. */
  method DrawEnding(b: Board) returns (remainBefore: bool)
    requires Shows(b, 1, -1, 0, 0, 0, 0, 0, -2, 6, PlayerTwo)
    requires b.IsValidMove(7) && b.IsValidMove(8) && b.IsValidMove(9)
    modifies b, b.boardState, b.rowTotals, b.colTotals
    ensures b.boardState == old(b.boardState) && b.rowTotals == old(b.rowTotals) && b.colTotals == old(b.colTotals)
    ensures Shows(b, 1, -1, 1, 1, 1, -1, -1, -1, 9, PlayerOne)
    ensures remainBefore
  {
    Turn(b, 7, PlayerOne);
    Turn(b, 9, PlayerTwo);
    remainBefore := b.ValidMovesRemain();
    Turn(b, 8, PlayerOne);
  }

  /** The drawn game: a move remains before X's last move and none after it,
      nobody has won, and a computer player of any algorithm then refuses to
      choose a move. */
  method DrawScenario(algo: Algorithm, draw: nat)
    returns (remainBefore: bool, wonAfter: bool, remainAfter: bool, next: Result<int, SelectError>)
    ensures remainBefore && !wonAfter && !remainAfter
    ensures next == Failure(NoMovesRemain)
  {
    var b := DrawOpening();
    DrawMiddle(b);
    remainBefore := DrawEnding(b);
    wonAfter := b.IsBoardWon();
    remainAfter := b.ValidMovesRemain();
    next := GetNextMove(AIPlayer(PlayerTwo, "AI", algo), b, draw);
  }

  // ---------------------------------------------------------------------
  // Alternating moves 1 to 7, X first:
  //   X O X
  //   O X O
  //   X - -

  /** Moves 1 to 3. */
  method SimpleMovesOpening() returns (b: Board)
    ensures fresh(b) && fresh(b.boardState) && fresh(b.rowTotals) && fresh(b.colTotals)
    ensures Shows(b, 1, 0, 0, 1, -1, 1, 1, 1, 3, PlayerOne)
    ensures b.IsValidMove(4) && b.IsValidMove(5) && b.IsValidMove(6) && b.IsValidMove(7) && b.IsValidMove(8)
  {
    b := NewDefaultBoard();
    Turn(b, 1, PlayerOne);
    Turn(b, 2, PlayerTwo);
    Turn(b, 3, PlayerOne);
  }

  /** Moves 4 to 6: the board is full above the last row and nobody has won. */
  method SimpleMovesMiddle(b: Board)
    requires Shows(b, 1, 0, 0, 1, -1, 1, 1, 1, 3, PlayerOne)
    requires b.IsValidMove(4) && b.IsValidMove(5) && b.IsValidMove(6) && b.IsValidMove(7) && b.IsValidMove(8)
    modifies b, b.boardState, b.rowTotals, b.colTotals
    ensures b.boardState == old(b.boardState) && b.rowTotals == old(b.rowTotals) && b.colTotals == old(b.colTotals)
    ensures Shows(b, 1, -1, 0, 0, 0, 0, 2, 2, 6, PlayerTwo)
    ensures b.IsValidMove(7) && b.IsValidMove(8)
  {
    Turn(b, 4, PlayerTwo);
    Turn(b, 5, PlayerOne);
    Turn(b, 6, PlayerTwo);
  }

  /** After six moves the game is open; X's 7 takes cell 7, completes the
      rising diagonal and wins while moves remain, and O's 8 is then refused
      and leaves cell 8 free. */
  method SimpleMovesScenario()
    returns (wonBefore: bool, mark: Cell, stillValid: bool, wonAfter: bool, remain: bool,
             late: Result<bool, MoveError>, lateCell: Cell)
    ensures !wonBefore && mark == X && !stillValid && wonAfter && remain
    ensures late == Success(false) && lateCell == Free
  {
    var b := SimpleMovesOpening();
    SimpleMovesMiddle(b);
    wonBefore := b.IsBoardWon();
    Turn(b, 7, PlayerOne);
    mark, stillValid := b.GetCell(7), b.IsValidMove(7);
    wonAfter := b.IsBoardWon();
    remain := b.ValidMovesRemain();
    late := b.Move(8, Some(PlayerTwo));
    lateCell := b.GetCell(8);
  }

  // ---------------------------------------------------------------------
  // Refused moves on a fresh board.

  /** A null player is refused; X's 7 is accepted; X again is refused; O on the
      taken cell 7 is declined and leaves X's mark in place. */
  method TurnOrderScenario()
    returns (nullMove: Result<bool, MoveError>, first: Result<bool, MoveError>,
             twice: Result<bool, MoveError>, repeat: Result<bool, MoveError>, cell: Cell)
    ensures nullMove == Failure(NullPlayer) && first == Success(true)
    ensures twice == Failure(SamePlayerTwice) && repeat == Success(false) && cell == X
  {
    var b := NewDefaultBoard();
    nullMove := b.Move(7, None);
    first := b.Move(7, Some(PlayerOne));
    twice := b.Move(8, Some(PlayerOne));
    repeat := b.Move(7, Some(PlayerTwo));
    cell := b.GetCell(7);
  }

  /** On a fresh board exactly the positions 1 to 9 are valid moves. */
  method FreshBoardValidMoves(p: int) returns (valid: bool)
    ensures valid <==> 1 <= p <= 9
  {
    var b := NewDefaultBoard();
    valid := b.IsValidMove(p);
    if 1 <= p <= 9 {
      CoordinatesRoundTrip(3, p);
    }
  }

  /** A single X at (row, col) on a fresh board adds 1 to its row, its column
      and each diagonal through it, and nothing to the other diagonals. */
  method SingleMoveScenario(row: int, col: int) returns (rowTotal: int, colTotal: int, down: int, up: int)
    requires 0 <= row < 3 && 0 <= col < 3
    ensures rowTotal == 1 && colTotal == 1
    ensures down == (if row == col then 1 else 0)
    ensures up == (if row + col == 2 then 1 else 0)
  {
    var b := NewDefaultBoard();
    var pos := GetMovePosition(3, row, col);
    PositionRoundTrip(3, row, col);
    Turn(b, pos, PlayerOne);
    rowTotal, colTotal := b.rowTotals[row], b.colTotals[col];
    down, up := b.topToBottomDiagTotal, b.bottomToTopDiagTotal;
  }

  // ---------------------------------------------------------------------
  // The computer player on a fresh board.

  /** On a fresh board Greedy and Evil both choose position 1, and Random
      chooses some position from 1 to 9. */
  method FreshBoardComputerMove(algo: Algorithm, draw: nat) returns (next: Result<int, SelectError>)
    ensures next.Success? && 1 <= next.value <= 9
    ensures algo != Random ==> next == Success(1)
  {
    var b := NewDefaultBoard();
    next := GetNextMove(AIPlayer(PlayerTwo, "AI", algo), b, draw);
    if algo != Random {
      EmptyBoardBestMove(b, algo);
      BestMoveUnique(b, algo, 1, next.value);
    }
  }

  // ---------------------------------------------------------------------
  // Two computer players playing a whole game.

  /** The random draw for the k-th move: the k-th of `draws`, or 0 once they run out. */
  function DrawAt(draws: seq<nat>, k: nat): nat {
    if k < |draws| then draws[k] else 0
  }

  /** One turn of a game between computer players: `player` makes the
      valid move `movePosition`, which is accepted; if the game goes on, the
      other player `opponent` chooses its next move with `draw`. That move is
      valid unless the board is now won or full. */
  method PlayTurn(b: Board, player: PlayerId, movePosition: int, opponent: AIPlayer, draw: nat)
    returns (ok: Result<bool, MoveError>, nextMove: int)
    requires b.Valid() && !b.boardWon && b.lastMove != Some(player) && b.IsValidMove(movePosition)
    modifies b, b.boardState, b.rowTotals, b.colTotals
    ensures b.Valid()
    ensures b.boardState == old(b.boardState) && b.rowTotals == old(b.rowTotals) && b.colTotals == old(b.colTotals)
    ensures ok == Success(true) && b.moveCounter == old(b.moveCounter) + 1 && b.lastMove == Some(player)
    ensures b.IsValidMove(nextMove) ==> !b.boardWon
    ensures b.IsValidMove(nextMove) || b.boardWon || !b.ValidMovesRemain()
  {
    ok := b.Move(movePosition, Some(player));
    nextMove := movePosition;
    if b.ValidMovesRemain() && !b.IsBoardWon() {
      var r := GetNextMove(opponent, b, draw);
      nextMove := r.value;
    }
  }

  /** Two computer players with different marks take turns on a fresh board,
      the first one opening, for as long as the chosen move is valid. Every
      move they choose is accepted, and the game stops after at least five
      moves, with the board won or full; `moves` counts the moves made. */
  method PlayOut(first: AIPlayer, second: AIPlayer, draws: seq<nat>)
    returns (b: Board, moves: nat, allAccepted: bool)
    requires first.playerId != second.playerId
    ensures b.Valid() && b.boardSize == 3
    ensures allAccepted && moves == b.moveCounter && moves >= 5
    ensures b.IsBoardWon() || !b.ValidMovesRemain()
  {
    b := NewDefaultBoard();
    var current, waiting := first, second;
    var r := GetNextMove(current, b, DrawAt(draws, 0));
    var nextMove := r.value;
    moves, allAccepted := 0, true;
    while b.IsValidMove(nextMove)
      invariant fresh(b) && fresh(b.boardState) && fresh(b.rowTotals) && fresh(b.colTotals)
      invariant b.Valid() && b.boardSize == 3 && moves == b.moveCounter && allAccepted
      invariant current.playerId != waiting.playerId && b.lastMove != Some(current.playerId)
      invariant b.IsValidMove(nextMove) ==> !b.boardWon
      invariant b.IsValidMove(nextMove) || b.boardWon || !b.ValidMovesRemain()
      decreases 9 - b.moveCounter
    {
      CounterBounded(b);
      var ok;
      ok, nextMove := PlayTurn(b, current.playerId, nextMove, waiting, DrawAt(draws, moves + 1));
      allAccepted := allAccepted && ok == Success(true);
      moves := moves + 1;
      current, waiting := waiting, current;
    }
    if b.boardWon {
      WinNeedsMoves(b);
    }
  }
}
