/**
 * The computer player and its three ways of choosing a move.
 *
 * Random picks any valid position. Greedy and Evil scan the cells in
 * row-major order, score every free cell from the running totals of the lines
 * through it and keep the first cell with the best score. Both heuristics
 * take for granted that the computer holds PLAYER_TWO's mark (-1), whatever
 * its actual id: Greedy looks for the lowest combined total, Evil for the
 * highest single total, i.e. the lines where PLAYER_ONE is strongest.
 * None of the strategies changes the board.
 */
module Strategies {
  import opened Results
  import opened BoardMath
  import opened TicTacToe

  datatype Algorithm = Random | Greedy | Evil

  /** A computer player: its id and name (kept from the base player) and its algorithm. */
  datatype AIPlayer = AIPlayer(playerId: PlayerId, name: string, algo: Algorithm)

  /** The two situations in which no move can be chosen. */
  datatype SelectError = NoMovesRemain | AlreadyWon

  function Max(a: int, b: int): int {
    if a < b then b else a
  }

  /** The score a scoring algorithm gives the cell at position q: Greedy adds
      the totals of the column, the row and each diagonal through the cell;
      Evil takes the largest of them. */
  function CellScore(b: Board, algo: Algorithm, q: int): int
    reads b, b.boardState, b.rowTotals, b.colTotals
    requires b.Valid() && algo != Random && 1 <= q <= b.boardSize * b.boardSize
  {
    CoordinatesRoundTrip(b.boardSize, q);
    var row, col := RowOf(b.boardSize, q), ColOf(b.boardSize, q);
    var onDown, onUp := OnTopToBottomDiag(row, col), OnBottomToTopDiag(b.boardSize, row, col);
    if algo == Greedy then
      b.colTotals[col] + b.rowTotals[row]
      + (if onDown then b.topToBottomDiagTotal else 0)
      + (if onUp then b.bottomToTopDiagTotal else 0)
    else
      var s := Max(b.colTotals[col], b.rowTotals[row]);
      var s' := if onDown then Max(s, b.topToBottomDiagTotal) else s;
      if onUp then Max(s', b.bottomToTopDiagTotal) else s'
  }

  /** The Greedy score of the cell at (row, col), written in the order the
      scan adds the totals up. */
  lemma GreedyScoreAt(b: Board, row: int, col: int)
    requires b.Valid() && !OutOfBounds(b.boardSize, row, col)
    ensures 1 <= GetMovePosition(b.boardSize, row, col) <= b.boardSize * b.boardSize
    ensures CellScore(b, Greedy, GetMovePosition(b.boardSize, row, col)) ==
            b.colTotals[col] + b.rowTotals[row]
            + (if OnTopToBottomDiag(row, col) then b.topToBottomDiagTotal else 0)
            + (if OnBottomToTopDiag(b.boardSize, row, col) then b.bottomToTopDiagTotal else 0)
  {
    PositionRoundTrip(b.boardSize, row, col);
  }

  /** The Evil score of the cell at (row, col), written in the order the scan
      takes the maxima. */
  lemma EvilScoreAt(b: Board, row: int, col: int)
    requires b.Valid() && !OutOfBounds(b.boardSize, row, col)
    ensures 1 <= GetMovePosition(b.boardSize, row, col) <= b.boardSize * b.boardSize
    ensures var s := Max(b.colTotals[col], b.rowTotals[row]);
            var s' := if OnTopToBottomDiag(row, col) then Max(s, b.topToBottomDiagTotal) else s;
            CellScore(b, Evil, GetMovePosition(b.boardSize, row, col)) ==
              if OnBottomToTopDiag(b.boardSize, row, col) then Max(s', b.bottomToTopDiagTotal) else s'
  {
    PositionRoundTrip(b.boardSize, row, col);
  }

  /** Score x is better than score y: lower for Greedy, higher for Evil. */
  predicate Better(algo: Algorithm, x: int, y: int) {
    if algo == Greedy then x < y else x > y
  }

  /** m is the move a scoring algorithm must choose: a valid move whose score
      no valid move beats, and which beats every valid move before it. */
  ghost predicate IsBestMove(b: Board, algo: Algorithm, m: int)
    reads b, b.boardState, b.rowTotals, b.colTotals
    requires b.Valid() && algo != Random
  {
    && b.IsValidMove(m)
    && forall q :: b.IsValidMove(q) ==>
         && !Better(algo, CellScore(b, algo, q), CellScore(b, algo, m))
         && (q < m ==> Better(algo, CellScore(b, algo, m), CellScore(b, algo, q)))
  }

  /** Every score lies strictly between the sentinels the scans start from:
      no line total exceeds the side length, which is far below 2^31 / 4. */
  lemma ScoreBounds(b: Board, algo: Algorithm, q: int)
    requires b.Valid() && algo != Random && 1 <= q <= b.boardSize * b.boardSize
    ensures -4 * b.boardSize <= CellScore(b, algo, q) <= 4 * b.boardSize
    ensures IntMin < CellScore(b, algo, q) < IntMax
  {
    TotalsBounded(b);
    CoordinatesRoundTrip(b.boardSize, q);
  }

  /** The Greedy score counts marks: it is the signed sum of the marks on the
      row, the column and each diagonal through the cell. */
  lemma GreedyScoreCountsMarks(b: Board, q: int)
    requires b.Valid() && 1 <= q <= b.boardSize * b.boardSize
    ensures var n, g := b.boardSize, b.Cells;
            var row, col := RowOf(n, q), ColOf(n, q);
            CellScore(b, Greedy, q) ==
              LineSum(g, ColLine(n, col)) + LineSum(g, RowLine(n, row))
              + (if OnTopToBottomDiag(row, col) then LineSum(g, TopToBottomLine(n)) else 0)
              + (if OnBottomToTopDiag(n, row, col) then LineSum(g, BottomToTopLine(n)) else 0)
  {
    var n := b.boardSize;
    CoordinatesRoundTrip(n, q);
    var row, col := RowOf(n, q), ColOf(n, q);
    assert b.rowTotals[row] == b.rowTotals[..][row];
    assert b.colTotals[col] == b.colTotals[..][col];
  }

  /** At most one move satisfies the choice rule of a scoring algorithm. */
  lemma BestMoveUnique(b: Board, algo: Algorithm, m1: int, m2: int)
    requires b.Valid() && algo != Random
    requires IsBestMove(b, algo, m1) && IsBestMove(b, algo, m2)
    ensures m1 == m2
  {
  }

  /** On a board without marks every score is 0, so both scans keep the first
      cell, position 1. */
  lemma EmptyBoardBestMove(b: Board, algo: Algorithm)
    requires b.Valid() && algo != Random && b.moveCounter == 0
    ensures IsBestMove(b, algo, 1)
  {
    var n, g := b.boardSize, b.Cells;
    CountTakenFree(g, n);
    forall line: seq<(int, int)> ensures LineSum(g, line) == 0 {
      LineSumAllFree(g, line);
    }
    forall q | 1 <= q <= n * n
      ensures CellScore(b, algo, q) == 0
    {
      CoordinatesRoundTrip(n, q);
      var row, col := RowOf(n, q), ColOf(n, q);
      assert b.rowTotals[row] == b.rowTotals[..][row] == LineSum(g, RowLine(n, row));
      assert b.colTotals[col] == b.colTotals[..][col] == LineSum(g, ColLine(n, col));
    }
    PositionRoundTrip(n, 0, 0);
    assert b.IsValidMove(1);
  }

  /** The value a scan's best score starts from: above every Greedy score,
      below every Evil score. */
  function Sentinel(algo: Algorithm): int {
    if algo == Greedy then IntMax else IntMin
  }

  /** The state of a row-major scan after it has looked at positions
      1..seen: while no valid move was seen, the best score is the sentinel
      and the best move is 1; afterwards the best move is a valid move among
      them with the best score, no seen valid move beats it, and it beats every
      valid move seen before it. */
  ghost predicate ScannedUpTo(b: Board, algo: Algorithm, seen: int, best: int, score: int)
    reads b, b.boardState, b.rowTotals, b.colTotals
    requires b.Valid() && algo != Random
  {
    && (score == Sentinel(algo) ==> best == 1)
    && (score != Sentinel(algo) ==>
          1 <= best <= seen && b.IsValidMove(best) && score == CellScore(b, algo, best))
    && forall q :: 1 <= q <= seen && b.IsValidMove(q) ==>
         && score != Sentinel(algo)
         && !Better(algo, CellScore(b, algo, q), score)
         && (q < best ==> Better(algo, score, CellScore(b, algo, q)))
  }

  /** Passing over position seen + 1, which is not a valid move or does not
      score strictly better, extends the scan by one position. */
  lemma ScanKeep(b: Board, algo: Algorithm, row: int, col: int, best: int, score: int)
    requires b.Valid() && algo != Random && !OutOfBounds(b.boardSize, row, col)
    requires ScannedUpTo(b, algo, row * b.boardSize + col, best, score)
    requires var pos := GetMovePosition(b.boardSize, row, col);
             b.IsValidMove(pos) ==> !Better(algo, CellScore(b, algo, pos), score)
    ensures ScannedUpTo(b, algo, row * b.boardSize + col + 1, best, score)
  {
    var pos := GetMovePosition(b.boardSize, row, col);
    PositionRoundTrip(b.boardSize, row, col);
    if b.IsValidMove(pos) {
      ScoreBounds(b, algo, pos);
    }
  }

  /** Taking position seen + 1, a valid move that scores strictly better,
      extends the scan by one position. */
  lemma ScanTake(b: Board, algo: Algorithm, row: int, col: int, best: int, score: int)
    requires b.Valid() && algo != Random && !OutOfBounds(b.boardSize, row, col)
    requires ScannedUpTo(b, algo, row * b.boardSize + col, best, score)
    requires var pos := GetMovePosition(b.boardSize, row, col);
             b.IsValidMove(pos) && Better(algo, CellScore(b, algo, pos), score)
    ensures var pos := GetMovePosition(b.boardSize, row, col);
            ScannedUpTo(b, algo, pos, pos, CellScore(b, algo, pos))
  {
    PositionRoundTrip(b.boardSize, row, col);
    ScoreBounds(b, algo, GetMovePosition(b.boardSize, row, col));
  }

  /** Scanning the last column of a row completes the row. */
  lemma RowDone(n: int, row: int)
    ensures row * n + n == (row + 1) * n
  {
  }

  /** A scan over all positions has found the move the algorithm must choose,
      or position 1 when there is no valid move. */
  lemma ScanComplete(b: Board, algo: Algorithm, best: int, score: int)
    requires b.Valid() && algo != Random
    requires ScannedUpTo(b, algo, b.boardSize * b.boardSize, best, score)
    ensures (exists q :: b.IsValidMove(q)) ==> IsBestMove(b, algo, best)
    ensures (forall q :: !b.IsValidMove(q)) ==> best == 1
  {
  }

  /** Greedy: the first free cell, in row-major order, with the lowest
      combined total; position 1 when no cell is free. */
  method GetGreedyMove(b: Board) returns (bestMove: int)
    requires b.Valid()
    ensures (exists q :: b.IsValidMove(q)) ==> IsBestMove(b, Greedy, bestMove)
    ensures (forall q :: !b.IsValidMove(q)) ==> bestMove == 1
  {
    var n := b.boardSize;
    var mostFavorableScore := IntMax;
    bestMove := 1;
    for row := 0 to b.rowTotals.Length
      invariant ScannedUpTo(b, Greedy, row * n, bestMove, mostFavorableScore)
    {
      for col := 0 to b.colTotals.Length
        invariant ScannedUpTo(b, Greedy, row * n + col, bestMove, mostFavorableScore)
      {
        GreedyScoreAt(b, row, col);
        var pos := GetMovePosition(n, row, col);
        if b.IsValidMove(pos) {
          var cellScore := b.colTotals[col] + b.rowTotals[row];
          if OnTopToBottomDiag(row, col) {
            cellScore := cellScore + b.topToBottomDiagTotal;
          }
          if OnBottomToTopDiag(n, row, col) {
            cellScore := cellScore + b.bottomToTopDiagTotal;
          }
          if cellScore < mostFavorableScore {
            ScanTake(b, Greedy, row, col, bestMove, mostFavorableScore);
            mostFavorableScore := cellScore;
            bestMove := pos;
          } else {
            ScanKeep(b, Greedy, row, col, bestMove, mostFavorableScore);
          }
        } else {
          ScanKeep(b, Greedy, row, col, bestMove, mostFavorableScore);
        }
      }
      RowDone(n, row);
    }
    ScanComplete(b, Greedy, bestMove, mostFavorableScore);
  }

  /** Evil: the first free cell, in row-major order, whose largest line total
      is the highest; position 1 when no cell is free. */
  method GetEvilMove(b: Board) returns (bestMove: int)
    requires b.Valid()
    ensures (exists q :: b.IsValidMove(q)) ==> IsBestMove(b, Evil, bestMove)
    ensures (forall q :: !b.IsValidMove(q)) ==> bestMove == 1
  {
    var n := b.boardSize;
    var mostFavorableScore := IntMin;
    bestMove := 1;
    for row := 0 to b.rowTotals.Length
      invariant ScannedUpTo(b, Evil, row * n, bestMove, mostFavorableScore)
    {
      for col := 0 to b.colTotals.Length
        invariant ScannedUpTo(b, Evil, row * n + col, bestMove, mostFavorableScore)
      {
        EvilScoreAt(b, row, col);
        var pos := GetMovePosition(n, row, col);
        if b.IsValidMove(pos) {
          var cellScore := Max(b.colTotals[col], b.rowTotals[row]);
          if OnTopToBottomDiag(row, col) {
            cellScore := Max(cellScore, b.topToBottomDiagTotal);
          }
          if OnBottomToTopDiag(n, row, col) {
            cellScore := Max(cellScore, b.bottomToTopDiagTotal);
          }
          if cellScore > mostFavorableScore {
            ScanTake(b, Evil, row, col, bestMove, mostFavorableScore);
            mostFavorableScore := cellScore;
            bestMove := pos;
          } else {
            ScanKeep(b, Evil, row, col, bestMove, mostFavorableScore);
          }
        } else {
          ScanKeep(b, Evil, row, col, bestMove, mostFavorableScore);
        }
      }
      RowDone(n, row);
    }
    ScanComplete(b, Evil, bestMove, mostFavorableScore);
  }

  /** The valid moves among positions 1..k, in increasing order: the list the
      Random algorithm draws from. */
  function ValidPositionsUpTo(b: Board, k: nat): seq<int>
    reads b, b.boardState, b.rowTotals, b.colTotals
    requires b.Valid()
  {
    if k == 0 then []
    else ValidPositionsUpTo(b, k - 1) + (if b.IsValidMove(k) then [k] else [])
  }

  /** The list is strictly increasing and holds positions 1..k only. */
  lemma {:induction false} ValidPositionsIncreasing(b: Board, k: nat)
    requires b.Valid()
    ensures forall i :: 0 <= i < |ValidPositionsUpTo(b, k)| ==> 1 <= ValidPositionsUpTo(b, k)[i] <= k
    ensures forall i, j :: 0 <= i < j < |ValidPositionsUpTo(b, k)| ==>
              ValidPositionsUpTo(b, k)[i] < ValidPositionsUpTo(b, k)[j]
  {
    if k > 0 {
      ValidPositionsIncreasing(b, k - 1);
      AppendKeepsIncreasing(ValidPositionsUpTo(b, k - 1), k, ValidPositionsUpTo(b, k));
    }
  }

  /** Positions in 1..k-1 in increasing order stay increasing, within 1..k,
      when k is appended. */
  lemma AppendKeepsIncreasing(before: seq<int>, k: int, moves: seq<int>)
    requires forall i :: 0 <= i < |before| ==> 1 <= before[i] <= k - 1
    requires forall i, j :: 0 <= i < j < |before| ==> before[i] < before[j]
    requires 1 <= k && (moves == before || moves == before + [k])
    ensures forall i :: 0 <= i < |moves| ==> 1 <= moves[i] <= k
    ensures forall i, j :: 0 <= i < j < |moves| ==> moves[i] < moves[j]
  {
  }

  /** The list holds exactly the valid moves up to k. */
  lemma {:induction false} ValidPositionsMembers(b: Board, k: nat, q: int)
    requires b.Valid()
    ensures q in ValidPositionsUpTo(b, k) <==> 1 <= q <= k && b.IsValidMove(q)
  {
    if k > 0 {
      ValidPositionsMembers(b, k - 1, q);
    }
  }

  /** Random: collect the valid moves in increasing order, then take the one at
      the index the random generator yields. The draw of `nextInt(size)` is
      the parameter `draw` reduced modulo the list's size; on an empty list
      the draw fails, which is `None` here. */
  method GetRandomMove(b: Board, draw: nat) returns (m: Option<int>)
    requires b.Valid()
    ensures m.None? <==> forall q :: !b.IsValidMove(q)
    ensures m.Some? ==> b.IsValidMove(m.value)
    ensures var moves := ValidPositionsUpTo(b, b.boardSize * b.boardSize);
            m.Some? ==> |moves| > 0 && m.value == moves[draw % |moves|]
  {
    var maxMoves := b.boardSize * b.boardSize;
    var moves: seq<int> := [];
    for i := 1 to maxMoves + 1
      invariant moves == ValidPositionsUpTo(b, i - 1)
    {
      if b.IsValidMove(i) {
        moves := moves + [i];
      }
    }
    if |moves| == 0 {
      forall q ensures !b.IsValidMove(q) {
        ValidPositionsMembers(b, maxMoves, q);
      }
      m := None;
    } else {
      var moveIdx := draw % |moves|;
      ValidPositionsMembers(b, maxMoves, moves[moveIdx]);
      m := Some(moves[moveIdx]);
    }
  }

  /** Every valid move is the one some draw selects. */
  lemma EveryValidMoveDrawable(b: Board, q: int)
    requires b.Valid() && b.IsValidMove(q)
    ensures exists draw: nat :: draw < |ValidPositionsUpTo(b, b.boardSize * b.boardSize)| &&
              ValidPositionsUpTo(b, b.boardSize * b.boardSize)[draw] == q
  {
    ValidPositionsMembers(b, b.boardSize * b.boardSize, q);
  }

  /** The computer player's turn: refuse when no move remains, then when the
      game is already won; otherwise run the player's algorithm. The player's
      own id plays no part. */
  method GetNextMove(player: AIPlayer, b: Board, draw: nat) returns (r: Result<int, SelectError>)
    requires b.Valid()
    ensures !b.ValidMovesRemain() ==> r == Failure(NoMovesRemain)
    ensures b.ValidMovesRemain() && b.IsBoardWon() ==> r == Failure(AlreadyWon)
    ensures b.ValidMovesRemain() && !b.IsBoardWon() ==>
              && r.Success? && b.IsValidMove(r.value)
              && (player.algo != Random ==> IsBestMove(b, player.algo, r.value))
  {
    if !b.ValidMovesRemain() {
      return Failure(NoMovesRemain);
    }
    if b.IsBoardWon() {
      return Failure(AlreadyWon);
    }
    match player.algo {
      case Greedy =>
        var m := GetGreedyMove(b);
        r := Success(m);
      case Evil =>
        var m := GetEvilMove(b);
        r := Success(m);
      case Random =>
        var m := GetRandomMove(b, draw);
        r := if m.Some? then Success(m.value) else Failure(NoMovesRemain);
    }
  }
}
