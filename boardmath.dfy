/**
 * The arithmetic behind the board: the two marks and their signed values,
 * the cell states, the 1-based row-major numbering of positions, and the
 * index lists of the rows, columns and both diagonals together with the
 * signed sums over them.
 *
 * Cells are kept as a grid `g` of n rows of n cells; the cell at position
 * `p` is `g[(p - 1) / n][(p - 1) % n]`, and the cell at `(row, col)` has
 * position `row * n + col + 1`.
 */
module BoardMath {
  import opened Results

  /** Largest side length whose square still fits in a 32-bit Java `int`. */
  const MaxSize: int := 46340
  const IntMax: int := 0x7fff_ffff
  const IntMin: int := -0x8000_0000

  /** The two marks: PLAYER_ONE ("X") counts +1, PLAYER_TWO ("O") counts -1. */
  datatype PlayerId = PlayerOne | PlayerTwo {
    function NumVal(): int {
      if PlayerOne? then 1 else -1
    }
  }

  /** An individual cell: free, or claimed by one player. */
  datatype Cell = Free | Taken(owner: PlayerId) {
    predicate IsFree() {
      Free?
    }

    /** Claim this cell for `p`; refused (and the cell kept) when the cell is
        already taken or `p` is null. */
    function SetPlayerId(p: Option<PlayerId>): (res: (Cell, bool))
      ensures res.1 <==> IsFree() && p.Some?
      ensures res.1 ==> res.0 == Taken(p.value) && !res.0.IsFree()
      ensures !res.1 ==> res.0 == this
    {
      if !IsFree() || p.None? then (this, false) else (Taken(p.value), true)
    }

    /** What this cell contributes to the total of every line through it. */
    function Value(): int {
      if Free? then 0 else owner.NumVal()
    }
  }

  // ---------------------------------------------------------------------
  // Positions and coordinates

  /** Position (1-based, row-major) of the zero-based cell `(row, col)`. */
  function GetMovePosition(n: int, row: int, col: int): int {
    row * n + col + 1
  }

  /** Zero-based row of position `p`. */
  function RowOf(n: int, p: int): int
    requires n > 0 && p >= 1
  {
    (p - 1) / n
  }

  /** Zero-based column of position `p`. */
  function ColOf(n: int, p: int): int
    requires n > 0 && p >= 1
  {
    (p - 1) % n
  }

  predicate OnTopToBottomDiag(row: int, col: int) {
    row == col
  }

  predicate OnBottomToTopDiag(n: int, row: int, col: int) {
    row + col == n - 1
  }

  predicate OutOfBounds(n: int, row: int, col: int) {
    row >= n || row < 0 || col >= n || col < 0
  }

  /** Euclidean division is determined by quotient and remainder. */
  lemma DivModUnique(a: int, n: int, q: int, r: int)
    requires n > 0 && 0 <= r < n && a == q * n + r
    ensures a / n == q && a % n == r
  {
    var q', r' := a / n, a % n;
    assert a == q' * n + r' && 0 <= r' < n;
    if q' < q {
      MulLess(q', q - 1, n);
    } else if q < q' {
      MulLess(q, q' - 1, n);
    }
  }

  lemma MulLess(a: int, b: int, n: int)
    requires a <= b && n >= 0
    ensures a * n <= b * n
  {
  }

  /** `(row, col) -> position -> (row, col)` is the identity on the board. */
  lemma PositionRoundTrip(n: int, row: int, col: int)
    requires n > 0 && !OutOfBounds(n, row, col)
    ensures 1 <= GetMovePosition(n, row, col) <= n * n
    ensures RowOf(n, GetMovePosition(n, row, col)) == row
    ensures ColOf(n, GetMovePosition(n, row, col)) == col
  {
    MulLess(row, n - 1, n);
    DivModUnique(row * n + col, n, row, col);
  }

  /** A cell is out of bounds exactly when no move position in 1..N*N names it. */
  lemma OutOfBoundsIffNoPosition(n: int, row: int, col: int)
    requires n > 0
    ensures OutOfBounds(n, row, col) <==>
      forall p :: 1 <= p <= n * n ==> RowOf(n, p) != row || ColOf(n, p) != col
  {
    if OutOfBounds(n, row, col) {
      forall p | 1 <= p <= n * n
        ensures RowOf(n, p) != row || ColOf(n, p) != col
      {
        CoordinatesRoundTrip(n, p);
      }
    } else {
      PositionRoundTrip(n, row, col);
    }
  }

  /** `position -> (row, col) -> position` is the identity on `[1, n*n]`. */
  lemma CoordinatesRoundTrip(n: int, p: int)
    requires n > 0 && 1 <= p <= n * n
    ensures !OutOfBounds(n, RowOf(n, p), ColOf(n, p))
    ensures GetMovePosition(n, RowOf(n, p), ColOf(n, p)) == p
  {
  }

  /** Distinct cells have distinct positions. */
  lemma PositionInjective(n: int, r1: int, c1: int, r2: int, c2: int)
    requires n > 0 && !OutOfBounds(n, r1, c1) && !OutOfBounds(n, r2, c2)
    requires r1 * n + c1 == r2 * n + c2
    ensures r1 == r2 && c1 == c2
  {
    DivModUnique(r1 * n + c1, n, r1, c1);
    DivModUnique(r2 * n + c2, n, r2, c2);
  }

  // ---------------------------------------------------------------------
  // The grid and its lines

  /** The cells by row and column, as Java's `Cell[][] boardState`. */
  type Grid = seq<seq<Cell>>

  ghost predicate IsSquare(g: Grid, n: nat) {
    |g| == n && forall r :: 0 <= r < |g| ==> |g[r]| == n
  }

  ghost predicate OnGrid(g: Grid, rc: (int, int)) {
    0 <= rc.0 < |g| && 0 <= rc.1 < |g[rc.0]|
  }

  /** On an N-by-N grid the bounds test fails exactly for the grid's own cells. */
  lemma InBoundsIffOnGrid(g: Grid, n: nat, row: int, col: int)
    requires IsSquare(g, n)
    ensures !OutOfBounds(n, row, col) <==> OnGrid(g, (row, col))
  {
  }

  /** `g` with the cell at (row, col) replaced by `x`. */
  ghost function Put(g: Grid, row: int, col: int, x: Cell): (g': Grid)
    requires OnGrid(g, (row, col))
    ensures |g'| == |g| && forall r :: 0 <= r < |g| ==> |g'[r]| == |g[r]|
  {
    g[row := g[row][col := x]]
  }

  /** What the cell at `rc` adds to a line total (nothing off the grid). */
  ghost function ValueAt(g: Grid, rc: (int, int)): int {
    if OnGrid(g, rc) then g[rc.0][rc.1].Value() else 0
  }

  function RowLine(n: nat, r: int): seq<(int, int)> {
    seq(n, c => (r, c))
  }

  function ColLine(n: nat, c: int): seq<(int, int)> {
    seq(n, r => (r, c))
  }

  /** The diagonal from top-left to bottom-right: `row == col`. */
  function TopToBottomLine(n: nat): seq<(int, int)> {
    seq(n, i => (i, i))
  }

  /** The diagonal from top-right to bottom-left: `row + col == n - 1`. */
  function BottomToTopLine(n: nat): seq<(int, int)> {
    seq(n, i => (i, n - 1 - i))
  }

  ghost predicate Distinct(line: seq<(int, int)>) {
    forall j, k :: 0 <= j < k < |line| ==> line[j] != line[k]
  }

  /** Every cell on `line` holds the mark of `p`. */
  ghost predicate OwnedBy(g: Grid, line: seq<(int, int)>, p: PlayerId) {
    forall k :: 0 <= k < |line| ==> OnGrid(g, line[k]) && g[line[k].0][line[k].1] == Taken(p)
  }

  /** The signed sum of the marks on `line`. */
  ghost function LineSum(g: Grid, line: seq<(int, int)>): int
    decreases |line|
  {
    if line == [] then 0 else ValueAt(g, line[0]) + LineSum(g, line[1..])
  }

  /** The signed sum of the marks in one row of cells. */
  ghost function RowValue(cells: seq<Cell>): int {
    if cells == [] then 0 else cells[0].Value() + RowValue(cells[1..])
  }

  /** The signed sum of all marks on the board. */
  ghost function MarkTotal(g: Grid): int {
    if g == [] then 0 else RowValue(g[0]) + MarkTotal(g[1..])
  }

  /** Number of claimed cells in one row. */
  ghost function RowTaken(cells: seq<Cell>): nat {
    if cells == [] then 0 else (if cells[0].Taken? then 1 else 0) + RowTaken(cells[1..])
  }

  /** Number of claimed cells on the board. */
  ghost function CountTaken(g: Grid): nat {
    if g == [] then 0 else RowTaken(g[0]) + CountTaken(g[1..])
  }

  /** Some cell of the board is free. */
  ghost predicate HasFreeCell(g: Grid) {
    exists r, c :: 0 <= r < |g| && 0 <= c < |g[r]| && g[r][c].Free?
  }

  function SumSeq(s: seq<int>): int {
    if s == [] then 0 else s[0] + SumSeq(s[1..])
  }

  function Abs(x: int): int {
    if x < 0 then -x else x
  }

  /** Some row, column or diagonal total has reached +-n. */
  ghost predicate SomeLineComplete(g: Grid, n: nat) {
    || (exists r :: 0 <= r < n && Abs(LineSum(g, RowLine(n, r))) == n)
    || (exists c :: 0 <= c < n && Abs(LineSum(g, ColLine(n, c))) == n)
    || Abs(LineSum(g, TopToBottomLine(n))) == n
    || Abs(LineSum(g, BottomToTopLine(n))) == n
  }

  /** Some row, column or diagonal holds nothing but one player's mark. */
  ghost predicate SomeLineOwned(g: Grid, n: nat) {
    || (exists r, p :: 0 <= r < n && OwnedBy(g, RowLine(n, r), p))
    || (exists c, p :: 0 <= c < n && OwnedBy(g, ColLine(n, c), p))
    || (exists p :: OwnedBy(g, TopToBottomLine(n), p))
    || (exists p :: OwnedBy(g, BottomToTopLine(n), p))
  }

  // ---------------------------------------------------------------------
  // Lemmas about line sums

  /** A line total never exceeds the length of the line in magnitude. */
  lemma {:induction false} LineSumBounds(g: Grid, line: seq<(int, int)>)
    ensures -|line| <= LineSum(g, line) <= |line|
    decreases |line|
  {
    if line != [] {
      LineSumBounds(g, line[1..]);
    }
  }

  /** A line total reaches +|line| (resp. -|line|) exactly when every cell of
      the line holds PLAYER_ONE's (resp. PLAYER_TWO's) mark. */
  lemma {:induction false} LineSumOwned(g: Grid, line: seq<(int, int)>)
    ensures LineSum(g, line) == |line| <==> OwnedBy(g, line, PlayerOne)
    ensures LineSum(g, line) == -|line| <==> OwnedBy(g, line, PlayerTwo)
    decreases |line|
  {
    if line != [] {
      var tail := line[1..];
      LineSumOwned(g, tail);
      LineSumBounds(g, tail);
      forall p: PlayerId
        ensures OwnedBy(g, line, p) <==>
                (OnGrid(g, line[0]) && g[line[0].0][line[0].1] == Taken(p) && OwnedBy(g, tail, p))
      {
        if OwnedBy(g, line, p) {
          forall k | 0 <= k < |tail|
            ensures OnGrid(g, tail[k]) && g[tail[k].0][tail[k].1] == Taken(p)
          {
            assert tail[k] == line[k + 1];
          }
        }
        if OnGrid(g, line[0]) && g[line[0].0][line[0].1] == Taken(p) && OwnedBy(g, tail, p) {
          forall k | 0 <= k < |line|
            ensures OnGrid(g, line[k]) && g[line[k].0][line[k].1] == Taken(p)
          {
            if k > 0 {
              assert line[k] == tail[k - 1];
            }
          }
        }
      }
    }
  }

  /** Replacing the cell at (row, col) changes the total of a line without
      repeated cells by the change of that cell's value if the line goes
      through it, and leaves it alone otherwise. */
  lemma {:induction false} LineSumUpdate(g: Grid, line: seq<(int, int)>, row: int, col: int, x: Cell)
    requires Distinct(line) && OnGrid(g, (row, col))
    ensures LineSum(Put(g, row, col, x), line) ==
            LineSum(g, line) + (if (row, col) in line then x.Value() - g[row][col].Value() else 0)
    decreases |line|
  {
    if line != [] {
      var tail := line[1..];
      assert Distinct(tail) by {
        forall j, k | 0 <= j < k < |tail|
          ensures tail[j] != tail[k]
        {
          assert tail[j] == line[j + 1] && tail[k] == line[k + 1];
        }
      }
      LineSumUpdate(g, tail, row, col, x);
      if line[0] == (row, col) {
        assert (row, col) !in tail by {
          forall k | 0 <= k < |tail|
            ensures tail[k] != (row, col)
          {
            assert tail[k] == line[k + 1];
          }
        }
      }
      assert (row, col) in line <==> line[0] == (row, col) || (row, col) in tail;
    }
  }

  /** On a board without marks every line total is zero. */
  lemma {:induction false} LineSumAllFree(g: Grid, line: seq<(int, int)>)
    requires forall r, c :: 0 <= r < |g| && 0 <= c < |g[r]| ==> g[r][c] == Free
    ensures LineSum(g, line) == 0
    decreases |line|
  {
    if line != [] {
      LineSumAllFree(g, line[1..]);
    }
  }

  // ---------------------------------------------------------------------
  // Which lines go through which cell

  /** Each line lists its n cells once each. */
  lemma LinesDistinct(n: nat)
    ensures forall r :: Distinct(RowLine(n, r))
    ensures forall c :: Distinct(ColLine(n, c))
    ensures Distinct(TopToBottomLine(n)) && Distinct(BottomToTopLine(n))
  {
  }

  /** The cell (row, col) of the board lies on row r iff row == r, on column c
      iff col == c, on the top-left to bottom-right diagonal iff row == col and
      on the top-right to bottom-left diagonal iff row + col == n - 1. */
  lemma LineMembers(n: nat, row: int, col: int)
    requires !OutOfBounds(n, row, col)
    ensures forall r :: (row, col) in RowLine(n, r) <==> row == r
    ensures forall c :: (row, col) in ColLine(n, c) <==> col == c
    ensures (row, col) in TopToBottomLine(n) <==> OnTopToBottomDiag(row, col)
    ensures (row, col) in BottomToTopLine(n) <==> OnBottomToTopDiag(n, row, col)
  {
    assert RowLine(n, row)[col] == (row, col);
    assert ColLine(n, col)[row] == (row, col);
    if row == col {
      assert TopToBottomLine(n)[row] == (row, col);
    }
    if row + col == n - 1 {
      assert BottomToTopLine(n)[row] == (row, col);
    }
  }

  // ---------------------------------------------------------------------
  // Counting claimed cells and adding up all marks

  lemma {:induction false} RowClaim(cells: seq<Cell>, col: int, p: PlayerId)
    requires 0 <= col < |cells| && cells[col].Free?
    ensures RowTaken(cells[col := Taken(p)]) == RowTaken(cells) + 1
    ensures RowValue(cells[col := Taken(p)]) == RowValue(cells) + p.NumVal()
    decreases |cells|
  {
    if col > 0 {
      assert cells[col := Taken(p)][1..] == cells[1..][col - 1 := Taken(p)];
      RowClaim(cells[1..], col - 1, p);
    } else {
      assert cells[col := Taken(p)][1..] == cells[1..];
    }
  }

  /** Claiming a free cell raises the count by one and the sum of all marks by
      the player's value. */
  lemma {:induction false} CountClaim(g: Grid, row: int, col: int, p: PlayerId)
    requires OnGrid(g, (row, col)) && g[row][col].Free?
    ensures CountTaken(Put(g, row, col, Taken(p))) == CountTaken(g) + 1
    ensures MarkTotal(Put(g, row, col, Taken(p))) == MarkTotal(g) + p.NumVal()
    decreases |g|
  {
    if row > 0 {
      assert Put(g, row, col, Taken(p))[1..] == Put(g[1..], row - 1, col, Taken(p));
      CountClaim(g[1..], row - 1, col, p);
    } else {
      assert Put(g, row, col, Taken(p))[1..] == g[1..];
      RowClaim(g[0], col, p);
    }
  }

  lemma {:induction false} RowTakenFree(cells: seq<Cell>)
    ensures RowTaken(cells) <= |cells|
    ensures RowTaken(cells) < |cells| <==> exists c :: 0 <= c < |cells| && cells[c].Free?
    ensures RowTaken(cells) == 0 <==> forall c :: 0 <= c < |cells| ==> cells[c].Free?
    decreases |cells|
  {
    if cells != [] {
      RowTakenFree(cells[1..]);
      assert forall c :: 1 <= c < |cells| ==> cells[c] == cells[1..][c - 1];
      if exists c :: 0 <= c < |cells[1..]| && cells[1..][c].Free? {
        var c :| 0 <= c < |cells[1..]| && cells[1..][c].Free?;
        assert cells[c + 1].Free?;
      }
    }
  }

  /** On a board with `rows` rows of n cells, the count of claimed cells is at
      most rows * n, stays below it exactly while a cell is free, and is zero
      exactly when every cell is free. */
  lemma CountTakenFree(g: Grid, n: nat)
    requires forall r :: 0 <= r < |g| ==> |g[r]| == n
    ensures CountTaken(g) <= |g| * n
    ensures CountTaken(g) < |g| * n <==> HasFreeCell(g)
    ensures CountTaken(g) == 0 <==> forall r, c :: 0 <= r < |g| && 0 <= c < n ==> g[r][c].Free?
  {
    CapacitySquare(g, n);
    CountTakenBelow(g);
    CountTakenNone(g, n);
  }

  /** Number of cells on the board, row by row. */
  ghost function Capacity(g: Grid): nat {
    if g == [] then 0 else |g[0]| + Capacity(g[1..])
  }

  lemma {:induction false} CapacitySquare(g: Grid, n: nat)
    requires forall r :: 0 <= r < |g| ==> |g[r]| == n
    ensures Capacity(g) == |g| * n
    decreases |g|
  {
    if g != [] {
      CapacitySquare(g[1..], n);
      assert |g| * n == n + |g[1..]| * n;
    }
  }

  lemma {:induction false} CountTakenBelow(g: Grid)
    ensures CountTaken(g) <= Capacity(g)
    ensures CountTaken(g) < Capacity(g) <==> HasFreeCell(g)
    decreases |g|
  {
    if g != [] {
      CountTakenBelow(g[1..]);
      RowTakenFree(g[0]);
      HasFreeCellSplit(g);
    }
  }

  /** A board has a free cell exactly when its first row or the rest has one. */
  lemma HasFreeCellSplit(g: Grid)
    requires g != []
    ensures HasFreeCell(g) <==> HasFreeCell(g[1..]) || exists c :: 0 <= c < |g[0]| && g[0][c].Free?
  {
  }

  lemma {:induction false} CountTakenNone(g: Grid, n: nat)
    requires forall r :: 0 <= r < |g| ==> |g[r]| == n
    ensures CountTaken(g) == 0 <==> forall r, c :: 0 <= r < |g| && 0 <= c < n ==> g[r][c].Free?
    decreases |g|
  {
    if g != [] {
      CountTakenNone(g[1..], n);
      RowTakenFree(g[0]);
      assert forall r :: 1 <= r < |g| ==> g[r] == g[1..][r - 1];
    }
  }

  lemma {:induction false} SumSeqUpdate(s: seq<int>, k: int, d: int)
    requires 0 <= k < |s|
    ensures SumSeq(s[k := s[k] + d]) == SumSeq(s) + d
    decreases |s|
  {
    if k > 0 {
      assert s[k := s[k] + d][1..] == s[1..][k - 1 := s[1..][k - 1] + d];
      SumSeqUpdate(s[1..], k - 1, d);
    } else {
      assert s[k := s[k] + d][1..] == s[1..];
    }
  }

  lemma {:induction false} SumSeqZeros(s: seq<int>)
    requires forall k :: 0 <= k < |s| ==> s[k] == 0
    ensures SumSeq(s) == 0
    decreases |s|
  {
    if s != [] {
      SumSeqZeros(s[1..]);
    }
  }

  lemma {:induction false} TotalsAllFree(g: Grid)
    requires forall r, c :: 0 <= r < |g| && 0 <= c < |g[r]| ==> g[r][c] == Free
    ensures MarkTotal(g) == 0
    decreases |g|
  {
    if g != [] {
      RowValueAllFree(g[0]);
      assert forall r, c :: 0 <= r < |g[1..]| && 0 <= c < |g[1..][r]| ==> g[1..][r][c] == g[r + 1][c];
      TotalsAllFree(g[1..]);
    }
  }

  lemma {:induction false} RowValueAllFree(cells: seq<Cell>)
    requires forall c :: 0 <= c < |cells| ==> cells[c] == Free
    ensures RowValue(cells) == 0
    decreases |cells|
  {
    if cells != [] {
      RowValueAllFree(cells[1..]);
    }
  }

  // ---------------------------------------------------------------------
  // Counting each player's marks

  /** Number of cells in one row holding `p`'s mark. */
  ghost function RowMarks(cells: seq<Cell>, p: PlayerId): nat {
    if cells == [] then 0 else (if cells[0] == Taken(p) then 1 else 0) + RowMarks(cells[1..], p)
  }

  /** Number of cells on the board holding `p`'s mark. */
  ghost function Marks(g: Grid, p: PlayerId): nat {
    if g == [] then 0 else RowMarks(g[0], p) + Marks(g[1..], p)
  }

  lemma {:induction false} RowMarksSplit(cells: seq<Cell>)
    ensures RowTaken(cells) == RowMarks(cells, PlayerOne) + RowMarks(cells, PlayerTwo)
    ensures RowValue(cells) == RowMarks(cells, PlayerOne) - RowMarks(cells, PlayerTwo)
    decreases |cells|
  {
    if cells != [] {
      RowMarksSplit(cells[1..]);
      match cells[0]
      case Free =>
      case Taken(owner) =>
        assert owner == PlayerOne || owner == PlayerTwo;
    }
  }

  /** The claimed cells are X's marks plus O's marks, and the sum of all
      marks is X's count minus O's count. */
  lemma {:induction false} MarksSplit(g: Grid)
    ensures CountTaken(g) == Marks(g, PlayerOne) + Marks(g, PlayerTwo)
    ensures MarkTotal(g) == Marks(g, PlayerOne) - Marks(g, PlayerTwo)
    decreases |g|
  {
    if g != [] {
      RowMarksSplit(g[0]);
      MarksSplit(g[1..]);
    }
  }

  lemma {:induction false} RowMarkAt(cells: seq<Cell>, col: int, p: PlayerId)
    requires 0 <= col < |cells| && cells[col] == Taken(p)
    ensures RowMarks(cells, p) >= 1
    decreases |cells|
  {
    if col > 0 {
      RowMarkAt(cells[1..], col - 1, p);
    }
  }

  lemma {:induction false} RowMarksFull(cells: seq<Cell>, p: PlayerId)
    requires forall c :: 0 <= c < |cells| ==> cells[c] == Taken(p)
    ensures RowMarks(cells, p) == |cells|
    decreases |cells|
  {
    if cells != [] {
      assert forall c :: 0 <= c < |cells[1..]| ==> cells[1..][c] == cells[c + 1];
      RowMarksFull(cells[1..], p);
    }
  }

  lemma {:induction false} MarksAtLeastRow(g: Grid, r: int, p: PlayerId)
    requires 0 <= r < |g|
    ensures Marks(g, p) >= RowMarks(g[r], p)
    decreases |g|
  {
    if r > 0 {
      MarksAtLeastRow(g[1..], r - 1, p);
    }
  }

  /** Some cell of the row holds `p`'s mark. */
  ghost predicate HasMark(cells: seq<Cell>, p: PlayerId) {
    exists c :: 0 <= c < |cells| && cells[c] == Taken(p)
  }

  /** A player with a mark in every row has at least one mark per row. */
  lemma {:induction false} MarkInEveryRow(g: Grid, p: PlayerId)
    requires forall r :: 0 <= r < |g| ==> HasMark(g[r], p)
    ensures Marks(g, p) >= |g|
    decreases |g|
  {
    if g != [] {
      assert HasMark(g[0], p);
      var c :| 0 <= c < |g[0]| && g[0][c] == Taken(p);
      RowMarkAt(g[0], c, p);
      assert forall r :: 0 <= r < |g[1..]| ==> g[1..][r] == g[r + 1];
      MarkInEveryRow(g[1..], p);
    }
  }

  /** Whoever holds a whole line of an n x n board has at least n marks. */
  lemma OwnedLineMarks(g: Grid, n: nat)
    requires IsSquare(g, n) && SomeLineOwned(g, n)
    ensures Marks(g, PlayerOne) >= n || Marks(g, PlayerTwo) >= n
  {
    if exists r, p :: 0 <= r < n && OwnedBy(g, RowLine(n, r), p) {
      var r, p :| 0 <= r < n && OwnedBy(g, RowLine(n, r), p);
      forall c | 0 <= c < n
        ensures g[r][c] == Taken(p)
      {
        assert RowLine(n, r)[c] == (r, c);
      }
      RowMarksFull(g[r], p);
      MarksAtLeastRow(g, r, p);
      assert |g[r]| == n;
      assert p == PlayerOne || p == PlayerTwo;
    } else if exists c, p :: 0 <= c < n && OwnedBy(g, ColLine(n, c), p) {
      var c, p :| 0 <= c < n && OwnedBy(g, ColLine(n, c), p);
      LineThroughEveryRow(g, n, ColLine(n, c), p);
      assert p == PlayerOne || p == PlayerTwo;
    } else if exists p :: OwnedBy(g, TopToBottomLine(n), p) {
      var p :| OwnedBy(g, TopToBottomLine(n), p);
      LineThroughEveryRow(g, n, TopToBottomLine(n), p);
      assert p == PlayerOne || p == PlayerTwo;
    } else {
      var p :| OwnedBy(g, BottomToTopLine(n), p);
      LineThroughEveryRow(g, n, BottomToTopLine(n), p);
      assert p == PlayerOne || p == PlayerTwo;
    }
  }

  /** A line with one cell in every row, held entirely by `p`. */
  lemma LineThroughEveryRow(g: Grid, n: nat, line: seq<(int, int)>, p: PlayerId)
    requires IsSquare(g, n) && |line| == n && OwnedBy(g, line, p)
    requires forall i :: 0 <= i < n ==> line[i].0 == i
    ensures Marks(g, p) >= n
  {
    forall r | 0 <= r < |g|
      ensures HasMark(g[r], p)
    {
      var c := line[r].1;
      assert OnGrid(g, line[r]) && g[line[r].0][c] == Taken(p);
    }
    MarkInEveryRow(g, p);
  }

  /** A complete line on a board where turns alternate took at least 2n - 1
      claims: n marks of its owner and, the two counts differing by at most
      one, at least n - 1 marks of the other player. */
  lemma CompleteLineNeedsClaims(g: Grid, n: nat, last: Option<PlayerId>)
    requires n > 0 && IsSquare(g, n)
    requires MarkTotal(g) == 0 || (last.Some? && MarkTotal(g) == last.value.NumVal())
    requires SomeLineComplete(g, n)
    ensures CountTaken(g) >= 2 * n - 1
  {
    CompleteIffOwned(g, n);
    OwnedLineMarks(g, n);
    MarksSplit(g);
    assert -1 <= MarkTotal(g) <= 1;
  }

  // ---------------------------------------------------------------------
  // Lines and winning

  /** A line is complete (its total has magnitude |line|) exactly when one
      player holds all of it. */
  lemma LineCompleteIffOwned(g: Grid, line: seq<(int, int)>)
    ensures Abs(LineSum(g, line)) == |line| <==> exists p :: OwnedBy(g, line, p)
  {
    LineSumOwned(g, line);
    if exists p :: OwnedBy(g, line, p) {
      var p :| OwnedBy(g, line, p);
      assert p == PlayerOne || p == PlayerTwo;
    }
  }

  /** A completed line (total of magnitude n) is one held entirely by one
      player: the signed encoding turns the win test into a comparison. */
  lemma CompleteIffOwned(g: Grid, n: nat)
    requires n > 0
    ensures SomeLineComplete(g, n) <==> SomeLineOwned(g, n)
  {
    forall r | 0 <= r < n
      ensures Abs(LineSum(g, RowLine(n, r))) == n <==> exists p :: OwnedBy(g, RowLine(n, r), p)
    {
      LineCompleteIffOwned(g, RowLine(n, r));
    }
    forall c | 0 <= c < n
      ensures Abs(LineSum(g, ColLine(n, c))) == n <==> exists p :: OwnedBy(g, ColLine(n, c), p)
    {
      LineCompleteIffOwned(g, ColLine(n, c));
    }
    LineCompleteIffOwned(g, TopToBottomLine(n));
    LineCompleteIffOwned(g, BottomToTopLine(n));
  }

  /** What claiming the free cell (row, col) for `p` does to the line totals:
      the row and the column of the cell and each diagonal through it gain
      `p`'s value, and every other line keeps its total. */
  lemma ClaimUpdatesLines(g: Grid, n: nat, row: int, col: int, p: PlayerId)
    requires IsSquare(g, n) && !OutOfBounds(n, row, col) && g[row][col].Free?
    ensures forall r :: 0 <= r < n ==>
              LineSum(Put(g, row, col, Taken(p)), RowLine(n, r)) ==
              LineSum(g, RowLine(n, r)) + (if r == row then p.NumVal() else 0)
    ensures forall c :: 0 <= c < n ==>
              LineSum(Put(g, row, col, Taken(p)), ColLine(n, c)) ==
              LineSum(g, ColLine(n, c)) + (if c == col then p.NumVal() else 0)
    ensures LineSum(Put(g, row, col, Taken(p)), TopToBottomLine(n)) ==
            LineSum(g, TopToBottomLine(n)) + (if OnTopToBottomDiag(row, col) then p.NumVal() else 0)
    ensures LineSum(Put(g, row, col, Taken(p)), BottomToTopLine(n)) ==
            LineSum(g, BottomToTopLine(n)) + (if OnBottomToTopDiag(n, row, col) then p.NumVal() else 0)
  {
    var x := Taken(p);
    LinesDistinct(n);
    LineMembers(n, row, col);
    forall r | 0 <= r < n
      ensures LineSum(Put(g, row, col, x), RowLine(n, r)) ==
              LineSum(g, RowLine(n, r)) + (if r == row then p.NumVal() else 0)
    {
      LineSumUpdate(g, RowLine(n, r), row, col, x);
    }
    forall c | 0 <= c < n
      ensures LineSum(Put(g, row, col, x), ColLine(n, c)) ==
              LineSum(g, ColLine(n, c)) + (if c == col then p.NumVal() else 0)
    {
      LineSumUpdate(g, ColLine(n, c), row, col, x);
    }
    LineSumUpdate(g, TopToBottomLine(n), row, col, x);
    LineSumUpdate(g, BottomToTopLine(n), row, col, x);
  }

  /** On a board where no line was complete, claiming (row, col) completes
      some line exactly when it completes the row or the column of the cell or
      one of the two diagonals: these four totals are all a win test needs. */
  lemma WinAfterClaim(g: Grid, n: nat, row: int, col: int, p: PlayerId)
    requires IsSquare(g, n) && !OutOfBounds(n, row, col) && g[row][col].Free?
    requires !SomeLineComplete(g, n)
    ensures SomeLineComplete(Put(g, row, col, Taken(p)), n) <==>
            || Abs(LineSum(Put(g, row, col, Taken(p)), RowLine(n, row))) == n
            || Abs(LineSum(Put(g, row, col, Taken(p)), ColLine(n, col))) == n
            || Abs(LineSum(Put(g, row, col, Taken(p)), TopToBottomLine(n))) == n
            || Abs(LineSum(Put(g, row, col, Taken(p)), BottomToTopLine(n))) == n
  {
    ClaimUpdatesLines(g, n, row, col, p);
  }

  // ---------------------------------------------------------------------
  // The scoring invariant of a board

  /** The running totals, the counter, the last mover and the won flag agree
      with the cells `g` of an n x n board:
      each total is the signed sum of the marks on its line, the row totals
      and the column totals both add up to the sum of all marks, the counter
      counts the claimed cells, turns alternate (the marks are balanced or the
      last mover is one mark ahead), and the flag is set exactly when some
      line is complete. */
  ghost predicate Scores(g: Grid, n: nat, rows: seq<int>, cols: seq<int>, d1: int, d2: int,
                         counter: int, last: Option<PlayerId>, won: bool)
  {
    && IsSquare(g, n) && |rows| == n && |cols| == n
    && (forall r {:trigger LineSum(g, RowLine(n, r))} :: 0 <= r < n ==> rows[r] == LineSum(g, RowLine(n, r)))
    && (forall c {:trigger LineSum(g, ColLine(n, c))} :: 0 <= c < n ==> cols[c] == LineSum(g, ColLine(n, c)))
    && d1 == LineSum(g, TopToBottomLine(n))
    && d2 == LineSum(g, BottomToTopLine(n))
    && SumSeq(rows) == MarkTotal(g)
    && SumSeq(cols) == MarkTotal(g)
    && counter == CountTaken(g)
    && (counter == 0 <==> last.None?)
    && (MarkTotal(g) == 0 || (last.Some? && MarkTotal(g) == last.value.NumVal()))
    && won == SomeLineComplete(g, n)
  }

  /** The empty board satisfies the scoring invariant with all totals zero. */
  lemma EmptyScores(n: nat)
    requires n > 0
    ensures Scores(seq(n, _ => seq(n, _ => Free)), n, seq(n, _ => 0), seq(n, _ => 0), 0, 0, 0, None, false)
  {
    var g: Grid := seq(n, _ => seq(n, _ => Free));
    forall line: seq<(int, int)> ensures LineSum(g, line) == 0 {
      LineSumAllFree(g, line);
    }
    SumSeqZeros(seq(n, _ => 0));
    TotalsAllFree(g);
    CountTakenFree(g, n);
  }

  /** Claiming the free cell (row, col) on a board that is not yet won, by the
      player who did not move last, keeps the scoring invariant when the row
      and column of the cell and each diagonal through it gain the player's
      value, the counter goes up by one, the player becomes the last mover and
      the flag is set exactly when one of those four totals reaches +-n. */
  lemma ClaimKeepsScores(g: Grid, n: nat, rows: seq<int>, cols: seq<int>, d1: int, d2: int,
                         counter: int, last: Option<PlayerId>, row: int, col: int, p: PlayerId,
                         g': Grid, rows': seq<int>, cols': seq<int>, d1': int, d2': int, won': bool)
    requires !OutOfBounds(n, row, col)
    requires Scores(g, n, rows, cols, d1, d2, counter, last, false)
    requires g[row][col].Free? && last != Some(p)
    requires g' == Put(g, row, col, Taken(p))
    requires rows' == rows[row := rows[row] + p.NumVal()]
    requires cols' == cols[col := cols[col] + p.NumVal()]
    requires d1' == d1 + (if OnTopToBottomDiag(row, col) then p.NumVal() else 0)
    requires d2' == d2 + (if OnBottomToTopDiag(n, row, col) then p.NumVal() else 0)
    requires won' == (Abs(rows'[row]) == n || Abs(cols'[col]) == n || Abs(d2') == n || Abs(d1') == n)
    ensures Scores(g', n, rows', cols', d1', d2', counter + 1, Some(p), won')
  {
    var v := p.NumVal();
    ClaimUpdatesLines(g, n, row, col, p);
    WinAfterClaim(g, n, row, col, p);
    CountClaim(g, row, col, p);
    SumSeqUpdate(rows, row, v);
    SumSeqUpdate(cols, col, v);
    if last.Some? {
      assert last.value.NumVal() == -v;
    }
  }

  /** Conversely, the scoring invariant before and after a claim of the free
      cell (row, col) pins the new totals down: the row and the column of the
      cell and each diagonal through it have gained the player's value, every
      other total is unchanged, the counter has gone up by one and the flag
      is set exactly when one of the four totals through the cell reaches +-n. */
  lemma ClaimDeterminesScores(g: Grid, n: nat, rows: seq<int>, cols: seq<int>, d1: int, d2: int,
                              counter: int, last: Option<PlayerId>, row: int, col: int, p: PlayerId,
                              rows': seq<int>, cols': seq<int>, d1': int, d2': int,
                              counter': int, last': Option<PlayerId>, won': bool)
    requires !OutOfBounds(n, row, col)
    requires Scores(g, n, rows, cols, d1, d2, counter, last, false)
    requires g[row][col].Free?
    requires Scores(Put(g, row, col, Taken(p)), n, rows', cols', d1', d2', counter', last', won')
    ensures rows' == rows[row := rows[row] + p.NumVal()]
    ensures cols' == cols[col := cols[col] + p.NumVal()]
    ensures d1' == d1 + (if OnTopToBottomDiag(row, col) then p.NumVal() else 0)
    ensures d2' == d2 + (if OnBottomToTopDiag(n, row, col) then p.NumVal() else 0)
    ensures counter' == counter + 1
    ensures won' == (Abs(rows'[row]) == n || Abs(cols'[col]) == n || Abs(d1') == n || Abs(d2') == n)
  {
    var g' := Put(g, row, col, Taken(p));
    ClaimUpdatesLines(g, n, row, col, p);
    WinAfterClaim(g, n, row, col, p);
    CountClaim(g, row, col, p);
    assert rows' == rows[row := rows[row] + p.NumVal()] by {
      forall r | 0 <= r < n
        ensures rows'[r] == rows[row := rows[row] + p.NumVal()][r]
      {
        assert rows'[r] == LineSum(g', RowLine(n, r));
      }
    }
    assert cols' == cols[col := cols[col] + p.NumVal()] by {
      forall c | 0 <= c < n
        ensures cols'[c] == cols[col := cols[col] + p.NumVal()][c]
      {
        assert cols'[c] == LineSum(g', ColLine(n, c));
      }
    }
    assert rows'[row] == LineSum(g', RowLine(n, row));
    assert cols'[col] == LineSum(g', ColLine(n, col));
  }
}
