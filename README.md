# TicTacToe board and computer players, modelled in Dafny

This project models the core of a Java N x N tic-tac-toe game. It covers
two classes: the `Board` and the computer player `AIPlayer`.

- **The board.** The board counts every mark as +1 (PLAYER_ONE, "X") or
  -1 (PLAYER_TWO, "O"). Beside the cells it keeps a running total for
  every row, every column and each of the two diagonals. It also keeps a
  move counter, the last mover and a sticky "won" flag.
- **`move`.** This is the board's only mutating operation. It checks the
  player and the turn order, then the board and the position. It claims
  the cell, updates the totals of the lines through it, and sets the won
  flag when one of those totals reaches +-N.
- **The computer player.** It chooses a move in one of three ways:
  - Random picks one of the valid positions.
  - Greedy scans the cells in row-major order and keeps the first free
    cell with the lowest sum of the totals of its lines.
  - Evil keeps the first free cell with the highest of those totals.

## How the model is built

- **`BoardMath`** (`boardmath.dfy`) holds:
  - the marks and the cells as datatypes;
  - the 1-based row-major position numbering and its inverse;
  - the lines of the board as lists of coordinates, with their signed sums;
  - the scoring invariant `Scores` and the lemmas about claiming a cell.

  The lemmas are proved over a value grid (`seq<seq<Cell>>`).
- **`TicTacToe`** (`board.dfy`) is the `Board` class:
  - `boardState` is an `array2<Cell>`, and `rowTotals` and `colTotals`
    are `array<int>`. The diagonal totals, the counter, the last mover and
    the won flag are fields.
  - The ghost field `Cells` mirrors the cell array.
  - `Valid()` states the representation invariant. Every total is the
    signed sum of the marks on its line. The counter is the number of
    claimed cells. Turns alternate. The flag is set exactly when some
    line is complete.
  - `Move` is proved to keep the invariant. Its contract states the
    complete new state.
- **`Strategies`** (`strategies.dfy`) holds the computer player:
  - Greedy and Evil are the source's nested row/column loops. Each is
    proved to return the move the choice predicate `IsBestMove` fixes: a
    valid move that no valid move beats, and that is strictly better than
    every valid move before it. `BestMoveUnique` shows that this pins the
    move down.
  - Random is the source's collecting loop, followed by a draw from the
    collected list.
  - None of the strategies has a `modifies` clause, so none changes the
    board.
- **`Scenarios`** (`scenarios.dfy`) plays the games of the repository's
  tests on the 3 x 3 board, with the outcome each test expects stated and
  proved. `PlayOut` plays a whole game between two computer players.

The Java code and its Javadoc disagree in one place. The constructor's
Javadoc says it throws for sizes below 1, but the code refuses sizes of 1
or less. The model follows the code.

Exceptions become `Failure` values of a `Result` type:
- `IllegalArgumentException` for a null player becomes `NullPlayer`.
- `IllegalStateException` for a repeated player becomes `SamePlayerTwice`.
- The constructor's size check becomes `InvalidSize` from `NewBoard`.
- The two `getNextMove` checks become `NoMovesRemain` and `AlreadyWon`.

A Java `null` player is `Option.None`.

## Model

| member | source | states |
|---|---|---|
| BoardMath.Cell.SetPlayerId | src/main/java/com/homework/Board.java:319-327 | the cell is claimed exactly when it was free and a player is given; then it holds that player's mark, otherwise it is unchanged |
| BoardMath.PositionRoundTrip | src/main/java/com/homework/Board.java:143-145 | for every cell (row, col) of the board, `getMovePosition` lies in 1..N*N and the row/column decomposition of it gives back (row, col) |
| BoardMath.CoordinatesRoundTrip | src/main/java/com/homework/Board.java:129-134 | every position in 1..N*N decomposes into a cell on the board, and `getMovePosition` of that cell gives back the position |
| BoardMath.OutOfBoundsIffNoPosition | src/main/java/com/homework/Board.java:252-254 | a cell is out of bounds exactly when no position in 1..N*N decomposes into it |
| BoardMath.PositionInjective | src/main/java/com/homework/Board.java:143-145 | distinct cells have distinct positions |
| BoardMath.LineSumBounds | src/main/java/com/homework/Board.java:23-33 | a line total never exceeds the number of cells on the line in magnitude |
| BoardMath.LineSumOwned | src/main/java/com/homework/Board.java:242-249 | a line total is +len exactly when X holds every cell of the line, and -len exactly when O does |
| BoardMath.LineCompleteIffOwned | src/main/java/com/homework/Board.java:242-249 | a line total has magnitude len exactly when one player holds the whole line |
| BoardMath.CompleteIffOwned | src/main/java/com/homework/Board.java:236-250 | some row, column or diagonal total has magnitude N exactly when one player holds that whole line |
| BoardMath.InBoundsIffOnGrid | src/main/java/com/homework/Board.java:252-254 | on an N-by-N grid the bounds test fails exactly for the cells the grid has |
| BoardMath.LineSumUpdate | src/main/java/com/homework/Board.java:201-220 | replacing a cell changes the total of a line through it by the change of the cell's value, and leaves every other line's total alone |
| BoardMath.LineMembers | src/main/java/com/homework/Board.java:222-228 | cell (row, col) lies on row r iff row == r, on column c iff col == c, on the falling diagonal iff row == col, and on the rising one iff row + col == N - 1 |
| BoardMath.ClaimUpdatesLines | src/main/java/com/homework/Board.java:201-220 | claiming a free cell adds the player's value to that cell's row and column totals and to each diagonal through it, and to no other total |
| BoardMath.WinAfterClaim | src/main/java/com/homework/Board.java:186-189 | on a board with no complete line, a claim completes some line exactly when the moved row, the moved column or a diagonal reaches +-N; these four totals are all the win test needs |
| BoardMath.CountClaim | src/main/java/com/homework/Board.java:177-179 | claiming a free cell raises the number of claimed cells by one and the sum of all marks by the player's value |
| BoardMath.CountTakenFree | src/main/java/com/homework/Board.java:95-102 | the count of claimed cells is at most N*N, is below N*N exactly while some cell is free, and is 0 exactly when every cell is free |
| BoardMath.EmptyScores | src/main/java/com/homework/Board.java:53-69 | the empty board with all totals 0, counter 0, no last mover and the flag down satisfies the scoring invariant |
| BoardMath.ClaimKeepsScores | src/main/java/com/homework/Board.java:173-192 | the update `move` performs on a free cell, by the player who did not move last, keeps the scoring invariant |
| BoardMath.ClaimDeterminesScores | src/main/java/com/homework/Board.java:201-220 | if the scoring invariant holds before and after a claim, then the new totals, counter and flag are exactly the ones `updateScore` and `moveWinsGame` compute |
| BoardMath.MarksSplit | src/main/java/com/homework/Board.java:23-33 | the claimed cells are X's marks plus O's marks, and the sum of all marks is X's count minus O's count |
| BoardMath.OwnedLineMarks | src/main/java/com/homework/Board.java:236-250 | a player who holds a whole row, column or diagonal has at least N marks on the board |
| BoardMath.CompleteLineNeedsClaims | src/main/java/com/homework/Board.java:236-250 | when turns alternate, a board with a complete line has at least 2N - 1 claimed cells |
| TicTacToe.Board.constructor | src/main/java/com/homework/Board.java:53-69 | the new board is valid and fresh: every cell free, every total 0, counter 0, no last mover, not won |
| TicTacToe.Board.EmptyBoardValid | src/main/java/com/homework/Board.java:61-68 | the filled arrays of a new board satisfy the representation invariant |
| TicTacToe.NewBoard | src/main/java/com/homework/Board.java:53-55 | construction fails, with `InvalidSize`, exactly when the size is 1 or less; otherwise it yields a valid, fresh board of that size |
| TicTacToe.NewDefaultBoard | src/main/java/com/homework/Board.java:71-73 | the no-argument constructor builds a valid, fresh 3 x 3 board |
| TicTacToe.Board.GetCell | src/main/java/com/homework/Board.java:129-134 | for a position in 1..N*N, the cell returned is the one at ((p-1)/N, (p-1)%N), and that cell lies on the board |
| TicTacToe.Board.IsValidMove | src/main/java/com/homework/Board.java:118-121 | a move is valid exactly when 1 <= p <= N*N and the cell at p is free; every position out of range is invalid |
| TicTacToe.ValidMoveIffFreeCell | src/main/java/com/homework/Board.java:118-121 | a position is a valid move exactly when it is the `getMovePosition` of some free cell of the board |
| TicTacToe.MoveWinsGameSound | src/main/java/com/homework/Board.java:236-250 | on a valid board the win test at an on-board cell holds exactly when that row, that column or either diagonal (tested even when the cell is on neither) has a total of magnitude N, and then some line is complete; `BoardMath.WinAfterClaim` gives the converse for the cell just claimed |
| TicTacToe.Board.ValidMovesRemain | src/main/java/com/homework/Board.java:100-102 | the counter test `moveCounter < N*N` holds exactly when some position is still a valid move |
| TicTacToe.Board.FreeCellsAreValidMoves | src/main/java/com/homework/Board.java:118-121 | some cell is free exactly when some position is a valid move |
| TicTacToe.Board.IsBoardWon | src/main/java/com/homework/Board.java:107-109 | the won flag holds exactly when one player holds a whole row, column or diagonal; so a full board with no complete line is not won |
| TicTacToe.Board.UpdateScore | src/main/java/com/homework/Board.java:201-220 | the row and column totals of (row, col) gain the player's value, each diagonal through the cell gains it too, and every other total stays the same |
| TicTacToe.Board.SetPlayerIdAt | src/main/java/com/homework/Board.java:174 | through the cell at the position, the cell is claimed exactly when it was free; nothing else in the grid changes |
| TicTacToe.Board.Claim | src/main/java/com/homework/Board.java:173-192 | a claim of a valid position on a board that is not won succeeds; it marks exactly that cell, raises the counter by one, records the mover and keeps the invariant |
| TicTacToe.Board.Move | src/main/java/com/homework/Board.java:157-193 | a null player fails with `NullPlayer`, and a repeated player fails with `SamePlayerTwice`, before any board check; on a won board or an invalid position the answer is `false` and nothing changes; otherwise exactly that cell is marked, the counter and last mover advance, the row, column and diagonal totals through the cell gain the player's value, the won flag says whether one of them reached +-N, and exactly that position stops being a valid move; the won flag never reverts; the invariant is kept |
| TicTacToe.TotalsBounded | src/main/java/com/homework/Board.java:23-33 | every row, column and diagonal total lies in -N..N |
| TicTacToe.CounterBounded | src/main/java/com/homework/Board.java:44-45 | the move counter lies in 0..N*N |
| TicTacToe.WinNeedsMoves | src/test/java/TestAIPlayer.java:49 | a won board has seen at least 2N - 1 moves, five on the 3 x 3 board |
| Strategies.GreedyScoreAt | src/main/java/com/homework/impl/AIPlayer.java:84-86 | the Greedy score of a cell is the column total plus the row total, plus each diagonal total the cell lies on |
| Strategies.EvilScoreAt | src/main/java/com/homework/impl/AIPlayer.java:119-121 | the Evil score of a cell is the larger of the column and row totals, raised to each diagonal total the cell lies on |
| Strategies.ScoreBounds | src/main/java/com/homework/impl/AIPlayer.java:74-75 | every score lies within -4N..4N, strictly between the sentinels `Integer.MIN_VALUE` and `Integer.MAX_VALUE` the scans start from |
| Strategies.GreedyScoreCountsMarks | src/main/java/com/homework/impl/AIPlayer.java:81-86 | the Greedy score equals the signed count of marks on the lines through the cell |
| Strategies.BestMoveUnique | src/main/java/com/homework/impl/AIPlayer.java:88-91 | at most one move is a valid move with the best score that is strictly better than every valid move before it |
| Strategies.EmptyBoardBestMove | src/main/java/com/homework/impl/AIPlayer.java:74-91 | on a board without marks every score is 0, and position 1 is the move both scans must choose |
| Strategies.ScanKeep | src/main/java/com/homework/impl/AIPlayer.java:80-92 | passing over a cell that is not a valid move, or that scores no better than the best so far, extends the scan's invariant by one position |
| Strategies.ScanTake | src/main/java/com/homework/impl/AIPlayer.java:88-91 | taking a valid cell with a strictly better score extends the scan's invariant by one position, with that cell as the best |
| Strategies.ScanComplete | src/main/java/com/homework/impl/AIPlayer.java:78-96 | after all N*N positions the scan holds the move the algorithm must choose, or position 1 when no move is valid |
| Strategies.GetGreedyMove | src/main/java/com/homework/impl/AIPlayer.java:72-97 | when some move is valid, the result is valid, no valid move has a lower score, and every valid move before it scores strictly higher (first lowest in row-major order); otherwise the result is 1 |
| Strategies.GetEvilMove | src/main/java/com/homework/impl/AIPlayer.java:107-132 | when some move is valid, the result is valid, no valid move has a higher score, and every valid move before it scores strictly lower (first highest in row-major order); otherwise the result is 1 |
| Strategies.ValidPositionsIncreasing | src/main/java/com/homework/impl/AIPlayer.java:53-57 | the collected list holds positions in 1..k only, and they are strictly increasing |
| Strategies.ValidPositionsMembers | src/main/java/com/homework/impl/AIPlayer.java:53-57 | a position is in the collected list exactly when it is in 1..k and is a valid move |
| Strategies.GetRandomMove | src/main/java/com/homework/impl/AIPlayer.java:48-62 | the result is absent exactly when no move is valid; otherwise it is a valid move, the entry of the increasing list of valid positions at the drawn index |
| Strategies.EveryValidMoveDrawable | src/main/java/com/homework/impl/AIPlayer.java:59-61 | every valid move is selected by some draw |
| Strategies.GetNextMove | src/main/java/com/homework/impl/AIPlayer.java:25-41 | with no move remaining it fails with `NoMovesRemain`; on a won board it fails with `AlreadyWon`; otherwise it yields a valid move, and for Greedy and Evil the move that algorithm must choose |
| Scenarios.Turn | src/test/java/BoardTest.java:31 | a move by the player not on turn, at a valid position of a board that is not won, is accepted with the effect `Move` states |
| Scenarios.WonBoardOpening | src/test/java/TestAIPlayer.java:116-120 | after X 1, O 4, X 2 the totals are rows (2,-1,0), columns (0,1,0), diagonals (1,0); 3 and 5 are free |
| Scenarios.WonBoardScenario | src/test/java/TestAIPlayer.java:79-128 | after O 5 the board is not won; X 3 wins it while moves remain; every algorithm then fails with `AlreadyWon` |
| Scenarios.DrawOpening | src/test/java/BoardTest.java:183-185 | after X 1, O 3, X 2 the totals match and 4..9 are free |
| Scenarios.DrawMiddle | src/test/java/BoardTest.java:186-188 | after O 4, X 6, O 5 the totals match and 7..9 are free |
| Scenarios.DrawEnding | src/test/java/BoardTest.java:189-192 | moves remain before X's last move 8, and afterwards the board is full with no line complete |
| Scenarios.DrawScenario | src/test/java/BoardTest.java:173-195 | the full board is not won and has no valid move; every algorithm then fails with `NoMovesRemain`, as the full-board tests of the computer player expect |
| Scenarios.SimpleMovesOpening | src/test/java/BoardTest.java:25-34 | moves 1 to 3 alternate X and O and leave the totals stated |
| Scenarios.SimpleMovesMiddle | src/test/java/BoardTest.java:25-34 | moves 4 to 6 leave the board open and not won |
| Scenarios.SimpleMovesScenario | src/test/java/BoardTest.java:36-49 | before move 7 nothing is won; X's 7 takes cell 7, which stops being valid, and wins with moves remaining; O's 8 is then refused with `false` and leaves cell 8 free |
| Scenarios.TurnOrderScenario | src/test/java/BoardTest.java:52-74 | a null player fails; the same player twice fails; a repeated position is refused with `false` and keeps X's mark |
| Scenarios.FreshBoardValidMoves | src/test/java/BoardTest.java:76-81 | on a fresh 3 x 3 board, p is a valid move exactly when 1 <= p <= 9 |
| Scenarios.SingleMoveScenario | src/test/java/BoardTest.java:84-105 | one X at (row, col) makes its row and column totals 1, and each diagonal total 1 exactly when the cell is on that diagonal |
| Scenarios.FreshBoardComputerMove | src/test/java/TestAIPlayer.java:10-19 | on a fresh board every algorithm yields a position in 1..9, and Greedy and Evil yield 1 |
| Scenarios.PlayTurn | src/test/java/TestAIPlayer.java:38-46 | the valid move is accepted; the opponent's next choice is valid unless the board is now won or full |
| Scenarios.PlayOut | src/test/java/TestAIPlayer.java:25-52 | two computer players alternating on a fresh board have every chosen move accepted, make at least five moves, and stop with the board won or full |

## Left out

- Console output is not modelled: `Board.showBoard`, `Cell.getSymbol` and `PlayerId.getSymbol` only print or build display strings.
- `Main`, `HumanPlayer` and `Player` are not part of this model. They are the turn loop, console input and a name/id holder. `Scenarios.PlayOut` plays the turn loop between two computer players only.
- The accessors `getRowTotals`, `getColTotals`, `getTopToBottomDiagTotal`, `getBottomToTopDiagTotal` and `getBoardSize` are not modelled. The model reads the fields directly.
- Java `int` arithmetic is not modelled. Every board has a side length of at most 46340 (`MaxSize`), so N*N fits in 32 bits. Under that bound no total, counter or score can overflow (`TotalsBounded`, `CounterBounded`, `ScoreBounds`), so no wrap-around happens.
- Cells are values (`Free` or `Taken(player)`), not objects. `Cell.setPlayerId` returns the new cell, and `SetPlayerIdAt` stores it back into the array. Nothing else holds a reference to a cell, so aliasing does not arise.
- TicTacToe.Board.UpdateScore and TicTacToe.Board.MoveWinsGame require the cell to be on the board. They do not model the `IllegalArgumentException` for an out-of-bounds cell, because their only caller, `move`, never passes one.
- TicTacToe.Board.UpdateScore does not model the null-player exception: its player parameter cannot be null.
- TicTacToe.Board.GetCell requires a position in 1..N*N. Java's `getCell` would throw for other positions, but `isValidMove` checks the range before it calls `getCell`.
- Strategies.GetRandomMove: the time-seeded `java.util.Random` becomes the parameter `draw`, and `nextInt(size)` becomes `draw % size`. This models an arbitrary choice among the valid positions, not a uniform distribution. `EveryValidMoveDrawable` states that every valid position can be chosen.
- Strategies.GetRandomMove: `nextInt(0)` throws on an empty list. Here that case gives `None`, and `GetNextMove` maps it to `NoMovesRemain`. Since `getNextMove` checks `validMovesRemain` before it draws, that case cannot occur there.
- The Greedy and Evil heuristics ignore the player's own id, as the Java code does. Both assume the computer holds the -1 mark. The model reproduces this and proves the choice rule for the totals as they are, whoever plays.
- These test loops are not modelled: `testScoreUpdateOnMove_RowSum`, `testScoreUpdateOnMove_ColSum` and the two diagonal-sum tests of `BoardTest`. `TicTacToe.Board.Move` covers their per-move effect for every board.
- The 100 and 500 repetitions of the random tests are not modelled. `Scenarios.FreshBoardComputerMove` and `Scenarios.PlayOut` hold for every draw.
