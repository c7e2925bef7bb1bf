# Reversi engine model

A Dafny model of `ReversiBoard`, the board and computer player of a Java
Reversi (Othello) game. It covers laying out the start position, making a move
(legality and captures), generating moves, the end-of-game test, piece counts,
the corner-weighted heuristic, and the alpha-beta minimax search with its
stored best move.

The model follows the Java class's own form:

- `Reversi.ReversiBoard` is a class with the Java fields:
  - `gameSize`;
  - `playerTurn`;
  - `board`, an `array2<Cell>` indexed `[x, y]` as the Java `char[][]`;
  - `bestMove`.
- Its methods mutate the array in place, with the loops the Java has.
- Each method is proved against a function on board values: `Grid()` is the array read as a `seq<seq<Cell>>`.

The value-level specification sits in modules that follow the parts of the class:

- `Cells`: squares, players and piece counts.
- `Layout`: the start position of `initBoard`.
- `Capture`: the capture rules of `movePiece`, given twice:
  - `Apply`, the squares that change, all at once;
  - `Swept`, the Java loop order, one ray after another, flipping nearest first.

  `SweptIsApply` proves the two agree.
- `Enumeration`: the legal squares in the x-outer, y-inner order of `findValidMoves` and `storeValidMoves`, and the boards they produce.
- `Evaluation`: `getValue`, `valueDiffBlack`/`valueDiffWhite` and `reversiHeuristic`.
- `Pruning`: the maximizing loop of `minimax` on a list of child values.
- `Search`: the value `minimax` returns, as the code computes it.

The search is modelled as written, not as textbook minimax:

- The cutoff scores `node.playerTurn`.
- Moves are generated for `playerTurn` at a maximizing node and for the other colour at a minimizing node.
- A node without moves returns the raw piece count of `playerTurn`, negated when minimizing.
- Only the maximizing branch prunes.
- The minimizing branch searches every child and then returns 0 (ReversiBoard.java:292).

So `Search.MinValue` does not depend on alpha or beta.

The model follows the code as written, also where it departs from what its own comments describe:

- The Javadoc of `reversiHeuristic` says it "weighs corners highly" (ReversiBoard.java:326-330). The corner bonus in fact applies only when the player it favours holds at least one corner itself (ReversiBoard.java:342-343). A corner held only by the opponent does not trigger it.
- The Javadoc of `minimax` says it returns the value of the board (ReversiBoard.java:204). The minimizing branch returns 0 rather than its minimum (ReversiBoard.java:292).

## Model

| member | source | states |
|---|---|---|
| Layout.InitialCells | ReversiBoard.java:39-55 | with m = n/2 the start has 'x' on (m-1, m) and (m, m-1), 'o' on (m-1, m-1) and (m, m), and every other square blank |
| Layout.InitialCounts | ReversiBoard.java:39-55 | the start holds two pieces of each player and n*n - 4 blanks |
| Reversi.ReversiBoard.InitBoard | ReversiBoard.java:39-55 | after the blanking loops and the four writes, the array holds exactly the start position |
| Reversi.ReversiBoard.constructor | ReversiBoard.java:20-27 | a new game: a fresh n-by-n array holding the start position, Black to move, no best move |
| Reversi.ReversiBoard.FromState | ReversiBoard.java:29-33 | the object shares the given array and records the given player to move |
| Reversi.ReversiBoard.CopyGameState | ReversiBoard.java:178-188 | a fresh size-by-size array equal square by square to its input |
| Reversi.ReversiBoard.GetValue | ReversiBoard.java:403-413 | the number of squares holding the player's piece |
| Evaluation.CountRange | ReversiBoard.java:403-413 | a count lies in 0..n*n, and the blanks, 'x' and 'o' counts add up to n*n |
| Reversi.ReversiBoard.ValueDiffBlack | ReversiBoard.java:386-388 | Black's pieces minus White's |
| Reversi.ReversiBoard.ValueDiffWhite | ReversiBoard.java:391-393 | White's pieces minus Black's |
| Evaluation.DiffAntisymmetric | ReversiBoard.java:386-393 | valueDiffWhite is the negation of valueDiffBlack |
| Evaluation.DiffBound | ReversiBoard.java:386-393 | the piece difference lies within n*n of zero |
| Reversi.ReversiBoard.ReversiHeuristic | ReversiBoard.java:332-383 | the four corner tests and the tally give Heuristic: the piece difference, plus tally times n only when the player holds a corner |
| Evaluation.CornerTallyFacts | ReversiBoard.java:341-367 | the corner tally lies in -4..4 and changes sign with the player |
| Evaluation.HeuristicBound | ReversiBoard.java:332-383 | the heuristic lies within n*n + 4n of zero |
| Evaluation.HeuristicSum | ReversiBoard.java:332-383 | the two players' heuristics cancel unless exactly one of them holds a corner, when they sum to that one's tally times n |
| Capture.RunSpec | ReversiBoard.java:84-100 | the scanned opponent run holds the opponent on every step and stops at the first square that is off the board or not the opponent's |
| Capture.ScanOutcome | ReversiBoard.java:84-100 | a walk stopping at step k captures exactly when step k holds the mover's piece after at least one opponent piece, and then it flips k - 1 |
| Reversi.ReversiBoard.ScanRay | ReversiBoard.java:79-100 | the while loop reports a capture exactly when the ray flips something, and then directionCount is one past the run |
| Reversi.ReversiBoard.FlipRun | ReversiBoard.java:103-105 | the flip loop writes steps 1..directionCount-1 of the ray, nearest first |
| Reversi.ReversiBoard.FlipDirection | ReversiBoard.java:79-108 | one pass of the direction loops: the board becomes FlipRay of the old board, and the pass reports whether the ray captured |
| Capture.FlipsExactly | ReversiBoard.java:84-108 | a ray flips m >= 1 pieces iff steps 1..m hold the opponent and step m+1 the mover |
| Capture.FlippedWasOpponent | ReversiBoard.java:96-104 | every flipped square held an opponent piece |
| Capture.FlipsReadsRay | ReversiBoard.java:84-100 | a ray's scan reads only the squares of that ray |
| Capture.FlipRayCells | ReversiBoard.java:102-107 | one pass changes only its ray's captured run and the target |
| Capture.SweptCell | ReversiBoard.java:77-111 | after the loops reach direction (i, j), a non-target square is the mover's iff an earlier direction flipped it, else unchanged |
| Capture.SweptTarget | ReversiBoard.java:102-107 | the target becomes the mover's as soon as some earlier direction captured, and stays blank otherwise |
| Reversi.ReversiBoard.SweepAll | ReversiBoard.java:75-111 | the nine passes leave the board as Swept and validPlay says whether any ray captured |
| Capture.SweptIsApply | ReversiBoard.java:77-111 | flipping ray by ray in loop order gives the same board as flipping every captured square at once |
| Capture.SweptWithoutCapture | ReversiBoard.java:75-118 | when no ray captures, the loops leave the board unchanged |
| Capture.SweepOutcome | ReversiBoard.java:75-118 | on a blank square the loops produce the move when it is legal and the unchanged board otherwise |
| Capture.MoveCounts | ReversiBoard.java:102-107 | a legal move removes one blank, adds 1 + flips to the mover's count and takes the flips from the opponent's |
| Reversi.ReversiBoard.MovePiece | ReversiBoard.java:58-119 | returns true exactly for a legal move; then the board is Apply and the turn passes to the opponent; otherwise (off the board, occupied, no capture) board and turn are unchanged |
| Reversi.ReversiBoard.SafeMove | ReversiBoard.java:121-139 | as movePiece; on failure the board is the fresh copy taken before, holding the same squares |
| Reversi.ReversiBoard.Put | ReversiBoard.java:104-106 | one array write: the board becomes the old board with that one square set and every other square unchanged |
| Reversi.ReversiBoard.CopyWithTurn | ReversiBoard.java:143-149 | `new ReversiBoard(gameSize, copyGameState(gameSize, board), c)`: a fresh object with a fresh array holding the same squares, c to move and no best move |
| Reversi.ReversiBoard.ChildAt | ReversiBoard.java:143-149 | movePiece on a fresh copy succeeds exactly on a legal square, and the copy then holds that child |
| Reversi.ReversiBoard.FindValidMoves | ReversiBoard.java:141-155 | changes nothing; returns one fresh board per legal square, in x-outer, y-inner order, the k-th holding the k-th legal move with the opponent to move |
| Enumeration.LegalMoves | ReversiBoard.java:141-155 | one board per legal square, each with the opponent to move and one blank square fewer |
| Enumeration.LegalMovesAt | ReversiBoard.java:141-155 | the k-th board is the move at the k-th listed square |
| Enumeration.ChildrenCounts | ReversiBoard.java:147-148 | each child of a legal square has exactly one blank fewer than its parent |
| Reversi.ReversiBoard.StoreValidMoves | ReversiBoard.java:157-175 | changes nothing; returns the legal squares as (i, j) pairs, in visiting order |
| Enumeration.Targets | ReversiBoard.java:157-175 | every listed square is on the board and legal, in strictly increasing visiting order |
| Enumeration.UptoComplete | ReversiBoard.java:145-152 | the loops have kept exactly the legal squares they have visited so far |
| Enumeration.UptoOrdered | ReversiBoard.java:145-152 | the squares kept so far are in strictly increasing visiting order |
| Enumeration.TargetsComplete | ReversiBoard.java:157-175 | a square is listed exactly when moving there is legal |
| Enumeration.TargetsEmptyAndDistinct | ReversiBoard.java:157-175 | no listed square is occupied and none is listed twice |
| Enumeration.NoMovesIff | ReversiBoard.java:141-155 | no board is returned exactly when no square is legal for that player |
| Reversi.ReversiBoard.IsGameOver | ReversiBoard.java:316-323 | true exactly when both players' move lists are empty |
| Enumeration.GameOverIff | ReversiBoard.java:316-323 | the game is over exactly when no square is legal for either player |
| Enumeration.FullBoardIsOver | ReversiBoard.java:316-323 | a board with no blank square is a finished game |
| Pruning.RunMaxIsMax | ReversiBoard.java:264-267 | the running maximum bounds the values seen so far and is the start value or one of them |
| Pruning.BestStep | ReversiBoard.java:264-268 | one turn of the loop keeps alpha the running maximum and bestMoveLocation its earliest holder |
| Pruning.ScanFromSpec | ReversiBoard.java:262-272 | from any child on, the loop ends with the maximum of the values evaluated and the earliest index that raised alpha |
| Pruning.ScanSpec | ReversiBoard.java:258-272 | the loop returns the largest of the children evaluated before beta <= alpha; bestMoveLocation is 0 when none beats alpha, else the earliest child with that value |
| Pruning.OpenWindowEvaluatesAll | ReversiBoard.java:262-272 | under the window (MIN_VALUE, MAX_VALUE), with all values below MAX_VALUE, no child is pruned |
| Pruning.OpenWindowScan | ReversiBoard.java:258-272 | under the root window the loop returns the largest child value and bestMoveLocation is its earliest holder |
| Search.MinValueBound | ReversiBoard.java:206-253 | a minimizing node's value lies within n*n + 4n of zero |
| Search.MaxValueSpec | ReversiBoard.java:257-279 | below the cutoff, a maximizing node that has children returns the largest value among the children it evaluates, and the stored index follows ScanSpec |
| Search.RootValue | Player.java:40 | the root call prunes nothing: it returns the largest child value and bestMove is the earliest child holding it |
| Reversi.ReversiBoard.Minimax | ReversiBoard.java:206-293 | returns Value; a maximizing call at level 0 below the cutoff with children stores a fresh copy of the child at BestChild in bestMove; every other call leaves bestMove alone |
| Reversi.ReversiBoard.MaxChildren | ReversiBoard.java:257-272 | the loop's max and bestMoveLocation are Scan of the child values, and the index is a valid child |
| Reversi.ReversiBoard.MinChildren | ReversiBoard.java:282-291 | searches every child, lowering beta, and leaves bestMove alone |
| Reversi.ReversiBoard.CpuMinimax | ReversiBoard.java:298-306 | the board becomes bestMove's array, and the turn flips from the board's own previous turn, whatever bestMove's turn is |

## Left out

- Printing is left out, being console output only: `printBoard` (including its call in `safeMove`), `printHorizontalBorder`, `printBoardState`, `printLine` and `toString` (ReversiBoard.java:415-515). Reversi.java (menu, Scanner input, game loop) and Player.java (random moves, wrappers and printing) are not part of this model: they are I/O and callers.
- Getters and setters, the `TwoPlayerPlayable` interface and the `COLOR` enum are not modelled. Players are the datatype `Color`.
- Squares are the datatype `Cell` = Empty | X | O. Java chars other than ' ', 'x' and 'o' never occur in the model, and a board holding one would make the Java scan loop run on without advancing. Players are the two chars 'x' and 'o' that `COLOR.getPiece` returns. The Java's tests on 'x' (ReversiBoard.java:60-65, 216-253, 334-339, 368-381) send any other char to White's branch, but `movePiece` writes the given char itself (lines 104 and 106) and `getValue` counts the given char (line 407); other player chars are not modelled.
- Java `int` overflow is not modelled. Counts, `val * gameSize`, `level + 1` and the search values are unbounded integers. `Integer.MIN_VALUE` and `Integer.MAX_VALUE` appear only as the constants `MinInt` and `MaxInt`.
- `maxLevel` is a static field in the Java, set to 5 by the one-argument constructor. Here it is a parameter of `Minimax`, and the constructor's value 5 is not stored. Recursion is measured by `maxLevel - level`. The game's setting `Integer.MAX_VALUE` (Reversi.java:66) is only reachable as a large parameter.
- Reversi.ReversiBoard.Minimax: requires `level >= 0` and a board of size at least 1, which every call from the game and from the recursion meets. When it stores `bestMove`, it states the stored board's squares but not that it is the very object in the returned list.
- Reversi.ReversiBoard.MinChildren: does not state the running minimum, which the Java computes and then discards (`return 0`).
- Reversi.ReversiBoard.constructor: requires `gameSize >= 2`, since `initBoard` writes the four centre squares. The Java does not check the size.
- Reversi.ReversiBoard.FromState: in the Java, `bestMove` is left at its default, which is also null.
- Reversi.ReversiBoard.CopyGameState: requires the input to be size-by-size, which every caller passes. The Java would fail on a larger board and leave '\u0000' squares on a smaller one.
- Reversi.ReversiBoard.FindValidMoves: in the Java, a failed movePiece leaves `nextMoveBoard` as it was, so one copy is reused until a move succeeds. The model takes a fresh copy for every square (`ChildAt`). The two are equivalent because a failed move changes neither the board nor the turn (`MovePiece`). Whether the returned boards are distinct objects is not stated.
- Reversi.ReversiBoard.StoreValidMoves: each `List<Integer>` of two elements [i, j] is modelled as the pair (i, j).
- Reversi.ReversiBoard.CpuMinimax: requires a stored best move; the Java throws NullPointerException when no search has stored one (either constructor leaves `bestMove` null, and a root search without moves stores nothing). It shares `bestMove`'s array rather than copying it, as the Java does. Later writes through either object are not traced.
- Helper methods split the Java's inline code: `ScanRay`, `FlipRun`, `FlipDirection` and `SweepAll` inside `movePiece`; `CopyWithTurn` and `ChildAt` inside the enumeration loops; `MaxChildren` and `MinChildren` holding the two loops of `minimax`; and `Put` for a single array write.
