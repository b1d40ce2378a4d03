# Fifteenth: the 15-puzzle engine in Dafny

This project models the engine of "Fifteenth", a sliding-tile puzzle game
written in Java. Three parts are modelled:

- **Board.** An N x N board holds the tiles `0 .. N*N-2` and one blank, `-1`.
  - `new Board(N)` builds the goal layout.
  - The board slides a tile into the blank (`move`), probes and undoes moves
    (`moveTo`), and yields its four neighbours.
  - It computes the `hamming` and `manhattan` scores, the `isGoal` test, the
    `isValid` checksum, `equals` and `hashCode`.
  - It runs the `solvable` parity test: on a copy, the blank slides to the
    bottom-right cell, then one selection-sort pass counts its exchanges.
- **MinQueue.** A 1-indexed binary min-heap in a growable array.
- **Solver.** A greedy best-first search. It does the following:
  - expands the current board's neighbours into the queue;
  - prunes a board whose cells repeat one of its nearest ancestors;
  - pops the smallest board whose cells differ from the current one;
  - once at the goal, walks the `previous` links back to build the solution.

## Layout

- `optional.dfy` (module `Optional`): the `Option` type. It stands for
  `null` and for the `NoSuchElementException` paths.
- `grid.dfy` (module `Grids`):
  - the cells of a board as a row-major `seq<int>`;
  - the goal layout, the checksum and the first-occurrence scan;
  - `MoveGrid`, the value-level `move`, with its single-tile, undo and
    symmetry lemmas;
  - `ProbeFrom`, the value-level `moveTo`;
  - `Hash`, `hashCode` in 32-bit wrapping arithmetic.
- `heuristics.dfy` (module `Heuristics`): the `hamming` and `manhattan`
  scores as functions, with Java's truncating `/` and `%` written out.
- `parity.dfy` (module `Parity`): `solvable` as the function `Solvability`,
  and the lemmas about its two phases.
- `boards.dfy` (module `Boards`): class `Board`.
  - The grid is a flat `array<int>` of length N*N; cell (x, y) sits at
    `y * N + x`.
  - Each method is proved against the functions of `Grids`, `Heuristics`
    and `Parity`.
- `minqueue.dfy` (module `MinQueues`): class `MinQueue` over a key function,
  with `swim`, `sink`, `swap` and `less` on the heap array.
  - The heap order and the multiset of the live slots are proved, and so are
    the capacity rules.
  - `DrainInKeyOrder` shows that adding items and then removing them all
    yields non-decreasing keys.
- `solver.dfy` (module `Solvers`): the `Solver` constructor as the method
  `Solve`.
  - The search tree is an arena: a sequence of nodes. Each node holds its
    cells, its depth (`searchNodeNum`) and the arena index of its `previous`
    board.
  - The queue is a `MinQueue<Node>` keyed by the manhattan score.

## Model

| member | source | states |
|---|---|---|
| `Grids.Opposite` | core/src/ua/leskivproduction/fifteenth/model/Board.java:33-45 | The opposite direction is never the direction itself. |
| `Grids.OppositeIsInvolution` | core/src/ua/leskivproduction/fifteenth/model/Board.java:33-45 | `opposite` is an involution, and it maps Up to Down and Left to Right. |
| `Grids.CellIndex` | core/src/ua/leskivproduction/fifteenth/model/Board.java:405-408 | The flat index of cell (x, y) lies inside the N*N cells. Dividing it by N gives back the row y, and the remainder gives back the column x, as cellIterator reads them. |
| `Grids.CellOf` | core/src/ua/leskivproduction/fifteenth/model/Board.java:133-135 | A flat index below N*N splits into an on-grid column `k % N` and row `k / N` that rebuild it. These are the cell counts `solvable` derives. |
| `Grids.GoalPrefixSum` | core/src/ua/leskivproduction/fifteenth/model/Board.java:119-125 | The first m goal cells add up to m(m-1)/2, the sum behind the checksum. |
| `Grids.Goal` | core/src/ua/leskivproduction/fifteenth/model/Board.java:48-62 | The cells of `new Board(N)`: N*N cells, cell k holding k, except the last cell, which holds the blank -1. The lemmas `GoalIsGoal`, `GoalIsValid` and `GoalIsUnique` state what this layout satisfies. |
| `Grids.IsGoal` | core/src/ua/leskivproduction/fifteenth/model/Board.java:108-117 | `isGoal`: each of the first N*N-1 cells, in row-major order, holds its own index. The last cell is never read. |
| `Grids.Sum` | core/src/ua/leskivproduction/fifteenth/model/Board.java:119-123 | The sum of the cells that `isValid` accumulates over `cellIterator`. |
| `Grids.Checksum` | core/src/ua/leskivproduction/fifteenth/model/Board.java:124 | The expected sum `(N*N-2)(N*N-1)/2 - 1`: the labels 0 .. N*N-2 plus the blank's -1. |
| `Grids.IsValid` | core/src/ua/leskivproduction/fifteenth/model/Board.java:119-125 | `isValid`: the cells add up to the checksum. |
| `Grids.GoalIsGoal` | core/src/ua/leskivproduction/fifteenth/model/Board.java:48-62 | The layout built by `new Board(N)` passes `isGoal`. |
| `Grids.GoalIsUnique` | core/src/ua/leskivproduction/fifteenth/model/Board.java:108-117 | `isGoal` skips the last cell. Still, a board that passes it and holds the goal's values is the goal layout. |
| `Grids.GoalIsValid` | core/src/ua/leskivproduction/fifteenth/model/Board.java:119-125 | The goal layout of every dimension meets the `isValid` checksum `(N*N-2)(N*N-1)/2 - 1`. |
| `Grids.IndexOf` | core/src/ua/leskivproduction/fifteenth/model/Board.java:189-197 | The scan's position is at most N*N. Below N*N, the cell there holds the value sought. |
| `Grids.IndexOfIsFirst` | core/src/ua/leskivproduction/fifteenth/model/Board.java:189-197 | No cell before the scan's position holds the value: it is the first occurrence in row-major order. |
| `Grids.IndexOfFirstHit` | core/src/ua/leskivproduction/fifteenth/model/Board.java:189-197 | A cell that holds the value, with no earlier cell holding it, is the position the scan returns. |
| `Grids.IndexOfFinds` | core/src/ua/leskivproduction/fifteenth/model/Board.java:189-197 | A value the board holds is always found. |
| `Grids.IndexOfOnly` | core/src/ua/leskivproduction/fifteenth/model/Board.java:189-197 | When exactly one cell holds the value, the scan returns that cell. |
| `Grids.MoveGrid` | core/src/ua/leskivproduction/fifteenth/model/Board.java:265-308 | `move(dir)` on the cells. It finds the first blank in row-major order and takes the tile from the neighbouring cell on the side opposite `dir`. None stands for `false`: there is no blank, or that cell is off the grid. `MoveSlidesOneTile` and `MoveUndo` state its effect. |
| `Grids.Step` | core/src/ua/leskivproduction/fifteenth/model/Board.java:265-308 | The cells after one call of `move(dir)`: the slid cells, or the same cells when the move fails. |
| `Grids.Repeat` | core/src/ua/leskivproduction/fifteenth/model/Board.java:137-140 | The cells after `while (k-- > 0) move(dir)`: k calls of `move(dir)`, none when k <= 0. |
| `Grids.ProbeFrom` | core/src/ua/leskivproduction/fifteenth/model/Board.java:315-329 | `moveTo` from the i-th direction on, with its result and final cells. A direction whose move reaches the target is undone and redone, and the result is true. Otherwise the move is undone and the next direction is tried. After the fourth direction the result is false. |
| `Grids.MoveSlidesOneTile` | core/src/ua/leskivproduction/fifteenth/model/Board.java:265-308 | A successful move has these effects: the tile from the source cell goes into the first blank, and the source cell becomes blank. The two cells are neighbours on the grid. Every other cell, the multiset of values and the checksum are unchanged. |
| `Grids.MoveUndo` | core/src/ua/leskivproduction/fifteenth/model/Board.java:265-308 | On a board with one blank, a successful move followed by the move in the opposite direction restores the cells exactly. The board keeps one blank. |
| `Grids.AdjacentIsSymmetric` | core/src/ua/leskivproduction/fifteenth/model/Board.java:265-308 | With one blank, "one slide away" is symmetric. |
| `Grids.ProbeFromSingleBlank` | core/src/ua/leskivproduction/fifteenth/model/Board.java:315-329 | From direction i on, the probe reports true exactly when one of those directions slides the cells to the target. The cells end as the target on true and unchanged on false. |
| `Grids.MoveToIsCorrect` | core/src/ua/leskivproduction/fifteenth/model/Board.java:315-329 | On a single-blank board, `moveTo` returns true exactly when the target is one slide away, and then the cells equal the target. On false the cells are unchanged. |
| `Grids.MoveToTwoBlanksOvershoots` | core/src/ua/leskivproduction/fifteenth/model/Board.java:315-329 | On the 2 x 2 board `[-1, -1, 5, 7]` with target `[5, -1, -1, 7]`, `moveTo` returns true yet ends on `[5, 7, -1, -1]`, which is not the target. The undoing Down fails because the first blank is now in the top row, so the redone Up slides a second tile. |
| `Grids.HashFold` | core/src/ua/leskivproduction/fifteenth/model/Board.java:231-232 | The loop `hash = hash*31 + c` over the cells in row-major order, each step wrapped to a Java int. |
| `Grids.Hash` | core/src/ua/leskivproduction/fifteenth/model/Board.java:228-234 | `hashCode`: `Integer.hashCode(amountOfCells)`, which is the int itself, folded with the cells. |
| `Grids.Wrap32` | core/src/ua/leskivproduction/fifteenth/model/Board.java:228-234 | The wrapped value is a Java int congruent to the input modulo 2^32. |
| `Grids.HashIsInt32` | core/src/ua/leskivproduction/fifteenth/model/Board.java:228-234 | `hashCode` is always a Java int. |
| `Grids.HashFoldIsInt32` | core/src/ua/leskivproduction/fifteenth/model/Board.java:231-232 | The `hash = hash*31 + c` fold stays within Java's int range. |
| `Grids.SumUpdate` | core/src/ua/leskivproduction/fifteenth/model/Board.java:119-125 | Overwriting one cell changes the checksum sum by the new value minus the old one. |
| `Heuristics.MisplacedUpTo` | core/src/ua/leskivproduction/fifteenth/model/Board.java:81-87 | The number of misplaced cells among the first m. The goal value of cell k is k, and for the last cell it is the blank; the count is at most m. |
| `Heuristics.Misplaced` | core/src/ua/leskivproduction/fifteenth/model/Board.java:78-88 | The misplaced cells of the whole board. A blank that is not last counts, and so does a tile in the last cell. |
| `Heuristics.HammingScore` | core/src/ua/leskivproduction/fifteenth/model/Board.java:78-89 | `hamming` = the misplaced count plus `searchNodeNum`. |
| `Heuristics.JavaDiv` | core/src/ua/leskivproduction/fifteenth/model/Board.java:98 | Java's int `/` for a positive divisor, which truncates toward zero: |q| = |a| / b, and q has the sign of a. |
| `Heuristics.JavaRem` | core/src/ua/leskivproduction/fifteenth/model/Board.java:97 | Java's int `%` for a positive divisor: |r| < b, and r has the sign of the dividend. |
| `Heuristics.TileDistance` | core/src/ua/leskivproduction/fifteenth/model/Board.java:96-99 | The distance of the value in cell k from the cell its label names: `|v%N - column| + |v/N - row|`, using Java's `%` and `/`. The blank contributes 0. |
| `Heuristics.DistanceUpTo` | core/src/ua/leskivproduction/fifteenth/model/Board.java:94-102 | The tile distances summed over the first m cells. |
| `Heuristics.Distance` | core/src/ua/leskivproduction/fifteenth/model/Board.java:94-102 | The tile distances summed over every cell. |
| `Heuristics.Weight` | core/src/ua/leskivproduction/fifteenth/model/Board.java:103 | The multiplier of the distance: 1 below N=4, N from 4 on. |
| `Heuristics.ManhattanScore` | core/src/ua/leskivproduction/fifteenth/model/Board.java:92-105 | `manhattan` = weight times the summed distance plus `searchNodeNum`. |
| `Heuristics.MisplacedUpToZero` | core/src/ua/leskivproduction/fifteenth/model/Board.java:78-89 | The first m cells have no misplaced cell exactly when each of them holds its goal value. |
| `Heuristics.MisplacedZeroIffGoal` | core/src/ua/leskivproduction/fifteenth/model/Board.java:78-89 | `hamming` counts no misplaced cell exactly on the goal layout. |
| `Heuristics.TileDistanceZero` | core/src/ua/leskivproduction/fifteenth/model/Board.java:96-100 | A tile's Manhattan distance, in Java's `/` and `%`, is 0 exactly when the tile sits in the cell its label names. The blank contributes 0. |
| `Heuristics.DistanceUpToZero` | core/src/ua/leskivproduction/fifteenth/model/Board.java:94-102 | The distance over the first m cells is 0 exactly when each of those cells holds the blank or its own label. |
| `Heuristics.DistanceZeroIffTilesHome` | core/src/ua/leskivproduction/fifteenth/model/Board.java:92-105 | The summed distance is 0 exactly when every tile is home. |
| `Heuristics.GoalScores` | core/src/ua/leskivproduction/fifteenth/model/Board.java:78-105 | On the goal layout, `hamming` and `manhattan` both equal `searchNodeNum`. |
| `Parity.SlideBlankHome` | core/src/ua/leskivproduction/fifteenth/model/Board.java:130-145 | The first phase of `solvable`. When the first blank is at (x, y) and not already last, `N-1-x` Left moves are followed by `N-1-y` Up moves. A board with no blank or with the blank last is left as it is. |
| `Parity.SwapPass` | core/src/ua/leskivproduction/fifteenth/model/Board.java:147-171 | The second phase from cell k on, counting exchanges. When cell k holds neither k nor the blank, the first cell holding k, if any, is exchanged with it. |
| `Parity.Solvability` | core/src/ua/leskivproduction/fifteenth/model/Board.java:127-172 | `solvable()`: the exchange count of the second phase, run after the first phase, is even, and the result passes `isGoal`. |
| `Parity.StepMovesBlank` | core/src/ua/leskivproduction/fifteenth/model/Board.java:265-308 | A valid move takes the only blank to the move's source cell. The board keeps one blank and its values. |
| `Parity.StepKeeps` | core/src/ua/leskivproduction/fifteenth/model/Board.java:265-308 | A move, valid or not, keeps a single blank and the multiset of values. |
| `Parity.RepeatKeeps` | core/src/ua/leskivproduction/fifteenth/model/Board.java:137-140 | Any number of moves in one direction keeps a single blank and the multiset of values. |
| `Parity.WalkRight` | core/src/ua/leskivproduction/fifteenth/model/Board.java:137-138 | k Left moves take the blank k columns to the right, while it stays on the grid. |
| `Parity.WalkDown` | core/src/ua/leskivproduction/fifteenth/model/Board.java:139-140 | k Up moves take the blank k rows down, while it stays on the grid. |
| `Parity.WalkDownHome` | core/src/ua/leskivproduction/fifteenth/model/Board.java:139-140 | From the last column, `topCnt` Up moves take the blank to the last cell. |
| `Parity.WalkHome` | core/src/ua/leskivproduction/fifteenth/model/Board.java:133-140 | From (x, y), `leftCnt = N-1-x` Left moves and then `topCnt = N-1-y` Up moves put the blank in the last cell. |
| `Parity.SlideBlankHomeUnfold` | core/src/ua/leskivproduction/fifteenth/model/Board.java:130-145 | The first phase is `leftCnt` Left moves followed by `topCnt` Up moves. Both counts come from the first blank's cell. |
| `Parity.RepeatTwiceKeeps` | core/src/ua/leskivproduction/fifteenth/model/Board.java:137-140 | Left moves followed by Up moves keep a single blank and the multiset of values. |
| `Parity.SlideBlankHomeKeeps` | core/src/ua/leskivproduction/fifteenth/model/Board.java:130-145 | The first phase of `solvable` keeps a single blank and the multiset of values. |
| `Parity.SlideBlankHomeMovesBlank` | core/src/ua/leskivproduction/fifteenth/model/Board.java:130-145 | On a board with one blank, the first phase leaves the blank in the bottom-right cell and keeps the tiles. |
| `Parity.SlideBlankHomeAtHome` | core/src/ua/leskivproduction/fifteenth/model/Board.java:132-133 | When the blank is already last, the first phase changes nothing. |
| `Parity.SwapPassSkips` | core/src/ua/leskivproduction/fifteenth/model/Board.java:147-171 | Cells holding their own label or the blank cause no exchange and are passed over. |
| `Parity.SwapStep` | core/src/ua/leskivproduction/fifteenth/model/Board.java:150-165 | One exchange of the second phase, on a board with the blank last, has these effects: label k is found past cell k and moved into cell k, the blank stays last, and the values are kept. |
| `Parity.SwapKeepsMultiset` | core/src/ua/leskivproduction/fifteenth/model/Board.java:173-177 | Exchanging two cells keeps the multiset of values. |
| `Parity.SwapPassSorts` | core/src/ua/leskivproduction/fifteenth/model/Board.java:147-171 | On a board with the goal's values and the blank last, the selection-sort pass ends on the goal layout. |
| `Parity.GoalIsSolvable` | core/src/ua/leskivproduction/fifteenth/model/Board.java:127-172 | `solvable()` is true on the goal layout. |
| `Parity.SwappedGoalIsUnsolvable` | core/src/ua/leskivproduction/fifteenth/model/Board.java:127-172 | The goal with two tiles exchanged is unsolvable: the pass makes exactly one exchange. |
| `Parity.SolvableIffEvenSwaps` | core/src/ua/leskivproduction/fifteenth/model/Board.java:127-172 | For a board with the goal's tiles and one blank, `solvable()` holds exactly when the pass makes an even number of exchanges. |
| `Boards.Board.constructor` | core/src/ua/leskivproduction/fifteenth/model/Board.java:48-62 | `new Board(N)`: cell `i*N+j` holds `i*N+j`, the last cell holds -1, `amountOfCells` is N*N-1, depth 0, no previous board. |
| `Boards.Board.Copy` | core/src/ua/leskivproduction/fifteenth/model/Board.java:64-75 | The copy has the same dimension and cells in a fresh array, depth one more, and the source as its previous board. |
| `Boards.Board.Hamming` | core/src/ua/leskivproduction/fifteenth/model/Board.java:78-89 | `hamming` = the misplaced cells (the blank counts when it is not last) plus `searchNodeNum`. |
| `Boards.Board.Manhattan` | core/src/ua/leskivproduction/fifteenth/model/Board.java:92-105 | `manhattan` = weight times the summed tile distances plus `searchNodeNum`. The weight is 1 below N=4, else N. |
| `Boards.Board.IsGoal` | core/src/ua/leskivproduction/fifteenth/model/Board.java:108-117 | `isGoal` holds exactly when each of the first N*N-1 cells holds its index. |
| `Boards.Board.IsValid` | core/src/ua/leskivproduction/fifteenth/model/Board.java:119-125 | `isValid` holds exactly when the cells add up to the checksum. |
| `Boards.Board.Solvable` | core/src/ua/leskivproduction/fifteenth/model/Board.java:127-172 | `solvable` works on a copy, so the receiver is untouched. Its answer depends on the cells alone and equals `Solvability`. |
| `Boards.Board.SlideBlankHomeInPlace` | core/src/ua/leskivproduction/fifteenth/model/Board.java:130-145 | The in-place first phase leaves the cells the first phase computes. |
| `Boards.Board.MoveRepeatedly` | core/src/ua/leskivproduction/fifteenth/model/Board.java:137-140 | `while (k-- > 0) move(dir)` leaves the cells of k successive moves. |
| `Boards.Board.SwapPassInPlace` | core/src/ua/leskivproduction/fifteenth/model/Board.java:147-171 | The in-place pass leaves the cells and the exchange count that the second phase computes. |
| `Boards.Board.Find` | core/src/ua/leskivproduction/fifteenth/model/Board.java:155-165 | The cellIterator scan returns the row-major position of the first cell holding the value, or N*N. |
| `Boards.Board.Swap` | core/src/ua/leskivproduction/fifteenth/model/Board.java:173-177 | `swap` exchanges the two cells and changes nothing else. |
| `Boards.Board.SetCell` | core/src/ua/leskivproduction/fifteenth/model/Board.java:179-187 | `setCell` succeeds exactly when (x, y) is on the board and blank. It then writes that one cell; otherwise the cells are unchanged. |
| `Boards.Board.GetCell` | core/src/ua/leskivproduction/fifteenth/model/Board.java:189-197 | `getCell` returns null exactly when no cell holds the value. Otherwise it returns the on-board point of the first occurrence. |
| `Boards.Board.Clear` | core/src/ua/leskivproduction/fifteenth/model/Board.java:199-206 | `clear` makes every cell blank. |
| `Boards.Board.CompareTo` | core/src/ua/leskivproduction/fifteenth/model/Board.java:208-211 | `compareTo` is `Integer.compare` of the two manhattan scores: its sign and range are fixed both ways. |
| `Boards.Board.Equals` | core/src/ua/leskivproduction/fifteenth/model/Board.java:213-226 | `equals` is true exactly for a non-null board with the same cells, whatever its depth and previous board. |
| `Boards.Board.HashCode` | core/src/ua/leskivproduction/fifteenth/model/Board.java:228-234 | `hashCode` is the 32-bit fold of `amountOfCells` and the cells. |
| `Boards.Board.NeighborTowards` | core/src/ua/leskivproduction/fifteenth/model/Board.java:247-253 | One iterator step is one of two outcomes. It is null exactly when the move is invalid. Otherwise it is a fresh copy at depth +1, with this board as previous, holding the moved cells. |
| `Boards.Board.Neighbors` | core/src/ua/leskivproduction/fifteenth/model/Board.java:236-255 | `neighbors` gives exactly four entries, in the order Up, Down, Left, Right. Each entry is null iff its move is invalid; otherwise it is the moved child copy. |
| `Boards.Board.Move` | core/src/ua/leskivproduction/fifteenth/model/Board.java:265-308 | `move` returns true exactly when the first blank has an on-board source cell, and the cells become `MoveGrid`'s result. On false they are unchanged. |
| `Boards.Board.MoveTo` | core/src/ua/leskivproduction/fifteenth/model/Board.java:315-329 | `moveTo` returns the result and leaves the cells of the probe (see `Grids.MoveToIsCorrect`). |
| `MinQueues.Less` | core/src/ua/leskivproduction/fifteenth/utils/MinQueue.java:53-55 | `less(i, j)`: the key of slot i is strictly below the key of slot j, which is `compareTo < 0`. |
| `MinQueues.LessIsStrict` | core/src/ua/leskivproduction/fifteenth/utils/MinQueue.java:53-55 | `less` is a strict order on the slots: irreflexive, asymmetric and transitive. |
| `MinQueues.SwapAt` | core/src/ua/leskivproduction/fifteenth/utils/MinQueue.java:48-52 | An exchange moves the two slots' contents and keeps every other slot. |
| `MinQueues.Swap` | core/src/ua/leskivproduction/fifteenth/utils/MinQueue.java:48-52 | `swap` exchanges two array slots in place. |
| `MinQueues.Swim` | core/src/ua/leskivproduction/fifteenth/utils/MinQueue.java:29-34 | After `swim`, the live slots are heap-ordered. The array is the old one rearranged by exchanges among the live slots. |
| `MinQueues.Sink` | core/src/ua/leskivproduction/fifteenth/utils/MinQueue.java:35-46 | After `sink`, the live slots are heap-ordered. The array is the old one rearranged by exchanges among the live slots. |
| `MinQueues.SwimStep` | core/src/ua/leskivproduction/fifteenth/utils/MinQueue.java:30-32 | One swim exchange keeps the swim invariant one level up. |
| `MinQueues.SwimDone` | core/src/ua/leskivproduction/fifteenth/utils/MinQueue.java:30 | When swim stops, the heap is ordered. |
| `MinQueues.SinkStep` | core/src/ua/leskivproduction/fifteenth/utils/MinQueue.java:36-44 | One sink exchange with the smaller child keeps the sink invariant one level down. |
| `MinQueues.SinkDone` | core/src/ua/leskivproduction/fifteenth/utils/MinQueue.java:40-41 | When sink stops, the heap is ordered. |
| `MinQueues.SwapsKeepSlice` | core/src/ua/leskivproduction/fifteenth/utils/MinQueue.java:48-52 | Exchanges inside a slice keep that slice's multiset. |
| `MinQueues.SwapKeepsSlice` | core/src/ua/leskivproduction/fifteenth/utils/MinQueue.java:48-52 | One exchange inside a slice keeps that slice's multiset. |
| `MinQueues.HeapKeptByCopy` | core/src/ua/leskivproduction/fifteenth/utils/MinQueue.java:95-101 | Copying a prefix that covers the live slots keeps the heap order and the live elements. |
| `MinQueues.AppendStartsSwim` | core/src/ua/leskivproduction/fifteenth/utils/MinQueue.java:22-26 | Placing the new item in slot n of the grown array starts a valid swim and keeps the old live elements. |
| `MinQueues.RemoveStartsSink` | core/src/ua/leskivproduction/fifteenth/utils/MinQueue.java:61-64 | Moving the last live element into the root starts a valid sink. |
| `MinQueues.RootIsMin` | core/src/ua/leskivproduction/fifteenth/utils/MinQueue.java:72-77 | In a heap, the root's key is at most that of any live slot. |
| `MinQueues.RootIsMinOfAll` | core/src/ua/leskivproduction/fifteenth/utils/MinQueue.java:72-77 | Every live element's key is at least the root's. |
| `MinQueues.AddedToHeap` | core/src/ua/leskivproduction/fifteenth/utils/MinQueue.java:18-27 | After `add`, the live slots hold the old elements plus the new item. |
| `MinQueues.PlacedLast` | core/src/ua/leskivproduction/fifteenth/utils/MinQueue.java:25 | Writing the item into slot n adds exactly that item to the live slots. |
| `MinQueues.RemovedFromHeap` | core/src/ua/leskivproduction/fifteenth/utils/MinQueue.java:57-71 | After `removeMin`, the remaining live slots plus the old root are the old live elements, and none has a key below the root's. |
| `MinQueues.RootSwappedOut` | core/src/ua/leskivproduction/fifteenth/utils/MinQueue.java:61-64 | After the root is exchanged with slot m, slots 1..m-1 plus the old root are the old live elements. |
| `MinQueues.RemovedKeepsElements` | core/src/ua/leskivproduction/fifteenth/utils/MinQueue.java:61-64 | After that exchange and any rearrangement of slots 1..m-1, those slots plus the old root are the old live elements. |
| `MinQueues.KeysAtLeastSub` | core/src/ua/leskivproduction/fifteenth/utils/MinQueue.java:57-71 | Elements drawn from a collection whose keys are at least v also have keys at least v. |
| `MinQueues.ApplySwapsSnoc` | core/src/ua/leskivproduction/fifteenth/utils/MinQueue.java:43-44 | Logging one more exchange applies it after the earlier ones. |
| `MinQueues.Min` | core/src/ua/leskivproduction/fifteenth/utils/MinQueue.java:97 | `Math.min`: the result is one of the two arguments and at most both. |
| `MinQueues.Live` | core/src/ua/leskivproduction/fifteenth/utils/MinQueue.java:7-8 | The live elements are the n slots after slot 0. |
| `MinQueues.MinQueue.constructor` | core/src/ua/leskivproduction/fifteenth/utils/MinQueue.java:10-16 | A new queue is empty and its array has the requested capacity (0 for `MinQueue()`). |
| `MinQueues.MinQueue.Elements` | core/src/ua/leskivproduction/fifteenth/utils/MinQueue.java:79-81 | The queue holds exactly `size()` elements. |
| `MinQueues.MinQueue.Add` | core/src/ua/leskivproduction/fifteenth/utils/MinQueue.java:18-27 | `add(null)` changes nothing. `add(x)` raises `size()` by one, adds x to the contents multiset and keeps the heap order. The array doubles to 2n exactly when `++n >= length`, so `n < length` afterwards. |
| `MinQueues.MinQueue.RemoveMin` | core/src/ua/leskivproduction/fifteenth/utils/MinQueue.java:57-71 | `removeMin` throws (None) on an empty queue. Otherwise it returns the old root, whose key is at most every remaining key, lowers `size()` by one and removes exactly that element. The array halves exactly when `n <= length/4`. |
| `MinQueues.MinQueue.GetMin` | core/src/ua/leskivproduction/fifteenth/utils/MinQueue.java:72-77 | `getMin` throws (None) exactly on an empty queue. Otherwise it returns the root, the element `removeMin` returns next, with the smallest key. It changes nothing. |
| `MinQueues.MinQueue.Size` | core/src/ua/leskivproduction/fifteenth/utils/MinQueue.java:79-81 | `size()` is the number of live elements. |
| `MinQueues.MinQueue.SoftClear` | core/src/ua/leskivproduction/fifteenth/utils/MinQueue.java:86-88 | `softClear` empties the queue and keeps the array. |
| `MinQueues.MinQueue.ResizeArr` | core/src/ua/leskivproduction/fifteenth/utils/MinQueue.java:95-101 | `resize_arr` gives a fresh array of the new length. The first `min(old, new)` slots are copied and the count is unchanged. |
| `MinQueues.DrainStep` | core/src/ua/leskivproduction/fifteenth/utils/MinQueue.java:57-71 | Appending a removed minimum to a sorted output keeps it sorted and loses no element. |
| `MinQueues.AddAll` | core/src/ua/leskivproduction/fifteenth/utils/MinQueue.java:18-27 | Adding items one by one adds exactly their multiset. |
| `MinQueues.AddedOneMore` | core/src/ua/leskivproduction/fifteenth/utils/MinQueue.java:18-27 | After one more `add`, the contents hold the starting elements plus the first k+1 items. |
| `MinQueues.RemoveAll` | core/src/ua/leskivproduction/fifteenth/utils/MinQueue.java:57-71 | Removing until empty yields the old contents in non-decreasing key order. |
| `MinQueues.DrainInKeyOrder` | core/src/ua/leskivproduction/fifteenth/utils/MinQueue.java:18-71 | Inserting k items and then removing k items yields a permutation of them with keys in non-decreasing order. |
| `Solvers.Priority` | core/src/ua/leskivproduction/fifteenth/model/Board.java:208-211 | The queue key of a board, its `manhattan` score, by which `compareTo` orders boards. |
| `Solvers.SeenWithin` | core/src/ua/leskivproduction/fifteenth/model/Solver.java:28-38 | The bounded walk along `previous` from a board: true when one of the first `budget` boards on the chain has the given cells. |
| `Solvers.Children` | core/src/ua/leskivproduction/fifteenth/model/Solver.java:26-27 | The non-null entries of `neighbors()` from the i-th direction on, in Up, Down, Left, Right order. Each is a copy at depth +1 whose previous board is cur. |
| `Solvers.Expansion` | core/src/ua/leskivproduction/fifteenth/model/Solver.java:26-45 | What one pass of the `for` loop queues: nothing when cur repeats one of its nine nearest ancestors, every non-null neighbour otherwise. |
| `Solvers.Trail` | core/src/ua/leskivproduction/fifteenth/model/Solver.java:61-64 | The boards collected from cur along `previous` links. The walk stops before the first board with the initial cells, or after a board with no previous board. |
| `Solvers.IsSolvable` | core/src/ua/leskivproduction/fifteenth/model/Solver.java:73-76 | `isSolvable()` returns the `solvable` flag. |
| `Solvers.Solution` | core/src/ua/leskivproduction/fifteenth/model/Solver.java:85-88 | `solution()` returns the solution array, with None for null. |
| `Solvers.GrowTree` | core/src/ua/leskivproduction/fifteenth/model/Solver.java:43 | Queueing a valid neighbour of a tree node keeps the search tree. |
| `Solvers.Ancestor` | core/src/ua/leskivproduction/fifteenth/model/Solver.java:37 | Following `previous` links from an arena board stays inside the arena. |
| `Solvers.SeenWithinFindsAncestor` | core/src/ua/leskivproduction/fifteenth/model/Solver.java:28-38 | The bounded walk finds the cells exactly when one of the first `budget` boards along the `previous` chain has them. |
| `Solvers.SeenWithinPrefix` | core/src/ua/leskivproduction/fifteenth/model/Solver.java:28-38 | Boards added to the arena later do not change the walk from an older board. |
| `Solvers.RepeatsAncestor` | core/src/ua/leskivproduction/fifteenth/model/Solver.java:28-38 | The ancestor walk starts at `b.previous.previous`, which is cur's previous board. It compares at most `DEPTH_CHECK - 1 = 9` boards with cur and reports whether one matches. |
| `Solvers.ChildrenStep` | core/src/ua/leskivproduction/fifteenth/model/Solver.java:26-27 | A valid move in direction i contributes its child, numbered next, before the later directions' children. |
| `Solvers.ChildrenAdvance` | core/src/ua/leskivproduction/fifteenth/model/Solver.java:43 | Queueing the child in direction i uses up the first child still due. |
| `Solvers.ChildrenNoneLeft` | core/src/ua/leskivproduction/fifteenth/model/Solver.java:26 | After the fourth direction no child is still due. |
| `Solvers.ChildrenKeepTree` | core/src/ua/leskivproduction/fifteenth/model/Solver.java:26-45 | Appending every valid neighbour of a tree node keeps the search tree. |
| `Solvers.Offer` | core/src/ua/leskivproduction/fifteenth/model/Solver.java:27-43 | A neighbour is queued, and joins the arena, exactly when its move is valid and the ancestor walk does not find cur. Otherwise nothing changes. |
| `Solvers.Expand` | core/src/ua/leskivproduction/fifteenth/model/Solver.java:26-45 | Expansion keeps the tree. When pruning fires, no neighbour is queued; otherwise every valid neighbour is queued, in Up, Down, Left, Right order, and the queue grows by exactly those. |
| `Solvers.PopDistinct` | core/src/ua/leskivproduction/fifteenth/model/Solver.java:47-54 | Every skipped board has cur's cells. The board taken has other cells, and its key is at most every key left in the queue. When the queue runs dry, the result is the exception (None). The queue's contents are accounted for exactly. |
| `Solvers.TrailStep` | core/src/ua/leskivproduction/fifteenth/model/Solver.java:61-64 | One step of the walk back: the board, then the walk from its previous board. |
| `Solvers.TraceBack` | core/src/ua/leskivproduction/fifteenth/model/Solver.java:61-64 | The loop collects the walk back from cur up to the first board with the initial cells. |
| `Solvers.TrailIsPath` | core/src/ua/leskivproduction/fifteenth/model/Solver.java:61-64 | In the tree, the walk back has these properties: it is empty exactly when the board has the initial cells; it starts at the board; no element has the initial cells; each element is the child of the next; the last one is one slide from the initial cells. |
| `Solvers.Reverse` | core/src/ua/leskivproduction/fifteenth/model/Solver.java:65 | `Collections.reverse`: element k becomes element `n-1-k`. |
| `Solvers.ReversedPath` | core/src/ua/leskivproduction/fifteenth/model/Solver.java:65 | Reversing the walk back gives the path forward, each board the previous board of the next. |
| `Solvers.BuildSolution` | core/src/ua/leskivproduction/fifteenth/model/Solver.java:61-67 | The solution is empty exactly when cur has the initial cells. Otherwise it ends at cur and starts one slide from the initial board. Consecutive boards are linked by `previous` and one move, and no element has the initial cells. |
| `Solvers.Moves` | core/src/ua/leskivproduction/fifteenth/model/Solver.java:79-83 | `moves()` is -1 exactly when the board is not solvable. |
| `Solvers.Solve` | core/src/ua/leskivproduction/fifteenth/model/Solver.java:15-71 | A goal board is always solved. When the constructor returns: `isSolvable()` is true and `moves()` is the solution's length; the solution is empty exactly when the initial board is the goal; it ends at a goal board, starts one slide from the initial board and chains by `previous`; no element equals the initial board. |
| `Solvers.PoppedInArena` | core/src/ua/leskivproduction/fifteenth/model/Solver.java:49 | The board `removeMin` returns, and every board left in the queue, is in the arena. |
| `Solvers.QueuedInArena` | core/src/ua/leskivproduction/fifteenth/model/Solver.java:43 | After an expansion, every queued board is in the grown arena. |

## Behaviour of the code worth knowing

- The parity check in the Solver constructor is commented out, and
  `solvable` is the constant `true`. The model does the same, so
  `isSolvable()` is always true and `moves()` is never -1. The unsolvable
  branch (`solution = null`) cannot be reached, and it is not modelled.
- `isGoal` never examines the last cell. `Grids.IsGoal` does the same, and
  `Grids.GoalIsUnique` shows that this still pins down the goal for a board
  holding the goal's values.
- The ancestor walk starts from `b.previous.previous`, the current board's
  own previous board. So it compares the current board, not the neighbour,
  with at most nine ancestors, and the verdict is the same for every
  neighbour.
- `Boards.Board.MoveTo` keeps its promise only on boards with a single
  blank: there, a true result means the cells now equal the target. On a
  board with two blanks it can return true and end elsewhere, as
  `Grids.MoveToTwoBlanksOvershoots` shows. Such boards do reach the game
  (Fifteenth.java, which is not part of this model). Crafting starts from a
  cleared board, all blanks. The S key's test,
  `solver == null || !solver.isSolving() && curState != State.CRAFTING`,
  passes during crafting whenever no solver exists, because `&&` binds
  tighter than `||`. Pressing S mid-craft then switches to shuffling without
  reaching the `isValid` checks that end crafting. The shuffle, the arrow
  keys and the SPACE solver then all work on a board with several blanks.
  `Grids.MoveToIsCorrect` states the promise for single-blank boards.
- The comments on `moves()` and `solution()` promise the minimum number of
  moves and the shortest solution. The search cannot guarantee that. It is
  greedy best-first: it always takes the board with the smallest weighted
  `manhattan` score, depth term included, and it never reconsiders a
  choice. So it can return a path longer than the shortest one.
- `hashCode` covers `amountOfCells` and the cells, and `equals` compares
  only the cells. Boards of the same dimension that are `equals` therefore
  hash equally, which follows from `Boards.Board.Equals` and
  `Boards.Board.HashCode`.

## Left out

- Rendering, animation and colour state are not modelled: `draw`,
  `calcBackgroundColor`, `translateProgress`, `lastMoved`, `lastDir`,
  `goalRed`, `curRed` and the `animate` flag. They are libGDX calls and
  floating-point maths. `toString` is cosmetic.
- `System.out.println` progress output in the Solver constructor is left
  out; it is I/O.
- Fifteenth.java (the UI, input, audio and the random shuffle) and
  DesktopLauncher.java are not part of this model.
- Java `int` overflow is modelled only in `hashCode`. Elsewhere the
  integers are unbounded, which matches Java for every board size the game
  uses.
- The grid is one flat row-major `array<int>` instead of Java's `int[][]`.
  Cell (x, y) is `blocks[y * N + x]`, the order `cellIterator` reads.
- `Boards.Board.Equals` requires the other board to have the same
  dimension. On boards of different sizes, Java behaves as follows: when
  the other board is smaller, it indexes out of bounds. When the other
  board is larger, it compares only that board's top-left N x N square,
  `another.blocks[i][j]` for i, j < N, which is not a prefix of its
  row-major cells.
- `Boards.Board.MoveTo` requires the target board not to share the
  receiver's array, so a board moving towards itself is not modelled. It
  also requires the target to have the receiver's dimension, a restriction
  inherited from `Boards.Board.Equals`.
- `MinQueues.MinQueue.RemoveMin` does not write `null` into the vacated
  slot. Slots past the live count are never read, so no observable result
  changes.
- `MinQueues.Less`, `MinQueues.Swap`, `MinQueues.Swim` and `MinQueues.Sink`
  work on the heap array passed to them, not as members of the class. The
  live count is passed in as well.
- Java generics and `Comparable` become a key function `T -> int`.
  `compareTo` on boards compares manhattan scores, so the Solver's key is
  the manhattan score.
- Solver boards are values in an arena. `previous` is an arena index rather
  than an object reference, and the queue holds those values.
- `Solvers.Solve` takes a fuel bound on the number of expansions, because
  the search has no termination argument. Running out of fuel is the
  outcome `OutOfFuel`, and the contracts are about the runs that return.
- `Solvers.Solve` assumes the initial board is the root of its own search
  tree, at depth 0 with no previous board, as `new Board(N)` builds it.
- `Solvers.Solve` proves no optimality. The source's comments on `moves()`
  and `solution()` promise a shortest solution, but the greedy search,
  weighted and with its depth term, does not guarantee one. The model
  proves only that the solution is a valid path of single moves from the
  initial board to a goal.
- The `NoSuchElementException` from `removeMin` when the queue runs dry is
  the outcome `QueueEmpty`, not an exception.
- Sizes and counts are `nat`; a negative `potential_size` is not modelled.
