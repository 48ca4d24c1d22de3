# Queens puzzle engine

This project models the engine of a "Queens" logic puzzle. The board has
N×N cells, each empty or holding a crown. A region map splits the cells into
N coloured regions, and the player places one crown per row, column and
region. The engine exists in two JavaScript variants, and both are modelled:

- `script.js` grows regions by a randomised flood fill from N seeds. It
  solves with a randomised backtracking search whose move check covers
  column, region and the eight touching cells. Its game state lives in
  module globals.
- `pages/index.js`, the React `Home` component, deals N random cells to each
  region. It solves with a deterministic backtracking search whose move check
  covers row, column and region. It then samples clues from the solution,
  and its click handler returns an edited copy of the board.

Modules:

- `Grid` (grid.dfy) holds the shared value model.
  - A board is `seq<seq<bool>>`, with `true` for a crown and `false` for an
    empty cell.
  - A region map is `seq<seq<int>>`.
  - The module also holds cell counts, scans and `BoardBuffer`, a board
    that one call writes in place and its caller sees.
- `Shuffle` (shuffle.dfy) models `shuffleArray` on an array and its
  specification `Shuffled` on sequences.
- `ScriptRules`, `ScriptSolver`, `ScriptRegions` and `ScriptGame` model
  `script.js`. Its globals `regionMap`, `solutionBoard` and `playerBoard`
  become the fields of class `ScriptGame.Game`, and `boardSize` becomes its
  constant `n`.
- `HomeRules`, `HomeSolver`, `HomeRegions` and `HomePuzzle` model
  `pages/index.js`. The React state `boardSize`, `regions`, `solution` and
  `board` become parameters.

How the JavaScript values are represented:

- **Randomness.** `Math.random()` is a caller-supplied `rng: nat -> nat`. The
  k-th call of `Math.floor(Math.random() * m)` is `rng(k) % m`. Every member
  that draws takes the index of its first draw and returns the next unused
  one.
- **Unclaimed cells.** In `script.js` an unclaimed region cell (`null`) is
  0, and ids run 1..N. In `pages/index.js` it is `Unassigned` (-1), and ids
  run 0..N-1.

What the two variants actually do, as the code is written:

- The `script.js` flood fill claims every cell: the grid is 4-connected and
  the queue is drained. No cell is left `null`, and each region is connected
  to its seed.
- The `script.js` flood fill does not make regions equal in size.
- The `pages/index.js` regions are equal in size but need not be connected.
- `script.js`'s `isValidMove` does not look at the row (`RowIsNotChecked`).
  Its solver still places one crown per row, because it fills the rows one
  at a time.
- `pages/index.js`'s `isValidMove` does not look at touching cells
  (`AdjacencyIsNotChecked`).
- The win checks of both variants compare every cell with the solution.

## Model

| member | source | states |
|---|---|---|
| Shuffle.Draw | script.js:56 | a draw of `Math.floor(Math.random() * m)` lies in 0..m-1 |
| Shuffle.SwapPermutes | script.js:57 | exchanging two entries keeps the length and the multiset of entries |
| Shuffle.ShuffleArray | script.js:54-59 | the array ends as `Shuffled` of its old contents, after one draw per position from the last down to 1 |
| Shuffle.ShuffledPermutes | script.js:54-59 | a shuffled sequence has the same length and the same multiset of elements as its input |
| Shuffle.ShuffledDistinct | script.js:54-59 | shuffling a duplicate-free sequence leaves it duplicate-free |
| ScriptRegions.ShuffledIndices | script.js:67-71 | the shuffled index list holds size² distinct indices, each below size² |
| ScriptRegions.PlaceSeeds | script.js:72-79 | seed i is the cell at row `indices[i] / size`, column `indices[i] % size`, with id i+1; the `size` seed cells are distinct and hold their ids, every other cell is `null` (the growth invariant) |
| ScriptRegions.CollectNeighbours | script.js:84-88 | the list holds only on-board side neighbours of the popped cell, and every such neighbour |
| ScriptRegions.SameNeighbours | script.js:89 | after the shuffle the list still holds exactly the on-board side neighbours |
| ScriptRegions.ClaimNeighbours | script.js:90-95 | every listed neighbour is claimed afterwards; each new queue entry is a listed neighbour that was `null`, enqueued by the popped cell with its region; the only cells that change are such neighbours, now holding that region; the growth invariant and the claimed neighbours of earlier pops are kept |
| ScriptRegions.PopAndClaim | script.js:81-95 | one round of the queue loop keeps the flooding invariant: the queue is the unpopped tail of the enqueued cells, and every popped cell, now including the shifted one, has all its neighbours claimed; the new queue is the old one without its head, followed by the newly enqueued cells, and the enqueue order so far is kept; the only cells that change were `null` side neighbours of the shifted cell and now hold its region |
| ScriptRegions.DrainQueue | script.js:81-97 | the queue loop runs until every enqueued cell has been popped, keeping the flooding invariant, so every popped cell has all its side neighbours claimed |
| ScriptRegions.FloodingBound | script.js:81-96 | the queue loop pops at most size² cells, because a cell is enqueued only when it is first claimed |
| ScriptRegions.PathToSeed | script.js:90-95 | every claimed cell is joined to its region's seed by a path of side-sharing cells of that region |
| ScriptRegions.ConnectedFromGrowth | script.js:80-96 | growing by claimed neighbours leaves every region connected to its seed |
| ScriptRegions.ClosedIsFull | script.js:81-96 | a set of claimed cells closed under side adjacency that holds one cell holds the whole board |
| ScriptRegions.DrainedIsFull | script.js:81-97 | when the queue drains, every cell has an id in 1..size, size² cells were popped, and seed i still has id i+1 |
| ScriptRegions.GenerateRegionMap | script.js:65-98 | `generateRegionMap(size)` returns a size×size map whose ids all lie in 1..size with no `null` left; seed i has id i+1; every region is 4-connected to its seed; the queue loop made exactly size² pops |
| ScriptRules.IsValidMove | script.js:135-160 | true exactly when column `col` has no crown, no cell of the same region has a crown, and no on-board cell touching (row, col) has a crown |
| ScriptRules.RowIsNotChecked | script.js:135-160 | a crown elsewhere in the same row does not make the move invalid |
| ScriptRules.BoardsEqual | script.js:162-169 | `boardsEqual` is true exactly when the two boards are equal cell by cell |
| ScriptRules.PlaceExtends | script.js:119-122 | crowning a cell of the first empty row where `isValidMove` holds extends a placement of one crown per row, with pairwise distinct columns, distinct regions and no touching, by one row |
| ScriptRules.SolutionCrowns | script.js:113-128 | a solution holds exactly N crowns |
| ScriptSolver.Backtrack | script.js:115-127 | on success the board has one crown per row, any two crowns differ in column and region and do not touch, and the rows above `row` are untouched; on failure the board is exactly as it was on entry |
| ScriptSolver.GenerateSolution | script.js:113-129 | a returned board is a solution: one crown per row, pairwise distinct columns and regions, no two crowns touching |
| ScriptGame.Toggle | script.js:264-276 | a crowned cell becomes empty; an empty cell is crowned exactly when `isValidMove` holds; no other cell changes |
| ScriptGame.RefusedClickChangesNothing | script.js:269-275 | a refused click leaves the board unchanged |
| ScriptGame.PlaceThenRemove | script.js:264-276 | placing a crown and clicking the same cell again restores the board |
| ScriptGame.ToggleKeepsCompatible | script.js:264-276 | clicks keep the player's crowns in distinct columns and regions and never touching |
| ScriptGame.Game.constructor | script.js:283-286 | the page load runs `newGame` on the empty globals; if a solution was found, the game is ready with an empty board, and otherwise the player's board is still `[]` |
| ScriptGame.Game.NewGame | script.js:247-257 | a fresh N×N region map with ids 1..N; the solver draws after the map's draws and the colour shuffle's 8; when the solver succeeds, the stored solution is a solution of that map and the player's board is empty; when it fails, the player's board is kept |
| ScriptGame.Game.ResetCurrentGame | script.js:259-262 | in any state, also after a failed `newGame`, the player's board becomes empty and the regions and solution stay; with a solution stored the game is then ready |
| ScriptGame.Game.IsBoardComplete | script.js:171-173 | true exactly when the board equals the stored solution |
| ScriptGame.Game.HandleCellClick | script.js:264-281 | on any drawn board, also after a failed `newGame`: the player's board becomes `Toggle` of the old one; the click is refused exactly when the cell is empty and `isValidMove` fails; an accepted click with no stored solution ends in the win check throwing; otherwise the win is reported exactly when the board equals the solution; a ready game stays ready |
| HomeRegions.ListCells | pages/index.js:28-33 | `availableCells` lists every cell of the board once: N² distinct cells, exactly the on-board ones |
| HomeRegions.Splice | pages/index.js:38 | `splice(j, 1)` shortens the list by one and shifts the later elements down |
| HomeRegions.SpliceRemoves | pages/index.js:38 | splicing removes exactly the drawn cell and keeps the list duplicate-free |
| HomeRegions.DealingStarts | pages/index.js:25-33 | before the first deal every cell is unassigned and available |
| HomeRegions.DealingLeft | pages/index.js:36 | while deals remain the list is not empty, so the `break` never fires |
| HomeRegions.DealStep | pages/index.js:37-39 | the drawn cell is on the board and unassigned, so no cell is assigned twice; after the deal it has the current id and has left the list |
| HomeRegions.DealtAll | pages/index.js:34-41 | after all regions every cell has an id and every id has N cells |
| HomeRegions.GenerateRegions | pages/index.js:23-43 | every cell gets exactly one id in 0..N-1, each id is used by exactly N cells, and one draw is made per cell |
| HomeRules.LinesFree | pages/index.js:61-63 | the first scan passes exactly when neither row `row` nor column `col` holds a crown |
| HomeRules.IsValidMove | pages/index.js:59-72 | true exactly when row `row`, column `col` and the region of (row, col) hold no crown |
| HomeRules.AdjacencyIsNotChecked | pages/index.js:59-72 | a crown on a touching cell does not make a move invalid |
| HomeRules.CheckWin | pages/index.js:104-111 | true exactly when the board equals the solution in every cell |
| HomeRules.PlaceExtends | pages/index.js:49-51 | crowning an allowed cell of the first empty row extends a placement of one crown per row, with pairwise distinct columns and regions, by one row |
| HomeRules.SolutionCrowns | pages/index.js:46-56 | a full placement holds exactly N crowns |
| HomeRules.HandleCellClick | pages/index.js:124-132 | on a copy of the board, a crowned cell becomes empty, an empty cell is crowned exactly when `isValidMove` holds, and no other cell changes; the win flag is set exactly when the new board equals the solution |
| HomeRules.ClickTwiceRestores | pages/index.js:124-130 | crowning a cell and clicking it again gives back the original board |
| HomeRules.ClickKeepsCompatible | pages/index.js:124-130 | clicks keep the player's crowns in distinct rows, columns and regions |
| HomeSolver.SolveBoard | pages/index.js:46-56 | `solveBoard` returns true exactly when the search, which tries columns in ascending order, finds a board, and leaves that board behind; when it returns false the board is exactly as on entry; the outcome depends only on the board and the regions |
| HomeSolver.SolveSound | pages/index.js:46-56 | a board the search finds from a partial placement has one crown in every row, with pairwise distinct columns and regions |
| HomeSolver.ValidInSolution | pages/index.js:49 | a cell crowned by a solution that agrees with the placement on the rows above is allowed by `isValidMove` |
| HomeSolver.StepToCrown | pages/index.js:49-51 | crowning that cell keeps the placement partial and agreeing with the solution on one more row |
| HomeSolver.SolveComplete | pages/index.js:46-56 | when a solution agrees with the placement on the rows above, the search finds a board |
| HomeSolver.SolvesEmptyBoard | pages/index.js:79-80 | on an empty board `solveBoard` succeeds exactly when the region map has a solution, and what it leaves behind is one |
| HomePuzzle.ClueTarget | pages/index.js:82 | `Math.floor(boardSize * 1.5)` is at least N, and more than N from N = 2 on |
| HomePuzzle.SolveEmpty | pages/index.js:76-80 | `sol` is a solution with N crowns when the map has one, and the empty board with no crowns otherwise |
| HomePuzzle.SampleClues | pages/index.js:81-90 | every revealed crown is a crown of `sol`, and revealed crowns plus `clues` equal `Math.floor(boardSize * 1.5)` throughout |
| HomePuzzle.GeneratePuzzle | pages/index.js:75-92 | as written: it can return only with exactly `floor(1.5N)` crowns of `sol` revealed, and from N = 2 on it never returns |
| HomePuzzle.TooManyClues | pages/index.js:80-90 | from N = 2 on, no set of crowns of a solution reaches `floor(1.5N)`, so the sampling loop cannot end |
| HomePuzzle.CrownCells | pages/index.js:86 | the crowned cells of a board, listed once each; their number is the board's crown count |
| HomePuzzle.ShuffledCrowns | pages/index.js:84-86 | a random order of exactly the crowned cells of `sol` |
| HomePuzzle.RevealStep | pages/index.js:86-88 | revealing the next listed cell adds one new crown |
| HomePuzzle.GeneratePuzzleClamped | pages/index.js:75-92 | corrected: it always ends with exactly min(`floor(1.5N)`, crowns of `sol`) distinct crowns of `sol` revealed; `sol` is a solution when the map has one, and empty otherwise |

## Left out

- Rendering, colours and pop-ups are not modelled. This covers `createBoard`, `getBorderWidth`, `queenSVG`, `generateRegionColors`, `allowedColors`, every `alert`, the JSX of pages/index.js and the `cell.innerHTML` updates in `handleCellClick`. None of them affects the board state, with one exception. `newGame` calls `generateRegionColors` between the map and the solver, and its `shuffleArray` of the 9 `allowedColors` makes 8 draws. `ScriptGame.Game.NewGame` skips those 8 draws, so the solver gets the same draws as in script.js; the colours themselves are not kept.
- Timers, the score and the growth of `boardSize` after three wins are not modelled. This covers pages/index.js:132-143 and `startTimer`. They run in timer callbacks over stale React closures and do not touch the board logic.
- `startNewGame` and React's `useState`/`useEffect` are not modelled. `startNewGame` calls `generatePuzzle` before `setRegions` takes effect, so the puzzle is solved against the previous `regions`. On the first render that is `[]`, where `isValidMove` would read a row of `undefined`. The model passes `regions` to every member as an explicit, well-formed parameter.
- `deepCopy` is not modelled as a JSON round trip. Boards are values, so the copy is the value itself.
- `Math.random` is not modelled; it is the parameter `rng`. Nothing is said about the distribution of the draws.
- `HomePuzzle.ClueTarget` computes `Math.floor(boardSize * 1.5)` as `(3 * N) / 2` on integers. The two agree for every natural N, and no floating point is modelled.
- `HomePuzzle.GeneratePuzzle` does not model the unbounded loop. Its loop is cut off after `budget` iterations, with `None` when it is still running then. `TooManyClues` shows that from N = 2 on no budget is enough.
- `ScriptSolver.Backtrack` requires one crown per row above `row` and a compatible placement. This is the state `generateSolution` always calls it in.
- `ScriptSolver.GenerateSolution` does not state that it finds a solution whenever one exists; only soundness is proved. Its column order depends on the draws. Completeness is proved for the deterministic pages/index.js solver (`HomeSolver.SolvesEmptyBoard`).
- `ScriptGame.Game.IsBoardComplete` requires a stored solution, because against `null` the scan in `boardsEqual` throws. `ScriptGame.Game.HandleCellClick` models that case as its `failed` result.
- `ScriptGame.Game.HandleCellClick` requires a drawn board, `playerBoard` of size N×N. Cells are only clickable once `createBoard` has drawn them, after a successful `newGame` or a `resetCurrentGame`, and both set `playerBoard` to an N×N board. The `TypeError` that `boardsEqual` throws against a `null` solution is the `failed` result, not an exception.
- `ScriptRegions.GenerateRegionMap` takes one size for both the map and the number of seeds, whereas script.js:73 counts seeds with the global `boardSize`. The function is only ever called with `boardSize`.
- `HomeRegions.ListCells` states which cells are listed and that each appears once, but not their row-by-row order. No later step depends on that order beyond the draws.
- Connectivity of the pages/index.js regions is not claimed, because it does not hold: the cells of a region are drawn anywhere on the board.
- `Shuffle.ShuffleArray` states its result as `Shuffled` of the input. That this is a permutation is the separate lemma `Shuffle.ShuffledPermutes`.

## Findings

| source | as written | input that shows it | evidently intended | confidence | as-written member | corrected member |
|---|---|---|---|---|---|---|
| pages/index.js:82-90 | `generatePuzzle` keeps sampling cells until `Math.floor(boardSize * 1.5)` distinct crowned cells of `sol` are revealed. `sol` holds at most one crown per row, so at most N, and none when `solveBoard` fails. | N = 5 with any 5×5 region map: 7 clues are asked for, and `sol` holds 5 crowns, so the loop never ends. Any N ≥ 2 behaves the same way. | reveal min(`floor(1.5N)`, crowns of `sol`) distinct crowns of `sol`, then return | not executed; proved on the model | HomePuzzle.GeneratePuzzle, HomePuzzle.TooManyClues | HomePuzzle.GeneratePuzzleClamped |
