# Game of Life engine — a Dafny model

This project models the cellular-automaton engine of the `GameOfLife` class
(`src/GameOfLife.ts`): a fixed `height × width` liveness matrix
`cellStates`, the bounded (non-wrapping) count of live neighbours, the
Conway B3/S23 generation step, and random seeding by rejection sampling.
It proves what the engine relies on.

- The count is the number of live cells adjacent to a cell. It lies in
  [0, 8], never includes the centre cell, and never looks off the grid.
- A step applies B3/S23 to every cell, judged by the pre-step grid alone.
  It keeps the grid's shape, and the all-dead grid is a fixed point.
- Seeding keeps exactly the requested number of distinct in-grid points.
  The seeded grid is alive exactly at those points.

Layout:

- `life.dfy`, module `Life`: the pure part. It holds the grid
  (`seq<seq<bool>>`), `Alive` (a bounds-checked read), `CountNeighbours`
  over the eight offsets in the order the engine inspects them, `NextState`
  (B3/S23) and `Step`. An independent, set-based definition of the
  neighbours (`LiveNeighbours`) sits beside them, with lemmas about all of
  these.
- `seeding.dfy`, module `Seeding`: the random source is a sequence of
  candidate draws. `Dedup` gives the points rejection sampling keeps from
  them, and `Seeded` is the grid alive at exactly a set of points. The
  lemmas cover cardinality: no more distinct points than cells, and a full
  seeding covers the grid.
- `game_of_life.dfy`, module `Engine`: the class `GameOfLife`. Its
  `cellStates` field is a `seq<seq<bool>>` that the methods reassign. The
  methods `Create`, `RandomStartPoints`, `GetActiveNeighbours`, `Update`
  (with its per-row pass `UpdateRow`) and `Init` are written with the
  source's loops. Each is proved against the functions above.

Two facts about the code shape the model:

- `getRandomStartPoints` has no guard on the number of points asked for.
  When the draws never supply enough distinct points, in particular when
  more points than cells are asked for, its loop never ends. The model
  makes enough distinct draws a precondition, and
  `Seeding.SeedingNeedsRoom` shows that no sequence of in-grid draws can
  meet it when more points than cells are asked for.
- The code has no error results: it neither checks coordinates nor checks
  that the grid has been laid out. Coordinates and a laid-out grid are
  preconditions here.

## Model

| member | source | states |
|---|---|---|
| `Engine.GameOfLife.constructor` | src/GameOfLife.ts:23-32 | stores the dimensions and the start-point count; the liveness matrix starts empty |
| `Engine.GameOfLife.Create` | src/GameOfLife.ts:41-52 | appends `height` rows of `width` dead cells to `cellStates` |
| `Life.DeadGrid` | src/GameOfLife.ts:41-52 | the freshly laid-out grid has exactly `height` rows of `width` cells, all dead |
| `Engine.GameOfLife.GetActiveNeighbours` | src/GameOfLife.ts:67-84 | the eight guarded reads count exactly `CountNeighbours` of the cell, never more than 8; every read is in bounds |
| `Life.CountNeighbours` | src/GameOfLife.ts:67-84 | the pure count that `getActiveNeighbours` computes: live on-grid cells at the eight offsets; never more than 8 |
| `Life.NextState` | src/GameOfLife.ts:97-103 | the B3/S23 branch: exactly 3 live neighbours means alive, fewer than 2 or more than 3 means dead, and exactly 2 keeps the current state |
| `Life.CountNeighboursUnrolled` | src/GameOfLife.ts:71-82 | the count is the sum over the eight offsets, in the engine's order, of "that position is on the grid and alive" |
| `Life.CountOver` | src/GameOfLife.ts:68-83 | counting over a list of offsets never gives more than the number of offsets |
| `Life.CountNeighboursIsLiveNeighbours` | src/GameOfLife.ts:67-84 | the count equals the number of live, on-grid positions adjacent to the cell (within one row and one column, not the cell itself), in both directions of membership |
| `Life.CountOverIsCardinality` | src/GameOfLife.ts:71-82 | for distinct offsets, the count equals the number of distinct live positions they reach |
| `Life.CountNeighboursBound` | src/GameOfLife.ts:67-84 | the count lies in [0, 8] |
| `Life.CornerCountBound` | src/GameOfLife.ts:71-82 | a corner cell has at most 3 live neighbours, since positions off the grid are skipped |
| `Life.EdgeCountBound` | src/GameOfLife.ts:71-82 | a cell on an edge has at most 5 live neighbours |
| `Life.Step` | src/GameOfLife.ts:86-105 | the next generation has the same number of rows and row lengths as the current one |
| `Engine.GameOfLife.UpdateRow` | src/GameOfLife.ts:95-104 | one pass of the scan fills row `i` of the fresh matrix with the next generation's row and leaves the other rows alone |
| `Engine.GameOfLife.Update` | src/GameOfLife.ts:85-109 | after the call `cellStates` is `Step` of the pre-step grid: every cell's next state from the old grid only, the new matrix replacing the old after the full scan; the shape is kept |
| `Life.StepSurvival` | src/GameOfLife.ts:97-100 | a live cell is alive after the step iff its pre-step count is 2 or 3 |
| `Life.StepBirth` | src/GameOfLife.ts:90-103 | a dead cell is alive after the step iff its pre-step count is exactly 3, and otherwise keeps the `false` default |
| `Life.StepShape` | src/GameOfLife.ts:86-109 | a step keeps exactly `height` rows of `width` cells |
| `Life.StepIsLocal` | src/GameOfLife.ts:94-105 | a cell's next state depends only on the pre-step 3×3 block around it |
| `Life.AllDeadIsFixedPoint` | src/GameOfLife.ts:86-109 | the all-dead grid is unchanged by a step |
| `Life.StepN` | src/GameOfLife.ts:130-134 | the grid after `k` repeated ticks of `update`; it keeps the number of rows and every row's length |
| `Life.AllDeadForever` | src/GameOfLife.ts:86-109 | the all-dead grid is unchanged by any number of steps |
| `Life.LoneCellDies` | src/GameOfLife.ts:86-109 | a grid with a single live cell is all dead after one step |
| `Life.Blinker` | src/GameOfLife.ts:86-109 | the 3×3 horizontal blinker turns vertical after one step |
| `Seeding.Dedup` | src/GameOfLife.ts:57-63 | the kept points have no repetition, are exactly the distinct draws, and are no more than the draws |
| `Engine.GameOfLife.RandomStartPoints` | src/GameOfLife.ts:55-65 | returns exactly `noOfPoints` (or none when that is not positive) pairwise-distinct in-grid points, the first distinct draws in order |
| `Seeding.DistinctPointsBound` | src/GameOfLife.ts:55-65 | distinct in-grid points number at most `height * width` |
| `Seeding.SeedingNeedsRoom` | src/GameOfLife.ts:57 | rejection sampling over in-grid draws never keeps more than `height * width` points, so on a grid with at least one row and one column a larger request never completes |
| `Seeding.FullSeedingCoversGrid` | src/GameOfLife.ts:55-65 | `height * width` distinct in-grid points include every cell |
| `Seeding.Seeded` | src/GameOfLife.ts:121-125 | the seeded grid has the grid's shape and is alive exactly at the given points |
| `Seeding.SeededNone` | src/GameOfLife.ts:48 | seeding no points gives the all-dead grid that `create` lays out |
| `Seeding.SeededAdd` | src/GameOfLife.ts:124-125 | marking one more point alive changes exactly that cell to alive |
| `Seeding.FullSeedingAllAlive` | src/GameOfLife.ts:121-125 | seeding as many distinct points as cells leaves every cell alive |
| `Engine.GameOfLife.Init` | src/GameOfLife.ts:121-128 | lays out the grid, keeps `startingAlive` distinct in-grid points that are the first distinct draws in order, and leaves the live cells exactly those points |

## Left out

- Rendering: the grid styling and element appending in `create`
  (src/GameOfLife.ts:35-40, 45-46), the `classList` updates in `update` and
  `init` (src/GameOfLife.ts:110-118, 126) and the `Cell` class
  (src/GameOfLife.ts:141-152). They only act on host display objects.
- `start` and `stop` (src/GameOfLife.ts:130-138): they schedule and cancel
  `update` on the host's timer. They have no logic of their own.
  `Life.StepN` stands for repeated ticks.
- The configuration defaults for `frameRate`, `cellSize` and `blur`
  (src/GameOfLife.ts:28-30), and `baseElement`. They only feed rendering
  and timing.
- `Math.random` and `Math.floor` (src/GameOfLife.ts:58-59): the random
  source is a sequence of candidate draws passed in, each inside the grid.
  `Math.floor(Math.random() * n)` lies in `[0, n)` only when `n > 0`; see
  the zero-dimension line below. The uniformity of the sampling is not
  modelled.
- Engine.GameOfLife.constructor: zero dimensions are not modelled. With
  height 0 the code's draws are row 0 of a grid with no rows, so `init`
  throws at src/GameOfLife.ts:125 once a point is kept; with width 0 it
  writes column 0 of empty rows and leaves a grid that is not
  `height × width`. The model requires every draw to be inside the grid,
  which on such a grid allows no draws and so only `startingAlive <= 0`.
- Engine.GameOfLife.Update: requires the laid-out grid (`Valid()`). The
  code's `update` run before `init`, for instance by a `start` tick, throws
  when it reads `cellStates[0]` (src/GameOfLife.ts:72-82, 97); that failure
  is not modelled. The same holds for `Engine.GameOfLife.GetActiveNeighbours`.
- Engine.GameOfLife.RandomStartPoints: the code's loop never ends when the
  draws do not hold enough distinct points, in particular when more points
  than cells are asked for. The model requires enough distinct draws
  instead of modelling the divergence.
- Engine.GameOfLife.Init: requires the freshly constructed, empty matrix.
  Running the code's `init` a second time would append a second block of
  rows; that repeated use is not modelled.
- The dimensions are `nat`. The code's `number` configuration values could
  be fractional or negative; such configurations are not modelled.
- Rows are values (`seq<bool>`), not shared arrays. In the code the rows of
  the local `newCellStates` become the rows of `cellStates`, but the local
  is discarded, so this sharing cannot be observed.
