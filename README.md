# Conway's Game of Life on a bounded grid

This project models the simulation core of `life.js`, a browser Game of Life:

- **`World`**: a rectangle of `numColumns` × `numRows` cells, stored row-major in one array.
  - `createGrid` fills the array.
  - `gridToIndex` maps a column/row pair to its array index.
  - `isAlive` reads a cell as 1 or 0. Positions off the grid read as dead.
  - `checkSurrounding` advances the whole grid by one generation. It uses Conway's rule: a live cell survives with two or three live neighbours, and a dead cell is born with exactly three. The rule is evaluated for every cell against the old generation, using a per-cell scratch flag (`nextAlive`), and then committed.
  - `addPattern` stamps a template (blinker or glider) at an anchor.
- **The pattern table**, and the mouse-wheel rule that cycles the selected pattern index through it.

The model is split into four modules:

- `Patterns` (`patterns.dfy`): the offsets of the pattern table and the wheel's cyclic index update.
- `Rules` (`rules.dfy`): the pure specification of the core, on liveness snapshots (`seq<bool>` in row-major order):
  - `GridToIndex` and its inverse;
  - `AliveAt` (the `isAlive` query);
  - `NeighbourCount`, `NextState` and `Step` (one generation);
  - `StampTargets` and `Stamp` (what `addPattern` writes).
- `Life` (`life.dfy`): the `World` class with the source's own mutable state, a sequence of `Cell` records with `gridX`, `gridY`, `alive` and `nextAlive`. Each method is proved against a specification function: `Life.FreshCells` for the constructor and `CreateGrid`, `Rules.AliveAt` for `IsAlive`, `Rules.Step` and `Rules.Stamp` for the rest:
  - `CheckSurrounding` keeps both nested loops and the commit loop, and ends in the state `Step` describes.
  - `AddPattern` ends in the state `Stamp` describes.
  - `StampPattern` is a bounds-checked stamp: a stamp that would leave the grid is rejected with `OutOfBounds` and leaves the grid unchanged (see Findings).
- `Scenarios` (`scenarios.dfy`): the classic behaviours of the rule on the model. The block is still life. The blinker has period two. The glider, stamped by `addPattern`, reappears one cell down and right after four generations. These are proved by reducing each grid step to a finite check of the pattern's offsets on the unbounded plane.

A robust version of the core would report three errors:

- `InvalidDimension` for non-positive grid sizes;
- `OutOfBounds` for a stamp that would leave the grid, applied all-or-nothing;
- `IndexOutOfRange` for a pattern index outside the table.

`life.js` performs none of these checks, and the model follows the code. The grid dimensions and the pattern index are preconditions of the members that use them. The out-of-grid stamp is recorded as a finding below: the model keeps the unchecked `AddPattern` as written and adds the checked `StampPattern` with the `OutOfBounds` outcome.

## Model

| member | source | states |
|---|---|---|
| Patterns.PatternShapes | life.js:12-27 | The table `PatternTable` holds two patterns, `Blinker` then `Glider`. The blinker is the three cells (0, 0), (0, 1), (0, 2) of the anchor's row. The glider is five distinct cells, within rows 0 to 2 and columns -1 to 1 of the anchor. |
| Patterns.WheelStep | life.js:145-153 | For an index in the table, the new index stays in the table. A positive `deltaY` moves to the next index modulo the table length; any other `deltaY` moves to the previous index modulo the table length. |
| Patterns.WheelWraps | life.js:149-153 | Scrolling forward from the last pattern selects the first, and scrolling backward from the first selects the last. |
| Patterns.WheelRoundTrip | life.js:149-153 | A forward scroll then a backward one, in either order, returns to the original index. |
| Rules.GridToIndex | life.js:81-83 | For an on-grid column at a non-negative row, the index is non-negative, and dividing it by the column count gives back the row and the column. |
| Rules.GridToIndexInRange | life.js:81-83 | Every on-grid position has its index in `[0, numColumns * numRows)`. |
| Rules.IndexToGrid | life.js:81-83 | Every array index is the index of an on-grid position, its quotient row and remainder column, and of no other on-grid position. |
| Rules.GridToIndexBijection | life.js:81-83 | `gridToIndex` is a bijection between the grid positions and the array indices. |
| Rules.AliveAt | life.js:85-90 | The query answers 0 or 1, and 0 at every position off the grid. |
| Rules.NeighbourCount | life.js:95-103 | The eight-neighbour sum lies between 0 and 8. |
| Rules.NextState | life.js:107-113 | A live cell lives on exactly when it has 2 or 3 live neighbours. A dead cell comes alive exactly when it has 3. |
| Rules.Step | life.js:92-119 | The next generation has one flag per cell. A cell is alive in it exactly when it had 3 live neighbours, or was alive with 2. |
| Rules.StepAt | life.js:92-119 | Each on-grid cell of the next generation is `NextState` applied to that cell's old liveness and its old neighbour count. |
| Rules.CornerCountAtMostThree | life.js:85-103 | Each of the four corner cells has at most three live neighbours, because the off-grid neighbours read as dead. |
| Rules.BorderCountAtMostFive | life.js:85-103 | A cell on the border has at most five live neighbours. |
| Rules.AllDeadReadsDead | life.js:85-90 | On an all-dead grid, every position reads 0. |
| Rules.AllDeadStaysDead | life.js:92-119 | An all-dead grid stays all dead after a step. |
| Rules.StampTargets | life.js:74-77 | One index per offset of the pattern. When an offset lands in a grid column at a non-negative row, its index is the storage index of that column and row. |
| Rules.Stamp | life.js:75-77 | Stamping never kills a cell. Every in-array target becomes alive. A cell that comes alive is one of the targets. |
| Rules.FittingTargetsInArray | life.js:73-79 | When every cell of the pattern lands on the grid, every index written by the stamp lies in the array. |
| Rules.GliderWrapsAtLeftEdge | life.js:73-79 | Anchored at column 0, the glider does not fit, yet every index it writes is in the array. Its offset (2, -1) brings the last column of the row below to life, a cell that is not part of the glider's shape. |
| Rules.StampFitting | life.js:73-79 | After stamping a pattern that fits, a position is alive exactly when it was alive before or it is the anchor plus one of the pattern's offsets. |
| Rules.StampIdempotent | life.js:73-79 | Stamping the same targets twice changes nothing further. |
| Life.FreshCells | life.js:67-71 | The cells `createGrid` appends: one per position, in row-major layout. Their liveness is exactly the initial draw, and none has a pending next state. |
| Life.FreshCellsAt | life.js:67-71 | The cell that `createGrid` puts at `gridToIndex(x, y)` has coordinates (x, y) and the liveness drawn for that index. |
| Life.MarkNext | life.js:95-113 | One write of the first pass changes only the scratch flag of the visited cell. That flag becomes the cell's entry in `Step` of the current liveness. Every other cell is unchanged. |
| Life.Visit | life.js:93-115 | The first pass, in any visiting order, changes only scratch flags: coordinates and liveness stay as they were. |
| Life.VisitReadsOldLiveness | life.js:92-116 | Visiting cells in any order leaves every cell's coordinates and liveness unchanged. Each visited cell's scratch flag becomes the rule's verdict on the old generation; each unvisited cell keeps its scratch flag. |
| Life.VisitOrderIrrelevant | life.js:92-119 | When every cell is visited, in whatever order, the commit yields exactly the next generation `Step`. |
| Life.Commit | life.js:117-118 | The second pass sets each cell's liveness to its scratch flag and changes nothing else. |
| Life.CommitScratch | life.js:117-118 | The commit loop copies each scratch flag into `alive` and keeps the row-major layout. |
| Life.World.constructor | life.js:57-65 | A new world has the given dimensions and a valid row-major grid whose liveness is the supplied initial draw. No cell has a pending next state. |
| Life.World.CreateGrid | life.js:67-71 | The loop appends exactly `FreshCells`: one cell per position, in row-major order, with the supplied liveness. |
| Life.World.IsAlive | life.js:85-90 | Reading the grid gives exactly what `AliveAt` gives on the liveness snapshot: 0 or 1 on the grid, 0 off it. |
| Life.World.IsAliveMeansLiveCell | life.js:85-90 | `isAlive(x, y)` is 1 if and only if the array holds a live cell whose coordinates are (x, y), and 0 otherwise. |
| Life.World.CellAtCoordinates | life.js:67-83 | The only cell carrying coordinates (x, y) is on the grid and stored at `gridToIndex(x, y)`. |
| Life.World.CheckSurrounding | life.js:92-119 | The grid stays valid. The new liveness snapshot is `Step` of the old one. Every scratch flag equals the committed liveness. |
| Life.World.AddPattern | life.js:73-79 | When every target index is in the array, the new snapshot is the old one stamped at `StampTargets`. Scratch flags are unchanged. |
| Life.World.StampPattern | life.js:73-79 | The stamp succeeds if and only if the pattern fits the grid. On success, the new snapshot is the stamped old one. On `OutOfBounds`, the grid is unchanged. |
| Scenarios.ShapeCountIsAdjacentCount | life.js:95-103 | For a shape without repeated offsets, counting live neighbours around a position equals counting the shape's offsets adjacent to it. |
| Scenarios.StepDrawn | life.js:92-119 | If the rule turns shape A into shape B on the unbounded plane, and A fits the grid, then one step of the grid turns drawn A into drawn B. |
| Scenarios.StampOnDeadDraws | life.js:73-79 | Stamping a fitting pattern onto an all-dead grid gives exactly the drawing of that pattern. |
| Scenarios.BlockEvolves | life.js:107-113 | On the plane, the 2×2 block is mapped to itself. |
| Scenarios.BlinkerEvolves | life.js:12-18 | On the plane, the table's horizontal blinker becomes a vertical line through its middle cell. |
| Scenarios.BlinkerTurnedEvolves | life.js:12-18 | On the plane, the vertical line becomes the horizontal blinker again. |
| Scenarios.GliderEvolves1 | life.js:19-26 | On the plane, the table's glider becomes its first successor phase. |
| Scenarios.GliderEvolves2 | life.js:19-26 | On the plane, the first glider phase becomes the second. |
| Scenarios.GliderEvolves3 | life.js:19-26 | On the plane, the second glider phase becomes the third. |
| Scenarios.GliderEvolves4 | life.js:19-26 | On the plane, the third glider phase becomes the table's glider shifted one row down and one column right. |
| Scenarios.BlockIsStable | life.js:92-119 | A block drawn on an otherwise dead grid is unchanged by a step. |
| Scenarios.BlinkerFlips | life.js:92-119 | On the grid, the blinker alternates between its horizontal and vertical phases. |
| Scenarios.StampedBlinkerHasPeriodTwo | life.js:12-18 | A blinker stamped onto a dead grid, away from the top and bottom rows, returns to itself after two steps. |
| Scenarios.GliderPhasesFit | life.js:19-26 | With one free column on the left, two on the right and three rows below, every glider phase fits the grid. |
| Scenarios.GliderFits | life.js:19-26 | The glider fits wherever its anchor has a free column on each side and two free rows below. |
| Scenarios.GliderStep1 | life.js:92-119 | On the grid, one step takes the drawn glider to its first phase. |
| Scenarios.GliderStep2 | life.js:92-119 | On the grid, one step takes the first phase to the second. |
| Scenarios.GliderStep3 | life.js:92-119 | On the grid, one step takes the second phase to the third. |
| Scenarios.GliderStep4 | life.js:92-119 | On the grid, one step takes the third phase to the glider anchored one row down and one column right. |
| Scenarios.GliderMovesDiagonally | life.js:92-119 | Four steps move a drawn glider one row down and one column right. |
| Scenarios.StampedGliderIsDrawn | life.js:73-79 | A glider stamped onto a dead grid, at its anchor or one cell down and right, is the drawing of the glider there. |
| Scenarios.StampedGliderMovesDiagonally | life.js:19-26 | Four steps after `addPattern` stamps the glider onto a dead grid, the grid equals the glider stamped one row down and one column right. |

## Left out

- Rendering is not modelled: the canvas and its 2D context, `resize`, `Cell.draw`, the `Cell.context` field and the drawing half of `gameLoop`.
- The animation schedule (`requestAnimationFrame`, `setTimeout`) is not modelled. A run of the loop is repeated application of `CheckSurrounding` and `Step`.
- The random initial liveness (`Math.random() > 0.92`) is replaced by the `initial` parameter of the constructor and `CreateGrid`.
- The grid dimensions, which the source derives from the window size with `Math.ceil`, are positive parameters.
- The click handler's pixel-to-grid conversion (`Math.round` of page coordinates) is not modelled. `AddPattern` takes grid coordinates.
- The wheel event's `deltaY` is modelled as an integer. Only its sign matters to the source.
- The default argument `patternIdx = 0` of `addPattern` is not modelled. The index is always passed.
- Cells are `Cell` values in a sequence owned by the world, so the model has no aliasing between cell objects.
- A new cell's `nextAlive` is modelled as `false`; in the source it is undefined until the first step assigns it.
- Off the grid, `isAlive` returns JavaScript `false`, which adds as 0. The model returns 0.
- Life.World.AddPattern: requires every target index to lie in the array. In the source, an index outside the array makes `this.grid[...]` undefined, and setting `.alive` on it throws a TypeError after the earlier offsets were already set alive. For example, a glider anchored at row `numRows - 2` sets offsets (0, 0) and (1, 1), then throws at (2, 1). This partial stamp followed by a TypeError is not modelled.
- The `InvalidDimension` and `IndexOutOfRange` errors are not modelled, because `life.js` has no such checks. Positive dimensions and an in-table pattern index are preconditions instead.

## Findings

| source | as written | input that shows it | evidently intended | confidence | as-written member | corrected member |
|---|---|---|---|---|---|---|
| life.js:73-79 | `addPattern` writes `grid[gridToIndex(x + col, y + row)]` with no bounds check, so a column offset that leaves the grid wraps into the neighbouring row | the glider (offset `[2, -1]`, life.js:25) anchored at (0, y), with y + 2 < numRows, on a grid with at least 3 columns: it brings to life cell (numColumns - 1, y + 1), at the far right of the row above the offset's intended row, which is not part of the glider | reject a stamp that leaves the grid with `OutOfBounds`, leaving the grid unchanged | not executed | Rules.GliderWrapsAtLeftEdge | Life.World.StampPattern |
