# Falling-sand simulation engine, modelled in Dafny

This project models the simulation engine of a small "falling sand" program.
The world is a fixed `W` by `H` grid of cells, stored row after row in one flat
array. Each cell holds a material: `None` (empty) or `Sand`. Once per frame the
scheduler scans the grid and hands every sand cell to the falling rule:

- A grain in the bottom row stays put.
- Otherwise it claims the first empty cell among: directly below; then the
  diagonal below on the left and the one on the right, left first on even
  frames and right first on odd frames.
- When the grain moved, the scheduler clears its old cell.

The scheduler visits rows from the bottom to the top. Within a row it visits
columns left to right on even frames and right to left on odd frames.

The model has four modules, one per component of the engine:

- `Grid` (`grid.dfy`): the `CellType` datatype, the bounds predicate and the
  row-major `Index(w, h, x, y) = y * w + x`, with its range and injectivity.
- `SandRule` (`sand_rule.dfy`): the falling rule as functions of the cells.
  `SandTarget` is the cell a grain claims and `SandMove` is the world after
  the claim.
- `Scheduler` (`scheduler.dfy`): one dispatch, one row scan, the bottom-up
  scan of all rows (`Step`) and `k` consecutive frames (`Run`), as functions
  of the cells. Beside them are the lemmas about a frame: conservation of sand,
  the bottom row, the scan order, where each grain lands and a lone grain.
- `Simulation` (`world.dfy`): the class `World` that owns the cell array and
  updates it in place. It has the accessor, the two diagonal claims, the
  falling rule and the frame step as methods. Each is proved against the
  functions above.

The grid dimensions are constructor parameters (`W >= 1`, `H >= 1`) instead of
the fixed 200 by 200. The frame counter is a `nat`. The program's counter is an
unsigned 64-bit integer, and wrap-around at 2^64 does not change its parity,
which is all the engine uses.

The engine defines only the two materials above. Water appears in the
material enumeration only as a commented-out entry (src/main.cpp:14), so the
model has no water.

## Model

| member | source | states |
|---|---|---|
| `Grid.Index` | src/main.cpp:24-29 | The flat position of an in-bounds cell lies in `[0, W*H)`, inside the stretch `[y*W, (y+1)*W)` that holds row `y`. |
| `Grid.IndexInjective` | src/main.cpp:24-36 | Two in-bounds coordinate pairs have the same flat position exactly when they are the same pair. |
| `Simulation.World.GetParticle` | src/main.cpp:31-36 | Reading (x, y) yields exactly the array element at `y*W + x`. Bounds violations are excluded by the precondition. |
| `Simulation.World.SetParticle` | src/main.cpp:24-29 | Writing through the accessor changes the element at `y*W + x` to the given material and changes no other element. |
| `Simulation.World.constructor` | src/main.cpp:155 | A new world of `W*H` cells in which every cell is empty, as the value-initialised cell array (its type is declared at src/main.cpp:22) starts. |
| `SandRule.SandTarget` | src/main.cpp:38-93 | A grain in the bottom row claims nothing. A claimed cell is free, lies in row `y+1` and is at most one column away. The grain stays only if all in-bounds cells below are occupied. |
| `SandRule.SandTargetIsFirstFree` | src/main.cpp:45-90 | Off the bottom row, the claim is the first free column in the order: below; then left-below on even frames or right-below on odd frames; then the other diagonal. The grain stays exactly when none of the three is free. |
| `SandRule.SandMove` | src/main.cpp:38-93 | Without a move the world is unchanged. With a move, exactly one free cell of row `y+1` within one column of `x` receives the new material, and nothing else changes. |
| `SandRule.SandMoveFrame` | src/main.cpp:38-93 | No cell outside the three cells below the grain changes. The rule reports a move exactly when the grain is off the bottom row and one of those cells is free. |
| `Simulation.World.DoLeft` | src/main.cpp:56-66 | The left-below claim writes only when no move was made yet and the cell is inside the world and empty. Otherwise it changes nothing and keeps the flag. |
| `Simulation.World.DoRight` | src/main.cpp:69-79 | The same as the left-below claim, for the right-below cell. |
| `Simulation.World.SimulateSand` | src/main.cpp:38-93 | The array after the call, and the returned flag, are exactly `SandMove` of the array before the call. |
| `Simulation.World.UpdateCell` | src/main.cpp:102-117 | The array after one visit of (x, y) is exactly `Dispatch` of the array before it: a sand cell is handed to the falling rule with the frame's parity and cleared if it moved, and an empty cell is left alone. |
| `Scheduler.Dispatch` | src/main.cpp:102-117 | One visit of (x, y). A sand cell is handed to the falling rule with `Sand` as the new material and the frame's parity, and the cell is cleared only when the rule reports a move. An empty cell is left as it is. The world keeps its size. |
| `Scheduler.ScanRow` | src/main.cpp:100-118 | The first `n` visits of row `y`. The `j`-th visit is column `j` on even frames and column `W-1-j` on odd frames, and each visit sees the world the previous one left. |
| `Scheduler.ScanRows` | src/main.cpp:98-119 | The bottom `m` rows scanned, row `H-1` first, each row completely before the one above it. |
| `Scheduler.Step` | src/main.cpp:95-120 | One frame: all `H` rows scanned bottom to top, with the column direction and the diagonal preference both taken from whether the frame number is even. |
| `Scheduler.Run` | src/main.cpp:201-206 | `k` frames in a row. The frame number rises by one after each frame, as the frame loop passes its counter to the step and then increments it. |
| `Scheduler.DispatchShape` | src/main.cpp:102-117 | Visiting a cell either changes nothing, or moves a sand grain from (x, y) into a free cell of row `y+1` within one column and clears (x, y). |
| `Scheduler.DispatchFrame` | src/main.cpp:102-117 | Visiting (x, y) changes no cell other than (x, y) and the cells of row `y+1`. |
| `Scheduler.DispatchConserves` | src/main.cpp:102-117 | Visiting a cell leaves the multiset of cells unchanged. |
| `Scheduler.StepConservesSand` | src/main.cpp:95-120 | A whole frame is a permutation of the cells. In particular the number of sand cells is unchanged. |
| `Scheduler.DispatchKeepsBottomSand` | src/main.cpp:40-41 | A sand cell in the bottom row is still sand after any single visit. |
| `Scheduler.StepKeepsBottomSand` | src/main.cpp:95-120 | Sand in the bottom row is still there after a frame. |
| `Scheduler.ScanRowAhead` | src/main.cpp:100-118 | Visiting the first `n` columns of row `y` changes no higher row and no cell of row `y` not yet visited. |
| `Scheduler.ScanRowsAhead` | src/main.cpp:98-119 | Scanning the bottom `m` rows changes no row above them. |
| `Scheduler.DispatchSeesFrameStart` | src/main.cpp:97-102 | When the scan reaches a cell, the cell still holds its content from the start of the frame. A grain moved earlier in the frame lands only in visited cells and is never dispatched again. |
| `Scheduler.DispatchFed` | src/main.cpp:102-117 | A visit to a cell that still holds its frame-start content keeps every sand cell traceable to frame-start sand in the same cell or in one of the three cells above it. |
| `Scheduler.StepDescendsAtMostOneRow` | src/main.cpp:95-120 | After a frame, every sand cell held sand at the start of the frame, or one of the three cells directly above it did. This is a statement per cell; the statement per grain is `Scheduler.StepMovesEachGrain`. |
| `Scheduler.FrameProperties` | src/main.cpp:95-120 | The frame-level guarantees together: the cells are permuted, bottom-row sand stays, and every sand cell is fed from the frame-start world. |
| `Scheduler.Reached` | src/main.cpp:97-102 | The world the scan sees when it reaches (x, y): every row below scanned completely, and the cells of row `y` that come before (x, y) in the frame's direction visited. |
| `Scheduler.Landing` | src/main.cpp:38-117 | The cell where the frame-start grain at (x, y) ends the frame. It is (x, y) itself, or a cell of row `y+1` at most one column away that was free when the scan reached the grain. |
| `Scheduler.VisitMovesToLanding` | src/main.cpp:102-117 | When the scan reaches a frame-start grain, the cell still holds it. The visit writes sand into the landing cell and clears (x, y), or changes nothing when the grain lands in place. |
| `Scheduler.DispatchKeepsSand` | src/main.cpp:102-117 | A visit removes sand only from the visited cell: the rule writes only into empty cells, and the scheduler clears only the cell it visits. |
| `Scheduler.LandingKept` | src/main.cpp:97-119 | Once a grain has landed, its landing cell holds sand at every later point of the same frame's scan. |
| `Scheduler.GrainLands` | src/main.cpp:95-120 | Every frame-start grain is in its landing cell after the frame. |
| `Scheduler.LandingInjective` | src/main.cpp:95-120 | Two frame-start grains have the same landing cell exactly when they are the same grain. |
| `Scheduler.DispatchAccounted` | src/main.cpp:102-117 | A visit keeps every sand cell accounted for: it is a frame-start grain not yet visited, or the landing cell of a grain already visited. |
| `Scheduler.StepMovesEachGrain` | src/main.cpp:95-120 | A frame matches the frame-start grains one to one with the sand cells after it, each grain ending in its landing cell. No grain vanishes or is duplicated, none rises, and none falls more than one row or moves more than one column. |
| `Scheduler.SingleGrainStep` | src/main.cpp:40-53 | On an otherwise empty world, a lone grain at (x, y) above the bottom row is at (x, y+1) after one frame, for either parity. On the bottom row it stays. |
| `Scheduler.GrainFallsToFloor` | src/main.cpp:95-120 | Over `k` consecutive frames, a lone grain starting in row `y` with `y + k < H` ends at (x, y+k). In particular a grain from row 0 reaches the bottom row after `H-1` frames. |
| `Scheduler.RowWithOneGrain` | src/main.cpp:100-118 | Scanning a row whose only occupied cell is (x, y) has the same effect as visiting (x, y) alone. |
| `Simulation.World.StepSimulation` | src/main.cpp:95-120 | The array after the call is exactly `Step` of the array before it: rows bottom to top, columns in the parity's direction, each moved grain's source cleared. The multiset of cells is kept and bottom-row sand stays. Every sand cell is fed from itself or from the row above. Every frame-start grain is in its landing cell, and every sand cell is the landing cell of some frame-start grain. |

## Left out

- `drawWorld`: it only renders cells to the screen through SDL calls, colours and rectangles.
- `main`: window and renderer setup, event polling, mouse state and the frame loop are I/O. Its first call to `stepSimulation` omits the frame argument and does not compile, so only the well-formed call is reflected. `Scheduler.Run` models consecutive frames with increasing frame numbers.
- The 4-bit bit-field of the cell record: a cell is modelled by its material alone.
- The `assert` bounds checks in the accessor become preconditions. The abort they cause is not modelled.
- The fixed 200 by 200 world size and the cell scale of the display: the size is a parameter.
- Water: it is only a commented-out enumerator (src/main.cpp:14) and has no rule in the code.
