# shrinky: grid drain simulation and shared 2-D utilities, in Dafny

This project models the two pieces of pure, sequential logic in the shrinky
arcade prototype and proves properties about them.

* **The grid simulation** (`include/shrinky.h`, `src/shrinky.cpp`):
  * the `Drainer` cursor and its clamped `move`;
  * the `Cell` with its linearly decaying fill level, `fill`, `drain` and the epsilon-guarded `isEmpty`;
  * the `Grid` of cells with its list of available positions, `drainCell`, `fillCell` and `update`.
* **The utility layer** (`include/utils.h`, `src/utils.cpp`):
  * the `Object2D` edges;
  * the axis-aligned overlap test `areColliding` and `Object2D::isColliding`;
  * the `Score` accumulator.

The model follows the code as written, not as its comments intend:

* `Drainer::move` has no `break`, so each case falls through into the ones below it.
* Each upper clamp in `move` is the bound itself.
* `drainCell` does not put the position back on the available list.
* `fillCell` has an empty body.
* `Grid::update` reports no misses.

The corrected cursor movement is modelled as well, next to the as-written one (see "## Findings").

Modelling conventions:

* Everything is an immutable datatype with pure functions. Each mutating member function of the source becomes a function that returns the new value.
* A C++ `assert` in a constructor is modelled as an `Option` result. `None` is the abort.
* Undefined behaviour is modelled as a `requires`. That covers indexing the grid out of range and signed 64-bit overflow.
* Storing an `int` into an `int8_t` is modelled by `Ints.ToInt8`, which takes the value modulo 256.
* Cell levels, rates and `dt` are `real`, with `dt` in seconds. The epsilon is exactly 0.0001.
* Object positions are non-negative integers.

Modules, one file each:

* `Options`, `Ints`: helper types.
* `Positions`: `PlayerMove` and `GridPosition`.
* `Drainers`, `Cells`, `Grids`: the grid simulation.
* `Collision`: `Object2D` and the overlap test.
* `Scores`: the `Score` accumulator.

## Model

| member | source | states |
|---|---|---|
| Positions.MakePosition | include/shrinky.h:16-21 | a position is built exactly when row >= 0 and col >= 0, and then it holds the given coordinates; otherwise the assertion aborts |
| Drainers.NewDrainer | src/shrinky.cpp:7-14 | the constructor succeeds exactly when row, col >= 0 and width, height > 0; it stores the position and the two bounds |
| Drainers.Move | src/shrinky.cpp:16-29 | the closed form of each direction after fall-through: RIGHT sets col to min(w, col+1) and keeps row; LEFT gives min(w, max(0, col-1)+1); DOWN also runs the column updates; UP runs all four; the bounds never change and no `int8_t` store wraps |
| Drainers.MoveLeftKeepsColumn | src/shrinky.cpp:24-27 | LEFT keeps the column exactly when 1 <= col <= width, and it never changes the row |
| Drainers.MoveUpKeepsRow | src/shrinky.cpp:20-27 | UP keeps the row exactly when 1 <= row <= height, and it moves the column as LEFT does |
| Drainers.MoveStaysInBounds | src/shrinky.cpp:16-29 | from a valid start within 0..bound, one move stays valid and within 0..bound inclusive |
| Drainers.MoveAllStaysInBounds | src/shrinky.cpp:16-29 | any sequence of moves stays within 0..height and 0..width and leaves the constructor's bounds unchanged |
| Drainers.MoveDownLeavesGrid | src/shrinky.cpp:22-23 | DOWN from the last row reaches row == height, which is not a cell of the grid |
| Drainers.UpLeftFromCornerAsWritten | src/shrinky.cpp:18-28 | in a 4x4 grid, UP then LEFT from (0,0) ends at (1,1) |
| Drainers.MoveIntended | src/shrinky.cpp:16-29 | corrected move: only the named axis changes, by at most one, clamped to 0..bound-1 |
| Drainers.MoveIntendedStaysOnCell | src/shrinky.cpp:16-29 | the corrected move keeps a drainer that starts on a cell on a cell |
| Drainers.MoveAllIntendedStaysOnCell | src/shrinky.cpp:16-29 | any sequence of corrected moves keeps the drainer on a cell |
| Drainers.UpLeftFromCornerIntended | src/shrinky.cpp:18-28 | with the corrected move, UP then LEFT from (0,0) stays at (0,0) |
| Drainers.MoveAgreesWithIntended | src/shrinky.cpp:16-29 | the as-written and corrected moves agree on RIGHT away from the last column and on DOWN away from the last row and first column; they differ on RIGHT at the last column, and on LEFT and UP whenever the corrected move would move |
| Cells.Fill | src/shrinky.cpp:51-55 | after `fill(r)` the level is 1 and the rate is r, so the cell is not empty |
| Cells.Drain | src/shrinky.cpp:57-61 | after `drain` the level and rate are 0, the cell is empty, and it equals a default cell |
| Cells.Update | src/shrinky.cpp:63-66 | the new level is never negative; it is either 0 or the old level minus dt * rate, and never below that; it is non-increasing when dt * rate >= 0; `update(0)` is the identity; the rate is kept |
| Cells.DefaultIsEmpty | include/shrinky.h:75-76 | a default cell has level 0 and rate 0, so it is empty |
| Cells.DrainIdempotent | src/shrinky.cpp:57-61 | draining twice is the same as draining once |
| Cells.FillThenUpdateZero | src/shrinky.cpp:51-66 | `fill(r)` then `update(0)` leaves the cell exactly full |
| Cells.FillThenUpdate | src/shrinky.cpp:40-66 | a filled cell after dt seconds holds max(0, 1 - dt * r); the level is 0 iff dt * r >= 1, and the cell is empty iff dt * r > 1 - 0.0001 |
| Cells.ShrinkRateExamples | include/shrinky.h:62-67 | the documented examples hold: rate 0.5 for 1 s leaves 0.5; rate 1.0 for 1 s leaves 0 (empty); rate 2.0 for 0.5 s leaves 0 |
| Cells.UpdatePreservesWellFormed | src/shrinky.cpp:63-66 | a forward update keeps level in [0,1] and rate >= 0, and keeps an empty cell empty |
| Cells.UpdateAllNonIncreasing | src/shrinky.cpp:63-66 | any run of forward updates keeps the cell well-formed, never raises its level, keeps its rate, and keeps it empty once empty |
| Grids.NewGrid | src/shrinky.cpp:71-83 | the constructor succeeds exactly when every position it builds passes GridPosition's assertion; the grid then has height rows of width default (empty) cells and lists the positions in loop order |
| Grids.RowMajorContains | src/shrinky.cpp:76-82 | the loops push every (i, j) with i < height and j < width, after narrowing to `int8_t` |
| Grids.RowMajorMembership | src/shrinky.cpp:76-82 | with both sizes at most 128, a position is pushed iff 0 <= row < height and 0 <= col < width |
| Grids.RowMajorSorted | src/shrinky.cpp:76-82 | with both sizes at most 128, the pushed positions strictly increase in row-major order, so each appears exactly once |
| Grids.NewGridSucceedsIff | src/shrinky.cpp:74-80 | the constructor aborts exactly when one size exceeds 128 and the other is non-zero |
| Grids.NewGridAvailable | src/shrinky.cpp:71-83 | a constructed grid lists height*width positions, exactly the grid's positions, once each in row-major order, and each is an empty cell |
| Grids.DrainCell | src/shrinky.cpp:85-99 | on an empty cell: false, ret = 0, nothing changes; otherwise: true, ret = the prior level, only that cell is drained; the available list and the shape never change |
| Grids.FillCell | src/shrinky.cpp:101-105 | filling changes no state |
| Grids.UpdateRow | src/shrinky.cpp:112-115 | the inner loop applies `Cell::update(dt)` to every cell of a row |
| Grids.UpdateGrid | src/shrinky.cpp:107-117 | every cell becomes its `Cell::update(dt)`; the shape and the available list are unchanged |
| Grids.DrainCellPreserves | src/shrinky.cpp:85-99 | on any grid, `drainCell` keeps every level in [0,1] and keeps every listed position an empty cell |
| Grids.UpdateGridPreserves | src/shrinky.cpp:107-117 | on any well-formed grid, a forward update keeps it well-formed, keeps empty cells empty, and keeps listed positions empty |
| Grids.UpdateGridZero | src/shrinky.cpp:107-117 | on a well-formed grid, `update(0)` changes nothing |
| Grids.Step | src/shrinky.cpp:85-117 | one caller operation (drain at a position, fill, or update) keeps the grid's shape and its available list |
| Grids.Run | src/shrinky.cpp:85-117 | any sequence of caller operations keeps the grid's shape and its available list |
| Grids.StepKeepsPristine | src/shrinky.cpp:85-117 | from a grid of default cells, every operation leaves only default cells |
| Grids.RunKeepsPristine | src/shrinky.cpp:85-117 | from a grid of default cells, any sequence of operations leaves only default cells |
| Grids.ReachableAvailableIffEmpty | include/shrinky.h:85-92 | in every state reachable from a constructed grid, a position is available exactly when it names an empty cell |
| Collision.Right | src/utils.cpp:40-43 | right == left + width |
| Collision.Bottom | src/utils.cpp:50-53 | bottom == top + height |
| Collision.AreCollidingIffOverlap | include/utils.h:104-119 | colliding holds iff both axes overlap strictly; it is false when a.left >= b.right or a.right <= b.left, and when a.top >= b.bottom or a.bottom <= b.top |
| Collision.AreCollidingSymmetric | include/utils.h:106-116 | areColliding(a, b) == areColliding(b, a) |
| Collision.SelfCollision | include/utils.h:104-119 | an object collides with itself iff its width and height are positive |
| Collision.AreCollidingIffSharedPoint | include/utils.h:104-119 | for objects of positive size, colliding holds iff the two boxes share an integer point |
| Collision.IsColliding | src/utils.cpp:62-71 | true iff some element of the list collides with the object; false for an empty list |
| Scores.NewScore | src/utils.cpp:76-81 | the constructor sets the score to the initial score |
| Scores.DefaultScoreIsZero | include/utils.h:84 | the default initial score is 0 |
| Scores.SetScore | src/utils.cpp:83-86 | after `setScore(v)` the score is v |
| Scores.SetThenGet | src/utils.cpp:83-91 | `getScore` after `setScore(v)` returns v, and a later set overrides an earlier one |
| Scores.AddScore | src/utils.cpp:93-96 | `addScore(v)` adds exactly v |
| Scores.SubtractScore | src/utils.cpp:98-101 | `subtractScore(v)` subtracts exactly v |
| Scores.AddSubtractRoundTrip | src/utils.cpp:93-101 | add then subtract the same value restores the score, and so does subtract then add |

## Left out

- All of `src/main.cpp`. It holds the SDL event loop, rendering, fonts, the runner game's obstacle thread with its mutex and condition variable, and `rand()`-based float generation. That is I/O, concurrency and floating point, and it never calls the grid.
- Every `draw` method: `Cell::draw`, the empty `Grid::draw`, and `Score::draw`. They do SDL rendering and resource handling. The same goes for the fields that serve only drawing: `Score`'s font, rectangle, surface and texture, and `Grid`'s drainer reference.
- `Vector2D` arithmetic and `Object2D::updateMotion`. They are float kinematics using `pow`.
- IEEE float behaviour. Levels, rates and `dt` are reals, and 0.0001 is exact. Float rounding in `update` and in the epsilon comparison is not modelled.
- The random choice of a cell to fill, the scoring formula, the difficulty ramp and miss counting. There is no code for them: `fillCell` has an empty body, and `update` returns nothing.
- Builds with `NDEBUG`. Assertions are modelled as enabled, so a failed assertion aborts.
- Collision.Right: does not model the float-to-`uint32_t` conversion of the position or `uint32_t` wrap-around. Positions are non-negative integers, and the sum is unbounded.
- Collision.Bottom: the same as for Collision.Right.
- Cells.UpdatePreservesWellFormed: assumes rate >= 0 as part of well-formedness. A negative rate would raise the level above 1. In reachable states every rate is 0.
- Grids.UpdateGridPreserves: relies on the same rate >= 0 assumption.

## Findings

| source | as written | input that shows it | evidently intended | confidence | as-written member | corrected member |
|---|---|---|---|---|---|---|
| src/shrinky.cpp:18-28 | the `switch` cases have no `break`, so UP also runs DOWN, LEFT and RIGHT, and LEFT also runs RIGHT | 4x4 grid, drainer at (0,0), UP then LEFT ends at (1,1) | each move changes only its own axis, so the drainer stays at (0,0) | high, not executed | Drainers.UpLeftFromCornerAsWritten | Drainers.UpLeftFromCornerIntended |
| src/shrinky.cpp:23 | DOWN clamps the row to the grid height, not height - 1; RIGHT at line 27 does the same for the column and width | 4x4 grid, drainer at row 3, DOWN gives row 4, which is not a row of the grid | the drainer stays on a cell: row < height and col < width | high, not executed | Drainers.MoveDownLeavesGrid | Drainers.MoveAllIntendedStaysOnCell |
