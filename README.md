# Interactive hexagon overlay: a Dafny model

`interactive.js` draws a layer of hexagons over the page, and the hexagons pulse
when the mouse comes near. This project models the logic under the DOM calls and
proves what that logic does:

- **Grid builder** (`buildHexGrid`). The grid has `ceil(W / 39) + 2` columns and
  `ceil(H / hexHeight) + 2` rows, where `hexHeight = sqrt(3) * 26`. Cells are
  emitted in row-major order, and odd columns drop by half a hexagon. A cell's
  centre is its anchor plus `(26, hexHeight / 2)`. With no overlay the builder
  does nothing. Module `GridLayout` holds the arithmetic and the specification of
  a fresh grid. `Interactive.Controller.BuildGrid` holds the nested loops that
  build it.
- **Proximity evaluator** (`updateCells`). One pass runs an inactive/active state
  machine on every cell. The test is `distSq <= 200²`, so the boundary counts as
  in range. The pass writes the pulse `1 - sqrt(distSq) / 200` on every in-range
  pass. It sets the `is-active` class and a random delay in `[0, 0.25)` seconds
  only when a cell becomes active. It removes the class and the pulse only when a
  cell stops being active. Module `Proximity` specifies one cell's step
  (`Step`) and a whole pass (`Evaluated`). `Interactive.Controller.UpdateCells`
  is the in-place loop, and it is proved to compute `Evaluated`.
- **Frame scheduler** (`scheduleUpdate`, and `rafId = null` at the top of the
  callback). This is a one-bit coalescing flag, `pending`. Two ghost counters
  show that at most one callback is ever registered and not yet run.
- **Input adapter** (the mouse-move, mouse-leave and resize handlers, and
  start-up). These overwrite the pointer or park it at `(-200, -200)`, rebuild the
  grid, and ask for a frame.

The script's module-level variables (`overlay`, `hexCells`, `pointer`, `rafId`)
become fields of one `Controller` object. `Valid()` states what holds between
events:

- at most one frame callback is outstanding;
- every element's class and pulse agree with its cell's `active` flag;
- every centre lies on the grid;
- after a pass, a cell is active exactly when that pass's pointer is within 200
  of its centre.

Coordinates are exact `real`s.

The model exposes one detail of the source: the animation delay is never removed.
A cell that deactivates keeps its old delay until it activates again.

For a 1024 × 768 viewport, the code's formulas give 29 columns
(`ceil(1024 / 39) = 27`, plus 2) and 20 rows (`ceil(768 / 45.03…) = 18`, plus 2);
`GridLayout.ColumnsFor1024` and `GridLayout.RowsFor768` prove 29 and 20.

## Model

| member | source | states |
|---|---|---|
| `GridLayout.Ceil` | interactive.js:23-24 | `Math.ceil` on exact reals: the result is the least integer not below its argument |
| `GridLayout.ColumnCount` | interactive.js:21-23 | the columns cover the viewport width, with exactly two columns of overscan beyond the least number that covers it |
| `GridLayout.RowCount` | interactive.js:20-24 | the rows cover the viewport height, with exactly two rows of overscan beyond the least number that covers it |
| `GridLayout.NewCellGeometry` | interactive.js:28-32 | a built cell's centre is its anchor plus (HEX_SIZE, hexHeight/2); it is `(col*hs, row*vs + offsetY - HEX_SIZE + hexHeight/2)` with offsetY 0 for even columns and hexHeight/2 for odd ones; the cell starts inactive with no class, pulse or delay |
| `GridLayout.NewCellSpacing` | interactive.js:21-22 | neighbouring columns are 39 apart; an odd column sits half a hexagon below the even column before it; neighbouring rows are one hexagon apart |
| `GridLayout.NewCellOnGrid` | interactive.js:28-32 | every built centre has x >= 0 and y >= hexHeight/2 - HEX_SIZE |
| `GridLayout.NewCell` | interactive.js:28-41 | the cell built at (row, col): its centre is its anchor plus (HEX_SIZE, hexHeight/2), and it starts inactive with no class, pulse or delay |
| `GridLayout.Layout` | interactive.js:17-43 | the grid built for a viewport holds exactly RowCount * ColumnCount cells; `GridLayout.LayoutCells` gives their contents |
| `GridLayout.GridRow` | interactive.js:27-41 | one row of the inner loop yields exactly as many cells as it has columns |
| `GridLayout.GridRows` | interactive.js:26-43 | the nested loops yield exactly rows * columns cells |
| `GridLayout.GridRowAt` | interactive.js:27-41 | within a row, the cell at position col is the cell built for that column |
| `GridLayout.GridRowsAt` | interactive.js:26-43 | row-major order: the cell built at (row, col) is at index row*columns + col |
| `GridLayout.GridRowsIndex` | interactive.js:26-43 | conversely, index i holds the cell of row i / columns and column i % columns |
| `GridLayout.GridRowsCells` | interactive.js:26-43 | every index of a built grid holds its (row, col) cell, and that cell lies on the grid |
| `GridLayout.LayoutCells` | interactive.js:17-43 | a fresh grid has RowCount * ColumnCount cells in row-major order, all inactive, blank and on the grid |
| `GridLayout.ColumnsFor1024` | interactive.js:21-23 | a 1024-pixel-wide viewport gets 29 columns |
| `GridLayout.RowsFor768` | interactive.js:20-24 | with hexHeight exactly sqrt(3)*26, a 768-pixel-high viewport gets 20 rows |
| `Proximity.DistSq` | interactive.js:52-54 | the squared distance is never negative, and is zero when the pointer is on the centre |
| `Proximity.InRange` | interactive.js:56 | the activation test `distanceSq <= radiusSq`, boundary included; a pointer on the centre is always in range |
| `Proximity.Intensity` | interactive.js:57 | the intensity lies in [0, 1]; it is 1 exactly when the squared distance is 0, and 0 exactly when the squared distance is 200² |
| `Proximity.IntensityFalls` | interactive.js:57 | a closer pointer never gives a weaker pulse, and a strictly closer one gives a strictly stronger pulse |
| `Proximity.Step` | interactive.js:51-69 | after a pass a cell is active exactly when the pointer is within ACTIVE_RADIUS of it, boundary included; centre and anchor never change |
| `Proximity.StepWritesOnEdges` | interactive.js:58-68 | the delay changes only on the inactive-to-active edge, and the class only when the active flag flips; an inactive out-of-range cell is left unchanged |
| `Proximity.StepPulse` | interactive.js:56-58 | every in-range pass writes the current intensity; the pulse is removed only when an active cell leaves range |
| `Proximity.StepActivation` | interactive.js:59-63 | on activation the cell gets the class and a delay of draw*0.25; a cell that was already active keeps its delay and class |
| `Proximity.StepDeactivation` | interactive.js:64-68 | on deactivation the class and pulse are removed and the delay stays |
| `Proximity.StepIdempotent` | interactive.js:51-69 | a second pass with the same pointer changes nothing, whatever random value it draws |
| `Proximity.StepKeepsWellFormed` | interactive.js:56-68 | a pass keeps the class and pulse present exactly on active cells, with the pulse in [0, 1] and the delay in [0, 0.25) |
| `Proximity.PointerAtCentre` | interactive.js:56-58 | a pointer on a centre makes the cell active with intensity 1 |
| `Proximity.PointerOnBoundary` | interactive.js:56-58 | a pointer exactly 200 from a centre makes the cell active with intensity 0 |
| `Proximity.PointerJustOutside` | interactive.js:56-68 | a pointer 201 from a centre leaves the cell inactive with no pulse |
| `Proximity.LeavePointerOutOfRange` | interactive.js:84 | the parked pointer (-200, -200) is out of range of every centre with x >= 0 and y >= -HEX_SIZE |
| `Proximity.Evaluated` | interactive.js:51-69 | a pass keeps the grid's length and every centre and anchor; each cell ends active exactly when it is in range |
| `Proximity.EvaluatedIdempotent` | interactive.js:51-69 | two passes with the same pointer over the same grid give the same cells as one |
| `Proximity.EvaluatedKeepsWellFormed` | interactive.js:51-69 | a pass keeps every element consistent with its cell's active flag |
| `Proximity.EvaluatedAtLeave` | interactive.js:83-85 | with the pointer parked, a pass leaves every cell inactive, without the class and without a pulse |
| `Interactive.Controller.constructor` | interactive.js:3-6 | initial state: no overlay, no cells, no pending frame, and the pointer at the viewport centre |
| `Interactive.Controller.BuildGrid` | interactive.js:15-44 | with an overlay, the cells become exactly the fresh grid for the new size, with nothing kept from the old one; without an overlay nothing changes |
| `Interactive.Controller.UpdateCells` | interactive.js:46-70 | clears the pending flag, then the cells become `Evaluated` of the old cells at the current pointer; with the pointer parked, every cell ends inactive |
| `Interactive.Controller.ScheduleUpdate` | interactive.js:72-76 | registers a callback only when none is pending; afterwards exactly one is pending |
| `Interactive.Controller.AnimationFrame` | interactive.js:46-47 | a display refresh runs the evaluation pass exactly when a callback is pending, and leaves none pending |
| `Interactive.Controller.MouseMove` | interactive.js:78-81 | the pointer becomes the event position and a frame is pending |
| `Interactive.Controller.MouseLeave` | interactive.js:83-86 | the pointer is parked at (-200, -200) and a frame is pending |
| `Interactive.Controller.Resize` | interactive.js:95-98 | the grid is replaced by a fresh build for the new size, and a frame is pending |
| `Interactive.Controller.Initialize` | interactive.js:88-92 | start-up creates the overlay, builds the grid for the viewport, and requests the first frame |
| `Interactive.LeaveSession` | interactive.js:78-99 | after start-up, two mouse moves cost one frame; after the mouse leaves and a frame runs, every cell is inactive and without the class |

## Left out

- DOM plumbing is not modelled. This covers creating the overlay element, its
  class name and `aria-hidden`, and `appendChild`. It also covers clearing the
  overlay with `innerHTML = ''` and writing the `--x`, `--y` and `--size` strings.
  The overlay is a boolean, and each span element is a record of the values those
  calls set.
- The `document.readyState` bootstrap and the `addEventListener` wiring are not
  modelled. Each event is a method call on the controller.
- `requestAnimationFrame` timing is not modelled. A display refresh is the call
  `AnimationFrame`, which runs the registered callback if there is one. The frame
  callback cannot run in the middle of another method.
- `Math.sqrt` becomes the parameter `sqrt`, which is assumed exact on
  non-negative reals. `Math.random()` becomes the parameter `draws`, one value in
  `[0, 1)` per cell, and a pass uses a cell's value only when that cell activates.
- IEEE-754 rounding is not modelled; all arithmetic uses exact reals.
- `toFixed(3)` is not modelled. The pulse is the exact intensity, not a string
  rounded to three places. The `s` suffix of the delay is dropped as well.
- `window.innerWidth` and `window.innerHeight` are not read. The viewport size is
  passed in as a pair of naturals.
- `hexHeight` is fixed for the controller's life and is given as the positive
  real whose square is 3·26². The source recomputes the same value on every build.
- Writes of unchanged values are not counted. The model tracks what each element
  holds, not the stream of DOM calls.
- Calling start-up twice would append a second overlay element. The model keeps
  one overlay.
- `Proximity.DistSq`: states only that a pointer on the centre gives zero. It does
  not state the converse (zero means the same point), because the solver cannot
  prove that step.
- `Proximity.LeavePointerOutOfRange`: covers centres with y >= -HEX_SIZE, not
  every centre below y = -200. Every built centre lies there, and the weaker
  bound keeps the solver's non-linear step small.
