# JavaFX Mandelbrot viewer: pixel buffer and window arithmetic

A Dafny model of the sequential core of the JavaFX Mandelbrot viewer
(`javafxmandelbrot` package). Two classes are modelled:

- `PixelManager`, the pixel buffer the Mandelbrot workers share. It is a
  fixed-capacity array of pixel slots with a write cursor. `add` stores a
  pixel at the cursor and advances it. `run` paints every non-null slot as a
  1x1 fill, in index order, then replaces the array with an empty one of the
  same capacity and resets the cursor. The model keeps the array as a
  sequence of `Option<Pixel>` slots. `run` returns the fills it would draw
  instead of calling the graphics context.
- The integer logic of `MandelbrotApplication`:
  - the tile grid `initCanvas` paints: a white background, then one gray
    rectangle per tile with a 1-pixel white gutter;
  - the colour gradient `sim` pushes through a `PixelManager` of capacity
    `XY_SIZE`;
  - the tile dispatch of `startThreads`: one task per grid cell, and a latch
    that starts at `n*n`;
  - the enablement of the Start and Stop buttons across `handle`,
    `startThreads`, `stopThreads`, `switchButtons` and the mouse handler.

Modules:

- `Wrappers`: `Option` (a Java reference that may be null), `Result`, and the
  Java exceptions this code can reach.
- `Graphics`: colours, `Color.rgb`'s range check, pixels and the
  `fillRect` drawing operation.
- `Grid`: the row-major order in which two nested `for` loops visit
  `[0, rows) x [0, cols)`, plus the division and remainder lemmas this needs.
- `PixelManager`: the buffer.
- `MandelbrotApplication`: the window logic.

Notes on how the model reads the code:

- `add` evaluates `i++` before the array store is bounds-checked. So an
  `add` on a full buffer throws `ArrayIndexOutOfBoundsException` and still
  leaves the cursor at capacity + 1. `Add` models this with an `AddOutcome`
  that carries the state after the throw. Only a successful store preserves
  the array invariant `Valid`. The next `run` restores it.
- `add` accepts `null`. A null slot is skipped when the buffer is drained.
- `initCanvas` draws `n x n` rectangles of `width / n` by `height / n`, so a
  strip of `width mod n` columns and `height mod n` rows stays white
  (`GrayRegion`).
- The buffer is an append-only array with a cursor: a pixel's slot is fixed
  by the order of the `add` calls, not by its coordinates.
- Java's `/` truncates toward zero; Dafny's is Euclidean, which is floor
  division for a positive divisor. They agree here
  because every operand is non-negative: canvas sizes, `i * 256`, and grid
  factors of at least 1.
- Every product fits in a 32-bit `int`: `630 * 630`, `629 * 256` and
  `9 * 9`. So Dafny's unbounded integers give the same results.

## Model

| member | source | states |
|---|---|---|
| PixelManager.New | JavaFXMandelbrot/src/javafxmandelbrot/PixelManager.java:16-19 | a fresh manager has capacity `size`, cursor 0 and satisfies the array invariant (every slot null); a negative size is a `NegativeArraySizeException` |
| PixelManager.Add | JavaFXMandelbrot/src/javafxmandelbrot/PixelManager.java:21-23 | the store succeeds iff 0 <= cursor < capacity; it puts `p` at the cursor and leaves every other slot unchanged; the cursor always advances by one, even when the store throws `IndexOutOfBounds(cursor, capacity)`; capacity is unchanged; on a valid manager a successful store keeps the invariant |
| PixelManager.AddAll | JavaFXMandelbrot/src/javafxmandelbrot/PixelManager.java:21-23 | a run of `add` calls keeps the capacity; when none throws, the cursor advances by the number of pixels; when one throws, it is an `IndexOutOfBounds` and the cursor is one past the failing index |
| PixelManager.AddAllSnoc | JavaFXMandelbrot/src/javafxmandelbrot/PixelManager.java:21-23 | a further `add` after a run of successful adds is the same as one longer run |
| PixelManager.AddAllLayout | JavaFXMandelbrot/src/javafxmandelbrot/PixelManager.java:21-23 | k pixels added to a valid manager with room for them all succeed; they occupy slots cursor..cursor+k-1 in insertion order; earlier slots are kept and later slots stay null; the cursor ends at cursor+k and the invariant holds |
| PixelManager.OverflowThrows | JavaFXMandelbrot/src/javafxmandelbrot/PixelManager.java:18-22 | adding capacity+1 pixels to a fresh manager throws at index `capacity`; the first `capacity` pixels are stored and the cursor is past the end |
| PixelManager.Run | JavaFXMandelbrot/src/javafxmandelbrot/PixelManager.java:31-41 | the drain emits one 1x1 fill per non-null slot, with that pixel's position and colour, at strictly increasing indices that cover every non-null slot; afterwards the capacity is the same, every slot is null, the cursor is 0 and the invariant holds |
| PixelManager.FillsDrainInOrder | JavaFXMandelbrot/src/javafxmandelbrot/PixelManager.java:33-38 | the slot-by-slot definition of the drain selects exactly the non-null slots, in increasing index order, and emits each slot's 1x1 fill |
| PixelManager.FillsEmptyIffAllNull | JavaFXMandelbrot/src/javafxmandelbrot/PixelManager.java:33-40 | a drain emits nothing iff every slot is null, so a second `run` with no `add` in between emits nothing |
| PixelManager.RoundTrip | JavaFXMandelbrot/src/javafxmandelbrot/PixelManager.java:21-38 | adding k <= capacity non-null pixels to a fresh manager never throws, and the drain then emits exactly their fills in insertion order |
| Graphics.PixelFill | JavaFXMandelbrot/src/javafxmandelbrot/PixelManager.java:35-36 | the fill for a pixel paints exactly that pixel's coordinate, in its colour |
| Graphics.Rgb | JavaFXMandelbrot/src/javafxmandelbrot/MandelbrotApplication.java:123 | `Color.rgb` accepts the components iff each lies in [0, 255], and then keeps them |
| Grid.Cells | JavaFXMandelbrot/src/javafxmandelbrot/MandelbrotApplication.java:163-164 | the nested loops visit rows*cols cells, each with 0 <= i < rows and 0 <= j < cols |
| Grid.CellAt | JavaFXMandelbrot/src/javafxmandelbrot/MandelbrotApplication.java:107-108 | cell (i, j) is visited at position i*cols + j, inside the enumeration |
| Grid.CellsOrdered | JavaFXMandelbrot/src/javafxmandelbrot/MandelbrotApplication.java:163-164 | a later visit is at a lexicographically later cell with i as the outer index, so no cell is visited twice |
| Grid.CellsExtend | JavaFXMandelbrot/src/javafxmandelbrot/MandelbrotApplication.java:163-168 | one more inner-loop iteration extends the visited prefix by (i, j) and stays within rows*cols |
| MandelbrotApplication.InitCanvas | JavaFXMandelbrot/src/javafxmandelbrot/MandelbrotApplication.java:94-112 | `initCanvas` paints the full-canvas white background, then exactly n*n gray rectangles; the (1 + k)-th operation is the rectangle of the k-th cell (i, j) the nested loops visit, with origin (i*w, j*h) and size (w-1, h-1), where w = width/n and h = height/n |
| MandelbrotApplication.InitCanvasAt | JavaFXMandelbrot/src/javafxmandelbrot/MandelbrotApplication.java:107-111 | operation 1 + i*n + j of `initCanvas` is tile (i, j)'s rectangle |
| MandelbrotApplication.TileInsideCanvas | JavaFXMandelbrot/src/javafxmandelbrot/MandelbrotApplication.java:104-109 | every tile rectangle, gutter included, lies inside the canvas: i*w + w-1 < width and j*h + h-1 < height |
| MandelbrotApplication.TileOwner | JavaFXMandelbrot/src/javafxmandelbrot/MandelbrotApplication.java:109 | a pixel painted by tile (i, j) has x/w = i and y/h = j and is off the gutter column and row |
| MandelbrotApplication.TilesDisjoint | JavaFXMandelbrot/src/javafxmandelbrot/MandelbrotApplication.java:109 | the rectangles of distinct tiles share no pixel |
| MandelbrotApplication.InitCanvasDisjoint | JavaFXMandelbrot/src/javafxmandelbrot/MandelbrotApplication.java:107-111 | no two gray rectangles drawn by `initCanvas` overlap |
| MandelbrotApplication.GrayInsideGrid | JavaFXMandelbrot/src/javafxmandelbrot/MandelbrotApplication.java:104-111 | a gray rectangle paints only inside [0, n*w) x [0, n*h) and never on a gutter line |
| MandelbrotApplication.TileWithinGrid | JavaFXMandelbrot/src/javafxmandelbrot/MandelbrotApplication.java:104-109 | a pixel painted by the rectangle of a cell (i, j) inside the n x n grid lies in [0, n*w) x [0, n*h) |
| MandelbrotApplication.GrayCoversCell | JavaFXMandelbrot/src/javafxmandelbrot/MandelbrotApplication.java:104-111 | every pixel of [0, n*w) x [0, n*h) off the gutter lines is painted by the rectangle of cell (x/w, y/h) |
| MandelbrotApplication.TileCoversOwnPixel | JavaFXMandelbrot/src/javafxmandelbrot/MandelbrotApplication.java:109 | off the gutter lines, pixel (x, y) lies in the rectangle of tile (x/w, y/h) |
| MandelbrotApplication.GrayRegion | JavaFXMandelbrot/src/javafxmandelbrot/MandelbrotApplication.java:98-111 | a pixel ends up gray iff it lies in [0, n*w) x [0, n*h) and off the gutter lines; the gutters and the `width mod n` / `height mod n` remainder strips stay white |
| MandelbrotApplication.Channel | JavaFXMandelbrot/src/javafxmandelbrot/MandelbrotApplication.java:123 | for 0 <= k < extent, the gradient component (k*256)/extent lies in [0, 255], so `Color.rgb` never throws |
| MandelbrotApplication.ChannelMonotone | JavaFXMandelbrot/src/javafxmandelbrot/MandelbrotApplication.java:123 | the gradient component never decreases as the coordinate grows |
| MandelbrotApplication.SimOrderAt | JavaFXMandelbrot/src/javafxmandelbrot/MandelbrotApplication.java:121-124 | the pixel `sim` adds at position i*Y_PIXEL + j is the gradient pixel of (i, j) |
| MandelbrotApplication.SimStep | JavaFXMandelbrot/src/javafxmandelbrot/MandelbrotApplication.java:121-126 | one inner-loop iteration of `sim` adds the gradient pixel of (i, j) without throwing and extends the run of adds by the next pixel of the loop order |
| MandelbrotApplication.SimLayout | JavaFXMandelbrot/src/javafxmandelbrot/MandelbrotApplication.java:118-126 | the adds of `sim` leave the manager full and valid, slot k holding the k-th pixel of the loop order, and the drain draws XY_SIZE fills in that order |
| MandelbrotApplication.SimOrderColours | JavaFXMandelbrot/src/javafxmandelbrot/MandelbrotApplication.java:123 | every pixel `sim` adds has red and green in [0, 255] and blue 0 |
| MandelbrotApplication.Sim | JavaFXMandelbrot/src/javafxmandelbrot/MandelbrotApplication.java:114-130 | `sim` adds X_PIXEL*Y_PIXEL gradient pixels in loop order to a fresh manager of capacity XY_SIZE and none of the adds throws, leaving it full (cursor = capacity = XY_SIZE); the drain then draws XY_SIZE fills, fill i*Y_PIXEL + j painting (i, j) in its gradient colour |
| MandelbrotApplication.SimDrawsGradient | JavaFXMandelbrot/src/javafxmandelbrot/MandelbrotApplication.java:118-128 | after `sim` the manager is full (cursor = capacity = XY_SIZE) and holds gradient pixel (i, j) at i*Y_PIXEL + j; the drain draws XY_SIZE fills, fill i*Y_PIXEL + j painting (i, j); every colour has red and green in [0, 255] and blue 0 |
| MandelbrotApplication.StartThreads | JavaFXMandelbrot/src/javafxmandelbrot/MandelbrotApplication.java:153-169 | `startThreads` creates an empty manager of capacity XY_SIZE and repaints the tile grid; it dispatches one task per cell (i, j) of [0, n)^2 in row-major order, n*n tasks in all, equal to the latch's initial count |
| MandelbrotApplication.CountDownsLeave | JavaFXMandelbrot/src/javafxmandelbrot/MandelbrotApplication.java:161 | k `countDown`s on a latch of count c leave c-k, or 0 once k >= c |
| MandelbrotApplication.LatchOpensAfterLastTask | JavaFXMandelbrot/src/javafxmandelbrot/MandelbrotApplication.java:161-167 | with one `countDown` per dispatched task, the latch reaches zero exactly when all n*n tasks have counted down |
| MandelbrotApplication.SwitchButtons | JavaFXMandelbrot/src/javafxmandelbrot/MandelbrotApplication.java:183-186 | after `switchButtons(b)` exactly one of Start and Stop is enabled, and Stop is enabled iff b |
| MandelbrotApplication.Handle | JavaFXMandelbrot/src/javafxmandelbrot/MandelbrotApplication.java:133-151 | Start leads to Running (Start disabled, Stop enabled, pool created); Stop fails iff no pool exists yet, and then with `NullPointerException`; a successful Stop returns to Idle and keeps the pool flag; Clear and Sim change nothing; a primary, secondary or middle mouse click restarts into Running with a pool created; a click with no button changes nothing |
| MandelbrotApplication.Step | JavaFXMandelbrot/src/javafxmandelbrot/MandelbrotApplication.java:134-138 | from a consistent state, any event (a disabled button fires none) succeeds and leads to a consistent state: exactly one button enabled, and Stop enabled only when a pool exists |
| MandelbrotApplication.ReplayConsistent | JavaFXMandelbrot/src/javafxmandelbrot/MandelbrotApplication.java:61 | from the initial state (Stop disabled, no pool), every sequence of events leaves the window Running or Idle and consistent, and Stop never reaches a null pool |

## Left out

- `Pixel`, `Tile`, `TileFactory`, `Mandelbrot` and `ThreadOverview` are not part of this model. A pixel is an opaque (x, y, colour) value. A dispatched tile is known only by its grid index (i, j).
- Escape-time computation, zoom, pan and `STEP = 2.3 / X_PIXEL`: these are floating point and live in the unmodelled classes. Mouse clicks are modelled only by their effect on the buttons and the restart.
- Concurrency: the `ExecutorService` pool, `shutdown` and `shutdownNow`, waiting on the `CountDownLatch`, and `synchronized` on `add` and `run` are not modelled. Only the sequential tile and latch counts are.
- Two concurrent behaviours are not modelled. The helper thread in `startThreads` defers a second `switchButtons`-like update through `Platform.runLater`; if it runs after a Stop, it re-enables Stop on a pool that is already shut down. The mouse handler also restarts without shutting down the previous pool.
- Drawing itself (`GraphicsContext`, `setLineWidth`, canvas construction, layout, window set-up) is left out. The canvas is modelled only as the list of fill operations drawn on it.
- `show` and `Platform.runLater`: the deferred `run` is modelled as happening straight after the adds in `Sim`.
- Logging and timing (`System.out.println`, `currentTimeMillis`), and the `unknown event` branch of `handle`, which only prints.
- MandelbrotApplication.InitCanvas: requires a grid factor n >= 1. The `ChoiceBox` offers only 1..9. With n = 0 the code would throw `ArithmeticException` after painting the white background, and that path is not modelled.
- MandelbrotApplication.StartThreads: requires n >= 1 for the same reason, because it calls `initCanvas`.
- PixelManager.Add: the cursor is an unbounded integer. It does not model the 32-bit wrap-around of `i++`, which would take more than 2^31 failed adds to reach.
