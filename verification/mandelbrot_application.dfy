/** The integer logic of the application window: the tile grid painted by
    `initCanvas`, the colour gradient of `sim`, the tile dispatch of
    `startThreads`, and the enablement of the Start and Stop buttons. */
module MandelbrotApplication {
  import opened Wrappers
  import opened Graphics
  import opened Grid
  import PM = PixelManager

  const X_PIXEL: int := 630
  const Y_PIXEL: int := X_PIXEL
  const XY_SIZE: int := X_PIXEL * Y_PIXEL

  // ---------------------------------------------------------------- initCanvas

  /** The gray rectangle of tile (i, j) when tiles are w by h; its last column
      and last row stay white, a 1-pixel gutter between neighbouring tiles. */
  function TileRect(i: int, j: int, w: int, h: int): DrawOp {
    FillRect(Gray, i * w, j * h, w - 1, h - 1)
  }

  /** `initCanvas` on a width x height canvas with grid factor n: a white
      background over the whole canvas, then exactly n*n gray rectangles, one
      per cell in the order of the nested loops (`InitCanvasAt` places tile
      (i, j) at operation 1 + i*n + j). */
  function InitCanvas(width: nat, height: nat, n: int): (ops: seq<DrawOp>)
    requires 1 <= n
    ensures |ops| == 1 + n * n
    ensures ops[0] == FillRect(White, 0, 0, width, height)
    ensures forall k :: 0 <= k < n * n ==>
              ops[1 + k] == TileRect(Cells(n, n)[k].0, Cells(n, n)[k].1, width / n, height / n)
  {
    var w, h := width / n, height / n;
    var cells := Cells(n, n);
    [FillRect(White, 0, 0, width, height)]
      + seq(n * n, k requires 0 <= k < n * n => TileRect(cells[k].0, cells[k].1, w, h))
  }

  /** Tile (i, j)'s rectangle is operation 1 + i*n + j of `initCanvas`. */
  lemma InitCanvasAt(width: nat, height: nat, n: int, i: int, j: int)
    requires 1 <= n && 0 <= i < n && 0 <= j < n
    ensures 0 <= i * n + j < n * n
    ensures InitCanvas(width, height, n)[1 + i * n + j] == TileRect(i, j, width / n, height / n)
  {
    CellAt(n, n, i, j);
  }

  /** Some gray rectangle (any drawing operation after the background) paints (x, y). */
  ghost predicate PaintedGray(ops: seq<DrawOp>, x: int, y: int) {
    exists k :: 1 <= k < |ops| && ops[k].Covers(x, y)
  }

  /** Each tile rectangle, gutter included, lies inside the canvas. */
  lemma TileInsideCanvas(width: nat, height: nat, n: int, i: int, j: int)
    requires 1 <= n && 0 <= i < n && 0 <= j < n
    ensures var r := TileRect(i, j, width / n, height / n);
      0 <= r.x && r.x + r.w < width && 0 <= r.y && r.y + r.h < height
  {
    var w, h := width / n, height / n;
    assert width == n * w + width % n;
    assert height == n * h + height % n;
    MulMono(i + 1, n, w);
    MulMono(j + 1, n, h);
  }

  /** A pixel painted by tile (i, j) belongs to that tile's cell, away from its gutter. */
  lemma TileOwner(i: int, j: int, w: int, h: int, x: int, y: int)
    requires TileRect(i, j, w, h).Covers(x, y)
    ensures w > 1 && h > 1
    ensures x / w == i && y / h == j
    ensures x % w < w - 1 && y % h < h - 1
  {
    DivModUnique(x, w, i, x - i * w);
    DivModUnique(y, h, j, y - j * h);
  }

  /** The rectangles of two distinct tiles share no pixel. */
  lemma TilesDisjoint(i: int, j: int, i': int, j': int, w: int, h: int, x: int, y: int)
    requires (i, j) != (i', j')
    ensures !(TileRect(i, j, w, h).Covers(x, y) && TileRect(i', j', w, h).Covers(x, y))
  {
    if TileRect(i, j, w, h).Covers(x, y) && TileRect(i', j', w, h).Covers(x, y) {
      TileOwner(i, j, w, h, x, y);
      TileOwner(i', j', w, h, x, y);
    }
  }

  /** A gray rectangle of `initCanvas` paints only inside [0, n*w) x [0, n*h)
      and never on a gutter line. */
  lemma GrayInsideGrid(width: nat, height: nat, n: int, k: int, x: int, y: int)
    requires 1 <= n && 1 <= k < 1 + n * n
    requires InitCanvas(width, height, n)[k].Covers(x, y)
    ensures var w, h := width / n, height / n;
      w > 1 && h > 1
      && 0 <= x < n * w && 0 <= y < n * h && x % w < w - 1 && y % h < h - 1
  {
    var w, h := width / n, height / n;
    var c := Cells(n, n)[k - 1];
    assert 0 <= c.0 < n && 0 <= c.1 < n;
    assert InitCanvas(width, height, n)[k] == TileRect(c.0, c.1, w, h);
    TileOwner(c.0, c.1, w, h, x, y);
    TileWithinGrid(c.0, c.1, w, h, n, x, y);
  }

  /** A pixel painted by a tile of an n x n grid lies in [0, n*w) x [0, n*h). */
  lemma TileWithinGrid(i: int, j: int, w: int, h: int, n: int, x: int, y: int)
    requires 0 <= i < n && 0 <= j < n
    requires TileRect(i, j, w, h).Covers(x, y)
    ensures 0 <= x < n * w && 0 <= y < n * h
  {
    assert w > 1 && h > 1;
    MulMono(0, i, w);
    MulMono(0, j, h);
    MulMono(i + 1, n, w);
    MulMono(j + 1, n, h);
    assert (i + 1) * w == i * w + w;
    assert (j + 1) * h == j * h + h;
  }

  /** Every pixel of [0, n*w) x [0, n*h) off the gutter lines is painted by
      the rectangle of its own cell (x / w, y / h). */
  lemma GrayCoversCell(width: nat, height: nat, n: int, x: int, y: int)
    requires 1 <= n <= width && n <= height
    requires var w, h := width / n, height / n;
      0 <= x < n * w && 0 <= y < n * h && x % w < w - 1 && y % h < h - 1
    ensures var w, h := width / n, height / n;
      var k := 1 + (x / w) * n + y / h;
      1 <= k < 1 + n * n && InitCanvas(width, height, n)[k].Covers(x, y)
  {
    var w, h := width / n, height / n;
    MulMono(1, n, w);
    MulMono(1, n, h);
    var i, j := x / w, y / h;
    DivBelow(x, w, n);
    DivBelow(y, h, n);
    InitCanvasAt(width, height, n, i, j);
    TileCoversOwnPixel(w, h, x, y);
  }

  /** Off the gutter lines, the pixel (x, y) lies in the rectangle of cell (x / w, y / h). */
  lemma TileCoversOwnPixel(w: int, h: int, x: int, y: int)
    requires w > 0 && h > 0 && 0 <= x && 0 <= y && x % w < w - 1 && y % h < h - 1
    ensures TileRect(x / w, y / h, w, h).Covers(x, y)
  {
    assert x == (x / w) * w + x % w;
    assert y == (y / h) * h + y % h;
  }

  /** Exactly the pixels of [0, n*w) x [0, n*h) off the gutter lines are gray;
      the gutters and the right and bottom remainder strips stay white. */
  lemma GrayRegion(width: nat, height: nat, n: int, x: int, y: int)
    requires 1 <= n <= width && n <= height
    ensures var w, h := width / n, height / n;
      PaintedGray(InitCanvas(width, height, n), x, y)
      <==> 0 <= x < n * w && 0 <= y < n * h && x % w < w - 1 && y % h < h - 1
  {
    var ops := InitCanvas(width, height, n);
    if PaintedGray(ops, x, y) {
      var k :| 1 <= k < |ops| && ops[k].Covers(x, y);
      GrayInsideGrid(width, height, n, k, x, y);
    }
    var w, h := width / n, height / n;
    if 0 <= x < n * w && 0 <= y < n * h && x % w < w - 1 && y % h < h - 1 {
      GrayCoversCell(width, height, n, x, y);
    }
  }

  /** No two gray rectangles of `initCanvas` overlap. */
  lemma InitCanvasDisjoint(width: nat, height: nat, n: int, k: int, l: int, x: int, y: int)
    requires 1 <= n && 1 <= k < l < 1 + n * n
    ensures var ops := InitCanvas(width, height, n);
      !(ops[k].Covers(x, y) && ops[l].Covers(x, y))
  {
    var cells := Cells(n, n);
    CellsOrdered(n, n, k - 1, l - 1);
    TilesDisjoint(cells[k - 1].0, cells[k - 1].1, cells[l - 1].0, cells[l - 1].1, width / n, height / n, x, y);
  }

  // ----------------------------------------------------------------------- sim

  /** One gradient component: `(k * 256) / extent`, Java's truncating division
      (equal to Dafny's here, both operands being non-negative). */
  function Channel(k: int, extent: int): (c: int)
    requires extent > 0
    ensures 0 <= k < extent ==> InChannelRange(c)
  {
    if 0 <= k < extent then
      MulMono(k + 1, extent, 256);
      DivBelow(k * 256, extent, 256);
      (k * 256) / extent
    else
      (k * 256) / extent
  }

  lemma ChannelMonotone(k: int, l: int, extent: int)
    requires 0 <= k <= l && extent > 0
    ensures Channel(k, extent) <= Channel(l, extent)
  {
    MulMono(k, l, 256);
    var qk, ql := Channel(k, extent), Channel(l, extent);
    assert k * 256 == qk * extent + (k * 256) % extent;
    assert l * 256 == ql * extent + (l * 256) % extent;
    if qk > ql {
      MulMono(ql + 1, qk, extent);
    }
  }

  /** The pixel `sim` produces for cell (i, j): red grows with i, green with j. */
  function GradientPixel(cell: (int, int)): Pixel {
    Pixel(cell.0, cell.1, Color(Channel(cell.0, X_PIXEL), Channel(cell.1, Y_PIXEL), 0))
  }

  /** The pixels `sim` adds, in the order its loops add them. */
  ghost function SimOrder(): seq<Pixel> {
    var cells := Cells(X_PIXEL, Y_PIXEL);
    seq(XY_SIZE, k requires 0 <= k < XY_SIZE => GradientPixel(cells[k]))
  }

  lemma SimOrderAt(i: int, j: int)
    requires 0 <= i < X_PIXEL && 0 <= j < Y_PIXEL
    ensures i * Y_PIXEL + j < XY_SIZE
    ensures SimOrder()[i * Y_PIXEL + j] == GradientPixel((i, j))
  {
    CellAt(X_PIXEL, Y_PIXEL, i, j);
  }

  /** One iteration of `sim`'s inner loop: adding the gradient pixel of (i, j)
      continues the run of adds in `SimOrder` and does not throw. */
  lemma SimStep(empty: PM.Manager, added: seq<Pixel>, m: PM.Manager, i: int, j: int)
    requires 0 <= i < X_PIXEL && 0 <= j < Y_PIXEL
    requires |added| == i * Y_PIXEL + j && added == SimOrder()[..|added|]
    requires PM.AddAll(empty, added) == PM.Stored(m)
    requires m.Valid() && m.cursor == |added| && m.Capacity() == XY_SIZE
    ensures var p := GradientPixel((i, j));
      && added + [p] == SimOrder()[..|added| + 1]
      && PM.Add(m, Some(p)).Stored?
      && PM.AddAll(empty, added + [p]) == PM.Stored(PM.Add(m, Some(p)).after)
  {
    var p := GradientPixel((i, j));
    SimOrderAt(i, j);
    assert SimOrder()[..|added| + 1] == SimOrder()[..|added|] + [SimOrder()[|added|]];
    PM.AddAllSnoc(empty, added, m, p);
  }

  /** The run of adds `sim` makes fills the manager exactly, in `SimOrder`. */
  lemma SimLayout(filled: PM.Manager, fills: seq<DrawOp>)
    requires PM.AddAll(PM.New(XY_SIZE).value, SimOrder()) == PM.Stored(filled)
    requires fills == PM.Fills(filled.slots)
    ensures filled.Valid() && filled.cursor == filled.Capacity() == XY_SIZE
    ensures filled.slots == PM.Lift(SimOrder())
    ensures |fills| == XY_SIZE
    ensures forall k :: 0 <= k < XY_SIZE ==> fills[k] == PixelFill(SimOrder()[k])
  {
    var empty := PM.New(XY_SIZE).value;
    var order := SimOrder();
    PM.AddAllLayout(empty, order);
    assert empty.slots[..0] + PM.Lift(order) + PM.Nulls(0) == PM.Lift(order);
    PM.RoundTrip(XY_SIZE, order);
  }

  /** Every pixel of `SimOrder` has a colour `Color.rgb` accepts, without blue. */
  lemma SimOrderColours()
    ensures forall k :: 0 <= k < XY_SIZE ==>
              InChannelRange(SimOrder()[k].color.red) && InChannelRange(SimOrder()[k].color.green)
              && SimOrder()[k].color.blue == 0
  {
    var order := SimOrder();
    forall k | 0 <= k < XY_SIZE
      ensures InChannelRange(order[k].color.red) && InChannelRange(order[k].color.green)
      ensures order[k].color.blue == 0
    {
      var c := Cells(X_PIXEL, Y_PIXEL)[k];
      assert 0 <= c.0 < X_PIXEL && 0 <= c.1 < Y_PIXEL;
      assert order[k] == GradientPixel(c);
    }
  }

  /** The manager `sim` fills and the fills its drain draws: one gradient
      pixel per canvas coordinate, stored and drawn at position i * Y_PIXEL + j,
      every colour accepted by `Color.rgb` and without blue. */
  lemma SimDrawsGradient(filled: PM.Manager, fills: seq<DrawOp>)
    requires PM.AddAll(PM.New(XY_SIZE).value, SimOrder()) == PM.Stored(filled)
    requires fills == PM.Fills(filled.slots)
    ensures filled.Valid() && filled.cursor == filled.Capacity() == XY_SIZE
    ensures |fills| == XY_SIZE
    ensures forall i, j :: 0 <= i < X_PIXEL && 0 <= j < Y_PIXEL ==>
              filled.slots[i * Y_PIXEL + j] == Some(GradientPixel((i, j)))
              && fills[i * Y_PIXEL + j] == PixelFill(GradientPixel((i, j)))
    ensures forall k :: 0 <= k < |fills| ==>
              InChannelRange(fills[k].fill.red) && InChannelRange(fills[k].fill.green)
              && fills[k].fill.blue == 0
  {
    SimLayout(filled, fills);
    var order := SimOrder();
    forall i, j | 0 <= i < X_PIXEL && 0 <= j < Y_PIXEL
      ensures filled.slots[i * Y_PIXEL + j] == Some(GradientPixel((i, j)))
      ensures fills[i * Y_PIXEL + j] == PixelFill(GradientPixel((i, j)))
    {
      SimOrderAt(i, j);
    }
    SimOrderColours();
    forall k | 0 <= k < |fills|
      ensures InChannelRange(fills[k].fill.red) && InChannelRange(fills[k].fill.green)
      ensures fills[k].fill.blue == 0
    {
      assert fills[k] == PixelFill(order[k]);
    }
  }

  /** `sim`: fill a manager of capacity XY_SIZE with one gradient pixel per
      canvas coordinate, then drain it (`show` defers `run` to the UI thread;
      here it runs at once). Returns the filled manager and the fills drawn. */
  method Sim() returns (filled: PM.Manager, fills: seq<DrawOp>)
    ensures PM.AddAll(PM.New(XY_SIZE).value, SimOrder()) == PM.Stored(filled)
    ensures fills == PM.Fills(filled.slots)
    ensures filled.Valid() && filled.cursor == filled.Capacity() == XY_SIZE
    ensures |fills| == XY_SIZE
    ensures forall i, j :: 0 <= i < X_PIXEL && 0 <= j < Y_PIXEL ==>
              fills[i * Y_PIXEL + j] == PixelFill(GradientPixel((i, j)))
  {
    var m := PM.New(XY_SIZE).value;
    ghost var empty := m;
    ghost var order := SimOrder();
    ghost var added: seq<Pixel> := [];
    for i := 0 to X_PIXEL
      invariant |added| == i * Y_PIXEL
      invariant added == order[..|added|]
      invariant PM.AddAll(empty, added) == PM.Stored(m)
      invariant m.Valid() && m.cursor == |added| && m.Capacity() == XY_SIZE
    {
      for j := 0 to Y_PIXEL
        invariant |added| == i * Y_PIXEL + j
        invariant added == order[..|added|]
        invariant PM.AddAll(empty, added) == PM.Stored(m)
        invariant m.Valid() && m.cursor == |added| && m.Capacity() == XY_SIZE
      {
        assert InChannelRange(Channel(i, X_PIXEL)) && InChannelRange(Channel(j, Y_PIXEL));
        var color := Rgb(Channel(i, X_PIXEL), Channel(j, Y_PIXEL), 0).value;
        var p := Pixel(i, j, color);
        SimStep(empty, added, m, i, j);
        m := PM.Add(m, Some(p)).after;
        added := added + [p];
      }
      assert (i + 1) * Y_PIXEL == i * Y_PIXEL + Y_PIXEL;
    }
    assert |added| == XY_SIZE;
    assert added == order;
    filled := m;
    var drained;
    drained, fills := PM.Run(filled);
    SimDrawsGradient(filled, fills);
  }

  // -------------------------------------------------------------- startThreads

  /** The `CountDownLatch` the tiles count down. */
  datatype Latch = Latch(count: nat)

  /** `countDown`: one step towards zero; at zero nothing changes. */
  function CountDown(l: Latch): Latch {
    if l.count == 0 then l else Latch(l.count - 1)
  }

  /** k successive `countDown` calls. */
  function CountDowns(l: Latch, k: nat): Latch {
    if k == 0 then l else CountDown(CountDowns(l, k - 1))
  }

  lemma {:induction false} CountDownsLeave(c: nat, k: nat)
    ensures CountDowns(Latch(c), k).count == if k <= c then c - k else 0
  {
    if k > 0 {
      CountDownsLeave(c, k - 1);
    }
  }

  /** What one `startThreads` sets up: an empty pixel manager, the repainted
      background, one Mandelbrot task per tile (a tile is known here by its
      grid index; all tasks share the manager and the latch), and the latch. */
  datatype Dispatch = Dispatch(manager: PM.Manager, background: seq<DrawOp>, tasks: seq<(int, int)>, latch: Latch)

  method StartThreads(n: int) returns (d: Dispatch)
    requires 1 <= n
    ensures d.manager.Valid() && d.manager.cursor == 0 && d.manager.Capacity() == XY_SIZE
    ensures d.background == InitCanvas(X_PIXEL, Y_PIXEL, n)
    ensures d.tasks == Cells(n, n)
    ensures |d.tasks| == d.latch.count == n * n
  {
    var manager := PM.New(XY_SIZE).value;
    var background := InitCanvas(X_PIXEL, Y_PIXEL, n);
    var latch := Latch(n * n);
    var tasks: seq<(int, int)> := [];
    var all := Cells(n, n);
    for i := 0 to n
      invariant |tasks| == i * n <= n * n
      invariant tasks == all[..|tasks|]
    {
      RowStart(n, n, i);
      var row := i * n;
      for j := 0 to n
        invariant |tasks| == row + j <= n * n
        invariant tasks == all[..|tasks|]
      {
        CellsExtend(n, n, i, j);
        tasks := tasks + [(i, j)];
      }
      RowStart(n, n, i + 1);
    }
    d := Dispatch(manager, background, tasks, latch);
  }

  /** The latch opens (reaches zero) exactly when every dispatched task has
      counted down once. */
  lemma LatchOpensAfterLastTask(n: int, k: nat)
    requires 1 <= n && k <= |Cells(n, n)|
    ensures CountDowns(Latch(n * n), k).count == n * n - k
    ensures CountDowns(Latch(n * n), k).count == 0 <==> k == |Cells(n, n)|
  {
    CountDownsLeave(n * n, k);
  }

  // --------------------------------------------------- handle / switchButtons

  /** Which of the two buttons are disabled. */
  datatype Buttons = Buttons(startDisabled: bool, stopDisabled: bool)

  /** `switchButtons(reverse)`. */
  function SwitchButtons(reverse: bool): (b: Buttons)
    ensures b.startDisabled != b.stopDisabled
    ensures b.stopDisabled == !reverse
  {
    Buttons(reverse, !reverse)
  }

  datatype MouseButton = Primary | Secondary | Middle | NoButton

  datatype Event =
    | StartClicked
    | StopClicked
    | ClearClicked
    | SimClicked
    | MouseClicked(button: MouseButton)

  /** The state `handle` acts on: the buttons, and whether the `pool` field
      has been assigned (it is null until the first `startThreads`). */
  datatype Ui = Ui(buttons: Buttons, poolCreated: bool)

  /** After window set-up: Start enabled, Stop disabled, no pool yet. */
  const InitialUi := Ui(Buttons(false, true), false)

  predicate Running(ui: Ui) {
    ui.buttons.startDisabled && !ui.buttons.stopDisabled
  }

  predicate Idle(ui: Ui) {
    !ui.buttons.startDisabled && ui.buttons.stopDisabled
  }

  /** The reachable-state invariant: exactly one button is enabled, and Stop
      is enabled only once a pool exists for `stopThreads` to shut down. */
  ghost predicate Consistent(ui: Ui) {
    && ui.buttons.startDisabled != ui.buttons.stopDisabled
    && (!ui.buttons.stopDisabled ==> ui.poolCreated)
  }

  /** A disabled button fires no action event; the other sources always fire. */
  predicate Delivered(ui: Ui, ev: Event) {
    match ev
    case StartClicked => !ui.buttons.startDisabled
    case StopClicked => !ui.buttons.stopDisabled
    case _ => true
  }

  /** `handle` and the mouse handler. Zooming, panning, the canvas and the
      pool's threads are not part of this state. */
  function Handle(ui: Ui, ev: Event): (r: Result<Ui>)
    ensures ev == StartClicked ==> r.Ok? && Running(r.value) && r.value.poolCreated
    ensures ev == StopClicked ==> (r.Ok? <==> ui.poolCreated)
    ensures ev == StopClicked && r.Err? ==> r.error == NullPointer
    ensures ev == StopClicked && r.Ok? ==> Idle(r.value) && r.value.poolCreated == ui.poolCreated
    ensures ev.MouseClicked? && ev.button != NoButton ==> r.Ok? && Running(r.value) && r.value.poolCreated
    ensures ev in {ClearClicked, SimClicked, MouseClicked(NoButton)} ==> r == Ok(ui)
  {
    match ev
    case StartClicked =>
      // btnStart.setDisable(true), then startThreads() switches the buttons
      Ok(Ui(SwitchButtons(true), true))
    case StopClicked =>
      if !ui.poolCreated then Err(NullPointer) else Ok(ui.(buttons := SwitchButtons(false)))
    case ClearClicked => Ok(ui)
    case SimClicked => Ok(ui)
    case MouseClicked(b) =>
      if b == NoButton then Ok(ui) else Ok(Ui(SwitchButtons(true), true))
  }

  function Step(ui: Ui, ev: Event): (r: Result<Ui>)
    ensures Consistent(ui) ==> r.Ok? && Consistent(r.value)
  {
    if Delivered(ui, ev) then Handle(ui, ev) else Ok(ui)
  }

  /** The UI state after a sequence of events from the initial state. */
  function Replay(events: seq<Event>): Result<Ui> {
    if events == [] then Ok(InitialUi)
    else
      match Replay(events[..|events| - 1])
      case Ok(ui) => Step(ui, events[|events| - 1])
      case Err(e) => Err(e)
  }

  /** Every event sequence leaves the UI consistent and never reaches the null
      pool in `stopThreads`. */
  lemma {:induction false} ReplayConsistent(events: seq<Event>)
    ensures Replay(events).Ok?
    ensures Consistent(Replay(events).value)
    ensures Running(Replay(events).value) || Idle(Replay(events).value)
  {
    if events != [] {
      ReplayConsistent(events[..|events| - 1]);
    }
  }
}
