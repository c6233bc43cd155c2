/** The pixel buffer shared by the workers: a fixed-capacity array of pixel
    slots (null = `None`) with a write cursor. `Add` appends at the cursor;
    `Run` paints every stored pixel as a 1x1 fill, in index order, and
    replaces the array by an empty one of the same capacity. */
module PixelManager {
  import opened Wrappers
  import opened Graphics

  type Slot = Option<Pixel>

  datatype Manager = Manager(slots: seq<Slot>, cursor: int)
  {
    function Capacity(): nat {
      |slots|
    }

    /** The array invariant: the cursor lies within the array and nothing has
        been stored at or beyond it since the last drain. */
    ghost predicate Valid() {
      && 0 <= cursor <= |slots|
      && forall k :: cursor <= k < |slots| ==> slots[k].None?
    }
  }

  function Nulls(n: nat): (s: seq<Slot>)
    ensures |s| == n
    ensures forall k :: 0 <= k < n ==> s[k].None?
  {
    seq(n, _ => None)
  }

  /** The slots that hold the pixels `ps`, in order. */
  function Lift(ps: seq<Pixel>): (s: seq<Slot>)
    ensures |s| == |ps|
    ensures forall k :: 0 <= k < |ps| ==> s[k] == Some(ps[k])
  {
    seq(|ps|, k requires 0 <= k < |ps| => Some(ps[k]))
  }

  /** The constructor: `new Pixel[size]` and a cursor at 0. */
  function New(size: int): (r: Result<Manager>)
    ensures r.Err? <==> size < 0
    ensures r.Err? ==> r.error == NegativeArraySize(size)
    ensures r.Ok? ==> r.value.Valid() && r.value.Capacity() == size && r.value.cursor == 0
  {
    if size < 0 then Err(NegativeArraySize(size)) else Ok(Manager(Nulls(size), 0))
  }

  /** What `add` leaves behind. The cursor is post-incremented before the store
      is bounds-checked, so a store that throws still advances it. */
  datatype AddOutcome = Stored(after: Manager) | Thrown(after: Manager, error: Exception)

  /** `pixelArray[i++] = p`. */
  function Add(m: Manager, p: Slot): (r: AddOutcome)
    ensures r.Stored? <==> 0 <= m.cursor < m.Capacity()
    ensures r.after.cursor == m.cursor + 1
    ensures r.after.Capacity() == m.Capacity()
    ensures r.Stored? ==> r.after.slots[m.cursor] == p
    ensures forall k :: 0 <= k < m.Capacity() && k != m.cursor ==> r.after.slots[k] == m.slots[k]
    ensures r.Thrown? ==> r.error == IndexOutOfBounds(m.cursor, m.Capacity())
    ensures m.Valid() ==> (r.Stored? <==> m.cursor < m.Capacity())
    ensures m.Valid() && r.Stored? ==> r.after.Valid()
  {
    var i := m.cursor;
    if 0 <= i < |m.slots| then Stored(Manager(m.slots[i := p], i + 1))
    else Thrown(Manager(m.slots, i + 1), IndexOutOfBounds(i, |m.slots|))
  }

  /** `add` called with each of the (non-null) pixels `ps` in turn; the first
      exception ends the sequence, as it would end the caller's loop. */
  function AddAll(m: Manager, ps: seq<Pixel>): (r: AddOutcome)
    ensures r.after.Capacity() == m.Capacity()
    ensures r.Stored? ==> r.after.cursor == m.cursor + |ps|
    ensures r.Thrown? ==> r.error.IndexOutOfBounds? && r.after.cursor == r.error.index + 1
  {
    if ps == [] then Stored(m)
    else
      match AddAll(m, ps[..|ps| - 1])
      case Stored(m') => Add(m', Some(ps[|ps| - 1]))
      case Thrown(m', e) => Thrown(m', e)
  }

  /** Adding one more pixel continues a run of successful adds. */
  lemma AddAllSnoc(m: Manager, ps: seq<Pixel>, after: Manager, p: Pixel)
    requires AddAll(m, ps) == Stored(after)
    ensures AddAll(m, ps + [p]) == Add(after, Some(p))
  {
    assert (ps + [p])[..|ps|] == ps;
  }

  /** The fill a single slot produces when drained: none for a null slot. */
  function SlotFill(s: Slot): seq<DrawOp> {
    match s
    case None => []
    case Some(p) => [PixelFill(p)]
  }

  /** Reference definition of the drain's output, slot by slot. */
  function Fills(slots: seq<Slot>): seq<DrawOp> {
    if slots == [] then [] else Fills(slots[..|slots| - 1]) + SlotFill(slots[|slots| - 1])
  }

  /** The indices of the non-null slots, in increasing order. */
  function StoredIndices(slots: seq<Slot>): seq<nat> {
    if slots == [] then []
    else
      var last := |slots| - 1;
      StoredIndices(slots[..last]) + (if slots[last].Some? then [last] else [])
  }

  /** `fills` is one 1x1 fill per non-null slot of `slots`, taken at the
      strictly increasing indices `ix`, which are exactly the non-null slots. */
  ghost predicate DrainsInOrder(slots: seq<Slot>, ix: seq<nat>, fills: seq<DrawOp>) {
    && |ix| == |fills|
    && (forall k :: 0 <= k < |ix| ==>
          ix[k] < |slots| && slots[ix[k]].Some? && fills[k] == PixelFill(slots[ix[k]].value))
    && (forall k, l :: 0 <= k < l < |ix| ==> ix[k] < ix[l])
    && (forall n :: 0 <= n < |slots| && slots[n].Some? ==> n in ix)
  }

  lemma {:induction false} FillsDrainInOrder(slots: seq<Slot>)
    ensures DrainsInOrder(slots, StoredIndices(slots), Fills(slots))
  {
    if slots != [] {
      var last := |slots| - 1;
      var init := slots[..last];
      FillsDrainInOrder(init);
      assert slots == init + [slots[last]];
      DrainsSnoc(init, StoredIndices(init), Fills(init), slots[last]);
    }
  }

  /** One more slot at the end: a stored pixel adds its index and its fill
      at the end of the drain, a null slot adds nothing. */
  lemma DrainsSnoc(init: seq<Slot>, ix: seq<nat>, fs: seq<DrawOp>, s: Slot)
    requires DrainsInOrder(init, ix, fs)
    ensures DrainsInOrder(init + [s], ix + (if s.Some? then [|init|] else []), fs + SlotFill(s))
  {
    var slots := init + [s];
    var ix' := ix + (if s.Some? then [|init|] else []);
    var fs' := fs + SlotFill(s);
    assert forall k :: 0 <= k < |ix| ==> ix'[k] == ix[k] && fs'[k] == fs[k];
    assert forall n :: 0 <= n < |init| ==> slots[n] == init[n];
    assert forall n :: 0 <= n < |init| && slots[n].Some? ==> n in ix;
  }

  lemma {:induction false} FillsAppend(a: seq<Slot>, b: seq<Slot>)
    ensures Fills(a + b) == Fills(a) + Fills(b)
  {
    if b == [] {
      assert a + b == a;
    } else {
      var last := |b| - 1;
      assert (a + b)[..|a + b| - 1] == a + b[..last];
      assert (a + b)[|a + b| - 1] == b[last];
      FillsAppend(a, b[..last]);
    }
  }

  lemma {:induction false} FillsOfNulls(n: nat)
    ensures Fills(Nulls(n)) == []
  {
    if n > 0 {
      assert Nulls(n)[..n - 1] == Nulls(n - 1);
      FillsOfNulls(n - 1);
    }
  }

  lemma {:induction false} FillsOfLift(ps: seq<Pixel>)
    ensures Fills(Lift(ps)) == seq(|ps|, k requires 0 <= k < |ps| => PixelFill(ps[k]))
  {
    if ps != [] {
      var last := |ps| - 1;
      assert Lift(ps)[..last] == Lift(ps[..last]);
      FillsOfLift(ps[..last]);
    }
  }

  /** A drain emits nothing exactly when every slot is null. */
  lemma {:induction false} FillsEmptyIffAllNull(slots: seq<Slot>)
    ensures Fills(slots) == [] <==> forall k :: 0 <= k < |slots| ==> slots[k].None?
  {
    if slots != [] {
      var last := |slots| - 1;
      var init := slots[..last];
      FillsEmptyIffAllNull(init);
      assert Fills(slots) == Fills(init) + SlotFill(slots[last]);
      assert forall k :: 0 <= k < last ==> init[k] == slots[k];
    }
  }

  /** `run`: paint every stored pixel in index order, then start over with an
      empty array of the same capacity. */
  method Run(m: Manager) returns (drained: Manager, fills: seq<DrawOp>)
    ensures fills == Fills(m.slots)
    ensures DrainsInOrder(m.slots, StoredIndices(m.slots), fills)
    ensures drained.Valid() && drained.cursor == 0
    ensures drained.Capacity() == m.Capacity()
    ensures forall k :: 0 <= k < drained.Capacity() ==> drained.slots[k].None?
  {
    fills := [];
    var k := 0;
    while k < |m.slots|
      invariant 0 <= k <= |m.slots|
      invariant fills == Fills(m.slots[..k])
    {
      assert m.slots[..k + 1][..k] == m.slots[..k];
      if m.slots[k].Some? {
        fills := fills + [PixelFill(m.slots[k].value)];
      }
      k := k + 1;
    }
    assert m.slots[..k] == m.slots;
    FillsDrainInOrder(m.slots);
    drained := Manager(Nulls(|m.slots|), 0);
  }

  /** Adding pixels to a valid manager with room for them stores them, in
      order, from the cursor on, and leaves the rest of the array as it was. */
  lemma {:induction false} AddAllLayout(m: Manager, ps: seq<Pixel>)
    requires m.Valid() && m.cursor + |ps| <= m.Capacity()
    ensures AddAll(m, ps).Stored?
    ensures AddAll(m, ps).after.Valid()
    ensures AddAll(m, ps).after.cursor == m.cursor + |ps|
    ensures AddAll(m, ps).after.slots
         == m.slots[..m.cursor] + Lift(ps) + Nulls(m.Capacity() - m.cursor - |ps|)
  {
    if ps != [] {
      var last := |ps| - 1;
      AddAllLayout(m, ps[..last]);
      var m' := AddAll(m, ps[..last]).after;
      var after := Add(m', Some(ps[last])).after;
      assert ps[..last] + [ps[last]] == ps;
      assert after.slots == m.slots[..m.cursor] + Lift(ps) + Nulls(m.Capacity() - m.cursor - |ps|);
    } else {
      assert m.slots == m.slots[..m.cursor] + Nulls(m.Capacity() - m.cursor);
    }
  }

  /** Insert-then-drain: k <= capacity non-null pixels added to a fresh
      manager are painted exactly once each, in insertion order. */
  lemma RoundTrip(size: int, ps: seq<Pixel>)
    requires |ps| <= size
    ensures New(size).Ok?
    ensures AddAll(New(size).value, ps).Stored?
    ensures Fills(AddAll(New(size).value, ps).after.slots)
         == seq(|ps|, k requires 0 <= k < |ps| => PixelFill(ps[k]))
  {
    var m := New(size).value;
    AddAllLayout(m, ps);
    var after := AddAll(m, ps).after;
    var lifted, rest := Lift(ps), Nulls(size - |ps|);
    assert after.slots == lifted + rest by {
      assert m.slots[..0] + lifted == lifted;
    }
    assert Fills(lifted + rest) == Fills(lifted) by {
      FillsAppend(lifted, rest);
      FillsOfNulls(size - |ps|);
    }
    FillsOfLift(ps);
  }

  /** One pixel more than the capacity: the store throws at index `size`. */
  lemma {:induction false} OverflowThrows(size: int, ps: seq<Pixel>)
    requires 0 <= size && |ps| == size + 1
    ensures AddAll(New(size).value, ps) == Thrown(Manager(Lift(ps[..size]), size + 1), IndexOutOfBounds(size, size))
  {
    var m := New(size).value;
    AddAllLayout(m, ps[..size]);
    assert m.slots[..0] == [];
    assert Lift(ps[..size]) + Nulls(0) == Lift(ps[..size]);
  }
}
