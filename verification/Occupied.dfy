/** Enumerating a selection through the occupancy index: only occupied blocks are visited,
    in bounded batches, and in logical order where the geometry allows it. */
module Occupied {
  import opened Radix
  import opened Wrappers
  import opened Request
  import opened Geometry
  import opened StorageSlices
  import opened Slices
  import opened SliceChunks
  import opened Blocks
  import opened SparseStore
  import opened KeyScans
  import opened Grouping

  // ---------------------------------------------------------------------
  // Which block a selected coordinate lands in
  // ---------------------------------------------------------------------

  /** The descriptor places every coordinate of the sliced view inside the base. */
  ghost predicate Selects(slice: Slice, s: StorageSlice, g: Storage) {
    && slice.Valid() && g.Valid()
    && s.Valid(|g.shape|) && |s.axes| == |slice.shape|
    && forall c: Coord :: InShape(c, slice.shape) ==> InShape(s.Place(c), g.shape)
  }

  predicate CoordsIn(coords: seq<Coord>, shape: seq<nat>) {
    forall i :: 0 <= i < |coords| ==> InShape(coords[i], shape)
  }

  function BlockOf(c: Coord, s: StorageSlice, g: Storage): nat
    requires g.Valid() && s.Valid(|g.shape|) && |c| == |s.axes|
  {
    g.At(s.Place(c)).block
  }

  function BlocksOf(coords: seq<Coord>, s: StorageSlice, g: Storage): (m: seq<nat>)
    requires g.Valid() && s.Valid(|g.shape|) && forall i :: 0 <= i < |coords| ==> |coords[i]| == |s.axes|
    ensures |m| == |coords|
    ensures forall i :: 0 <= i < |m| ==> m[i] == BlockOf(coords[i], s, g)
  {
    seq(|coords|, i requires 0 <= i < |coords| => BlockOf(coords[i], s, g))
  }

  lemma SliceInside(slice: Slice)
    requires slice.Valid()
    ensures CoordsIn(slice.Coords(), slice.shape)
  {
    forall i | 0 <= i < |slice.Coords()| ensures InShape(slice.Coords()[i], slice.shape) {
      CoordinateInside(Cartesian(slice.axes), i, slice.shape);
    }
  }

  /** The block of every selected coordinate, in slice order. */
  ghost function Marks(slice: Slice, s: StorageSlice, g: Storage): (m: seq<nat>)
    requires Selects(slice, s, g)
    ensures |m| == |slice.Coords()|
  {
    SliceInside(slice);
    BlocksOf(slice.Coords(), s, g)
  }

  lemma BoundsProper(s: StorageSlice, g: Storage, id: nat)
    requires g.Valid() && s.Valid(|g.shape|) && id < g.BlockCount()
    ensures s.Bounds(g.Bounds(id)).Some? ==> Proper(s.Bounds(g.Bounds(id)).value)
  {
    if s.Bounds(g.Bounds(id)).Some? {
      var r := s.Bounds(g.Bounds(id)).value;
      BoundsFit(g, id);
      forall i | 0 <= i < |r| ensures r[i].0 <= r[i].1 {
        var (base, step) := s.axes[i];
        var lo, hi := SaturatingSub(g.Bounds(id)[base].0, s.origins[base]), SaturatingSub(g.Bounds(id)[base].1, s.origins[base]);
        DivMonotone(lo + step - 1, hi + step - 1, step);
      }
    }
  }

  /** Clipping by a block's logical bounds picks exactly the coordinates landing in that block. */
  lemma {:induction false} KeptArePicked(coords: seq<Coord>, shape: seq<nat>, s: StorageSlice, g: Storage, id: nat)
    requires g.Valid() && s.Valid(|g.shape|) && id < g.BlockCount() && |s.axes| == |shape|
    requires CoordsIn(coords, shape) && forall c: Coord :: InShape(c, shape) ==> InShape(s.Place(c), g.shape)
    ensures match s.Bounds(g.Bounds(id))
            case Some(r) => KeepCoords(coords, r) == OfMark(coords, BlocksOf(coords, s, g), id)
            case None => OfMark(coords, BlocksOf(coords, s, g), id) == []
    decreases |coords|
  {
    hide StorageSlice.Place, StorageSlice.Bounds, Storage.At, Storage.Bounds, OfMark;
    OfMarkEmpty(id);
    if coords != [] {
      var n := |coords| - 1;
      var marks := BlocksOf(coords, s, g);
      var c := coords[n];
      assert CoordsIn(coords[..n], shape);
      KeptArePicked(coords[..n], shape, s, g, id);
      assert BlocksOf(coords[..n], s, g) == marks[..n];
      assert InShape(c, shape);
      BoundsExact(g, id, s.Place(c));
      BoundsAreExact(s, g.Bounds(id), c);
      assert coords == coords[..n] + [c] && marks == marks[..n] + [marks[n]];
      OfMarkSnoc(coords[..n], marks[..n], c, marks[n], id);
      if s.Bounds(g.Bounds(id)).Some? {
        KeepCoordsConcat(coords[..n], [c], s.Bounds(g.Bounds(id)).value);
        KeepOne(c, s.Bounds(g.Bounds(id)).value);
      }
    }
  }

  lemma KeepOne(c: Coord, region: Region)
    ensures KeepCoords([c], region) == if InRegion(c, region) then [c] else []
  {
    assert [c][1..] == [];
  }

  lemma OfMarkEmpty(id: nat)
    ensures OfMark<Coord>([], [], id) == []
  {}

  lemma OfMarkSnoc<T>(items: seq<T>, marks: seq<nat>, item: T, mark: nat, id: nat)
    requires |marks| == |items|
    ensures OfMark(items + [item], marks + [mark], id) == OfMark(items, marks, id) + if mark == id then [item] else []
  {
    assert (items + [item])[..|items|] == items && (marks + [mark])[..|marks|] == marks;
  }

  // ---------------------------------------------------------------------
  // The interval of blocks a selection can reach
  // ---------------------------------------------------------------------

  method ValueExtent(values: seq<nat>) returns (lo: nat, hi: nat)
    requires values != []
    ensures forall i :: 0 <= i < |values| ==> lo <= values[i] <= hi
    ensures lo in values && hi in values
  {
    lo, hi := values[0], values[0];
    for i := 1 to |values|
      invariant forall j :: 0 <= j < i ==> lo <= values[j] <= hi
      invariant lo in values && hi in values
    {
      lo, hi := Min(lo, values[i]), Max(hi, values[i]);
    }
  }

  /** The extreme values of a nonempty axis, both attained. */
  method AxisExtent(axis: Axis) returns (lo: nat, hi: nat)
    requires axis.Len() > 0
    ensures forall i :: 0 <= i < axis.Len() ==> lo <= axis.At(i) <= hi
    ensures lo in Values(axis) && hi in Values(axis)
  {
    match axis {
      case Span(start, step, len) =>
        lo, hi := axis.At(0), axis.At(len - 1);
        assert Values(axis)[0] == lo && Values(axis)[len - 1] == hi;
        forall i | 0 <= i < axis.Len() ensures lo <= axis.At(i) <= hi {
          MulMonotone(0, i, step);
          MulMonotone(i, len - 1, step);
        }
      case Selected(values) =>
        lo, hi := ValueExtent(values);
        assert Values(axis) == values;
    }
  }

  /** The base coordinate of a corner of the selection, in checked arithmetic. */
  method Corner(s: StorageSlice, values: Coord, ghost g: Storage) returns (r: Result<Coord>)
    requires g.Valid() && s.Valid(|g.shape|) && |values| == |s.axes|
    requires InShape(s.Place(values), g.shape)
    ensures r == Ok(s.Place(values))
  {
    hide Size, StorageSlice.Place;
    var corner := s.origins;
    PlaceNone(s, values);
    for i := 0 to |s.axes|
      invariant corner == StorageSlice(s.origins, s.axes[..i]).Place(values[..i])
    {
      var (base, step) := s.axes[i];
      PlaceAt(s, values, i);
      DimFits(g, base);
      MulMonotone(0, step, values[i]);
      PlaceNext(s, values, i);
      if values[i] * step > U64_MAX || s.origins[base] + values[i] * step > U64_MAX {
        return Err(InvalidCoord);
      }
      corner := corner[base := s.origins[base] + values[i] * step];
    }
    assert s.axes[..|s.axes|] == s.axes && values[..|values|] == values;
    return Ok(corner);
  }

  lemma PlaceNone(s: StorageSlice, values: Coord)
    requires s.Valid(|s.origins|) && |values| == |s.axes|
    ensures StorageSlice(s.origins, s.axes[..0]).Place(values[..0]) == s.origins
  {}

  lemma PlaceNext(s: StorageSlice, values: Coord, i: nat)
    requires s.Valid(|s.origins|) && |values| == |s.axes| && i < |s.axes|
    ensures var (base, step) := s.axes[i];
            && base < |s.origins|
            && StorageSlice(s.origins, s.axes[..i + 1]).Place(values[..i + 1])
               == StorageSlice(s.origins, s.axes[..i]).Place(values[..i])[base := s.origins[base] + values[i] * step]
  {
    assert s.axes[..i + 1][..i] == s.axes[..i] && values[..i + 1][..i] == values[..i];
  }

  lemma DimFits(g: Storage, i: nat)
    requires g.Valid() && i < |g.shape|
    ensures g.shape[i] <= U64_MAX
  {
    DimAtMost(g.shape, i);
  }

  lemma {:induction false} DimAtMost(shape: seq<nat>, i: nat)
    requires Positive(shape) && i < |shape|
    ensures shape[i] <= Size(shape)
  {
    SizePositive(shape[1..]);
    if i == 0 {
      MulMonotone(1, Size(shape[1..]), shape[0]);
    } else {
      DimAtMost(shape[1..], i - 1);
      MulMonotone(1, shape[0], Size(shape[1..]));
    }
  }

  lemma PlaceMonotone(s: StorageSlice, c: Coord, d: Coord)
    requires s.Valid(|s.origins|) && |c| == |d| == |s.axes| && forall i :: 0 <= i < |c| ==> c[i] <= d[i]
    ensures forall b :: 0 <= b < |s.origins| ==> s.Place(c)[b] <= s.Place(d)[b]
  {
    hide StorageSlice.Place;
    forall b | 0 <= b < |s.origins| ensures s.Place(c)[b] <= s.Place(d)[b] {
      if s.Covers(b) {
        var i :| 0 <= i < |s.axes| && s.axes[i].0 == b;
        PlaceAt(s, c, i);
        PlaceAt(s, d, i);
        MulMonotone(c[i], d[i], s.axes[i].1);
      } else {
        PlaceFixed(s, c, b);
        PlaceFixed(s, d, b);
      }
    }
  }

  /** The selected coordinates lie between the corners of the selection. */
  lemma BetweenCorners(slice: Slice, s: StorageSlice, g: Storage, lo: Coord, hi: Coord, i: nat)
    requires Selects(slice, s, g) && InShape(lo, slice.shape) && InShape(hi, slice.shape)
    requires forall k :: 0 <= k < |slice.axes| ==> forall j :: 0 <= j < slice.axes[k].Len() ==> lo[k] <= slice.axes[k].At(j) <= hi[k]
    requires i < |slice.Coords()|
    ensures g.At(s.Place(lo)).block <= Marks(slice, s, g)[i] <= g.At(s.Place(hi)).block
  {
    hide StorageSlice.Place, Storage.At, Axis.At;
    SliceInside(slice);
    var c := slice.Coords()[i];
    assert InShape(c, slice.shape);
    EmptySize(Lens(slice.axes));
    DecodeInShape(i, Lens(slice.axes));
    PlaceMonotone(s, lo, c);
    PlaceMonotone(s, c, hi);
    BlockMonotone(g, s.Place(lo), s.Place(c));
    BlockMonotone(g, s.Place(c), s.Place(hi));
  }

  /** A coordinate picked along every axis is selected, so its block is marked. */
  lemma CornerMarked(slice: Slice, s: StorageSlice, g: Storage, d: Coord, c: Coord)
    requires Selects(slice, s, g) && |d| == |c| == |slice.axes| && InShape(c, slice.shape)
    requires forall k :: 0 <= k < |d| ==> d[k] < slice.axes[k].Len() && c[k] == slice.axes[k].At(d[k])
    ensures g.At(s.Place(c)).block in Marks(slice, s, g)
  {
    hide StorageSlice.Place, Storage.At, Axis.At, Size;
    assert InShape(d, Lens(slice.axes));
    CoordinateOf(slice.axes, d);
    var i := Flat(d, Lens(slice.axes));
    assert Pick(slice.axes, d) == c;
    assert slice.Coords()[i] == c;
    assert Marks(slice, s, g)[i] == BlockOf(c, s, g);
  }

  /** The least and greatest value selected along every axis, and the indices that select them. */
  method Corners(slice: Slice) returns (lo: Coord, hi: Coord, ghost low: Coord, ghost high: Coord)
    requires slice.Valid() && slice.len > 0
    ensures InShape(lo, slice.shape) && InShape(hi, slice.shape) && |lo| == |hi| == |low| == |high| == |slice.axes|
    ensures forall a :: 0 <= a < |lo| ==> low[a] < slice.axes[a].Len() && lo[a] == slice.axes[a].At(low[a])
    ensures forall a :: 0 <= a < |hi| ==> high[a] < slice.axes[a].Len() && hi[a] == slice.axes[a].At(high[a])
    ensures forall a :: 0 <= a < |lo| ==> forall j :: 0 <= j < slice.axes[a].Len() ==> lo[a] <= slice.axes[a].At(j) <= hi[a]
  {
    hide Axis.At, Size;
    EmptySize(Lens(slice.axes));
    lo, hi := [], [];
    low, high := [], [];
    for k := 0 to |slice.axes|
      invariant |lo| == |hi| == |low| == |high| == k
      invariant forall a :: 0 <= a < k ==> low[a] < slice.axes[a].Len() && lo[a] == slice.axes[a].At(low[a])
      invariant forall a :: 0 <= a < k ==> high[a] < slice.axes[a].Len() && hi[a] == slice.axes[a].At(high[a])
      invariant forall a :: 0 <= a < k ==> lo[a] < slice.shape[a] && hi[a] < slice.shape[a]
      invariant forall a :: 0 <= a < k ==> forall j :: 0 <= j < slice.axes[a].Len() ==> lo[a] <= slice.axes[a].At(j) <= hi[a]
    {
      assert Lens(slice.axes)[k] > 0;
      var l, h := AxisExtent(slice.axes[k]);
      ghost var i :| 0 <= i < slice.axes[k].Len() && Values(slice.axes[k])[i] == l;
      ghost var j :| 0 <= j < slice.axes[k].Len() && Values(slice.axes[k])[j] == h;
      AxisInside(slice.axes[k], slice.shape[k], i);
      AxisInside(slice.axes[k], slice.shape[k], j);
      lo, hi := lo + [l], hi + [h];
      low, high := low + [i], high + [j];
    }
  }

  /** The block interval of a nonempty selection: no selected coordinate lies outside it. */
  method IndexRange(slice: Slice, s: StorageSlice, g: Storage) returns (r: Result<(nat, nat)>)
    requires Selects(slice, s, g) && slice.len > 0
    ensures r.Ok? && r.value.0 < r.value.1 <= g.BlockCount()
    ensures forall i :: 0 <= i < |Marks(slice, s, g)| ==> r.value.0 <= Marks(slice, s, g)[i] < r.value.1
    ensures r.value.0 in Marks(slice, s, g) && r.value.1 - 1 in Marks(slice, s, g)
  {
    hide StorageSlice.Place, Storage.At, Axis.At, Size;
    var lo, hi, low, high := Corners(slice);
    var first := Corner(s, lo, g);
    var last := Corner(s, hi, g);
    var a := BlockPosition(g, first.value);
    var b := BlockPosition(g, last.value);
    forall i | 0 <= i < |Marks(slice, s, g)|
      ensures a.value.block <= Marks(slice, s, g)[i] < b.value.block + 1
    {
      BetweenCorners(slice, s, g, lo, hi, i);
    }
    CornerMarked(slice, s, g, low, lo);
    CornerMarked(slice, s, g, high, hi);
    return Ok((a.value.block, b.value.block + 1));
  }

  // ---------------------------------------------------------------------
  // The indexed walk
  // ---------------------------------------------------------------------

  /** Walk the occupied blocks of an interval, batching clipped rectangles. */
  class IndexedRequests<T(==)> {
    const slice: Slice
    const s: StorageSlice
    const keys: OccupiedBlocks<T>
    var open: bool
    var pending: SliceRequests?
    var overflow: Option<Cartesian>

    ghost predicate Valid()
      reads this, keys, keys.store, pending
    {
      && keys.Valid() && Selects(slice, s, keys.store.g)
      && (pending != null ==> pending.Valid() && PartOf(pending.slice, slice))
      && (overflow.Some? ==> RectInside(overflow.value, slice) && overflow.value.Len() <= MAX_BATCH_ELEMENTS)
      && (!open ==> keys.Remaining() == [])
    }

    ghost function OverflowCoords(): seq<Coord>
      reads this
    {
      if overflow.Some? then overflow.value.Coords() else []
    }

    ghost function PendingCoords(): seq<Coord>
      requires pending != null ==> pending.Valid()
      reads this`pending, pending
    {
      if pending != null then pending.slice.Coords()[pending.Position()..] else []
    }

    /** The coordinates of the blocks not yet fetched from the index. */
    ghost function IndexCoords(): seq<Coord>
      requires keys.Valid() && Selects(slice, s, keys.store.g)
      reads keys, keys.store
    {
      Grouped(slice.Coords(), Marks(slice, s, keys.store.g), keys.Remaining())
    }

    /** Everything still to be delivered, in delivery order. */
    ghost function Rest(): seq<Coord>
      requires Valid()
      reads this, keys, keys.store, pending
    {
      OverflowCoords() + (PendingCoords() + IndexCoords())
    }

    constructor (slice: Slice, s: StorageSlice, keys: OccupiedBlocks<T>)
      requires keys.Valid() && Selects(slice, s, keys.store.g)
      ensures Valid() && this.slice == slice && this.s == s && this.keys == keys
      ensures Rest() == Grouped(slice.Coords(), Marks(slice, s, keys.store.g), keys.Remaining())
      ensures pending == null
    {
      this.slice, this.s, this.keys := slice, s, keys;
      open := true;
      pending := null;
      overflow := None;
    }

    /** The next rectangle of the pending block. */
    method PullPending() returns (r: Option<Cartesian>)
      requires pending != null && pending.Valid()
      modifies pending
      ensures pending.Valid()
      ensures r.Some? ==> RectInside(r.value, pending.slice) && r.value.Len() <= MAX_BATCH_ELEMENTS
      ensures r.Some? ==> r.value.Coords() + PendingCoords() == old(PendingCoords())
      ensures r.None? ==> PendingCoords() == old(PendingCoords()) == []
    {
      hide Cartesian.Coordinate, Size, AxesValid, KeepsSteps, SliceRequests.Valid, SliceRequests.Position,
           Slice.Valid, Slice.Coords;
      ghost var all, before := pending.slice.Coords(), pending.Position();
      PositionInside(pending);
      r := pending.NextRectangle();
      PositionInside(pending);
      if r.Some? {
        assert all[before..] == all[before..pending.Position()] + all[pending.Position()..];
      } else {
        assert all[before..] == [];
      }
    }

    /** The next rectangle already fetched: the overflow first, then the pending block. */
    method Pull() returns (r: Option<Cartesian>)
      requires Valid()
      modifies this`overflow, pending
      ensures Valid() && pending == old(pending) && open == old(open) && overflow.None?
      ensures r.Some? ==> RectInside(r.value, slice) && r.value.Len() <= MAX_BATCH_ELEMENTS
      ensures r.Some? ==> r.value.Coords() + Rest() == old(Rest()) && |Rest()| < |old(Rest())|
      ensures r.None? ==> Rest() == old(Rest()) == IndexCoords()
    {
      hide Selects, Grouped, Cartesian.Coordinate, Cartesian.Coords, Cartesian.Len, Size, RectInside, PartOf,
           TableValid, Scan, SliceRequests.Valid, Slice.Valid, Slice.Coords, OccupiedBlocks.Valid, OccupiedBlocks.Remaining,
           IndexedRequests.PendingCoords, IndexedRequests.IndexCoords;
      if overflow.Some? {
        r := overflow;
        RectNonempty(r.value, slice);
        overflow := None;
        RestStep(r.value.Coords(), [], PendingCoords() + IndexCoords());
        return;
      }
      if pending == null {
        NoPending();
        return None;
      }
      ghost var index, was := IndexCoords(), PendingCoords();
      r := PullPending();
      if r.Some? {
        InsidePart(r.value, pending.slice, slice);
        RestStep(r.value.Coords(), PendingCoords(), index);
      }
    }

    lemma NoPending()
      requires Valid() && overflow.None? && pending == null
      ensures Rest() == IndexCoords()
    {
      hide Selects, Grouped;
    }

    /** The next id of the index, with the coordinates its block contributes. */
    method NextKey() returns (id: Option<nat>)
      requires Valid()
      modifies this`open, keys
      ensures Valid() && PendingCoords() == old(PendingCoords())
      ensures id.None? ==> old(IndexCoords()) == [] && IndexCoords() == []
      ensures id.Some? ==> id.value < keys.store.g.BlockCount()
      ensures id.Some? ==> old(IndexCoords()) == OfMark(slice.Coords(), Marks(slice, s, keys.store.g), id.value) + IndexCoords()
      ensures id.Some? ==> |keys.Remaining()| < |old(keys.Remaining())|
    {
      hide Selects, Grouped, OfMark, OccupiedBlocks.Remaining, Slice.Coords, Slice.Valid, Marks;
      ghost var coords, marks := slice.Coords(), Marks(slice, s, keys.store.g);
      GroupedEmpty(coords, marks);
      if !open {
        return None;
      }
      ghost var left := keys.Remaining();
      if left != [] {
        GroupedFirst(coords, marks, left);
        RemainingInside(keys);
      }
      id := keys.Next();
      if id.None? {
        open := false;
      }
    }

    /** Clip the slice to one block, unless no selected coordinate can land in it. */
    method OpenBlock(id: nat)
      requires Valid() && PendingCoords() == [] && id < keys.store.g.BlockCount()
      modifies this`pending
      ensures Valid() && (pending == old(pending) || fresh(pending))
      ensures PendingCoords() == OfMark(slice.Coords(), Marks(slice, s, keys.store.g), id)
      ensures IndexCoords() == old(IndexCoords())
    {
      hide Selects, Grouped, OfMark, OccupiedBlocks.Remaining, OccupiedBlocks.Valid, Slice.Coords, Slice.Valid,
           Marks;
      ghost var picked := OfMark(slice.Coords(), Marks(slice, s, keys.store.g), id);
      var clipped := ClipToBlock(slice, s, keys.store.g, id);
      if clipped.Some? {
        pending := new SliceRequests(clipped.value);
        assert pending.slice.Coords()[0..] == picked;
      }
    }

    /** Fetch the next occupied block; false at the end of the index. */
    method Refill() returns (more: bool)
      requires Valid() && overflow.None? && PendingCoords() == []
      modifies this`open, this`pending, keys
      ensures Valid() && Rest() == old(Rest()) && (pending == old(pending) || fresh(pending))
      ensures !more ==> Rest() == []
      ensures more ==> |keys.Remaining()| < |old(keys.Remaining())|
    {
      hide Selects, Grouped, OfMark, OccupiedBlocks.Remaining, OccupiedBlocks.Valid, Slice.Coords, Marks,
           IndexedRequests.Valid, IndexedRequests.PendingCoords, IndexedRequests.IndexCoords;
      var id := NextKey();
      if id.None? {
        return false;
      }
      OpenBlock(id.value);
      return true;
    }

    /** Keep a rectangle that does not fit for the next batch. */
    method PutBack(rectangle: Cartesian)
      requires Valid() && overflow.None?
      requires RectInside(rectangle, slice) && rectangle.Len() <= MAX_BATCH_ELEMENTS
      modifies this`overflow
      ensures Valid() && Rest() == rectangle.Coords() + old(Rest())
    {
      hide Selects, Grouped, Cartesian.Coordinate, Size, TableValid, Scan, RectInside;
      ghost var index := IndexCoords();
      overflow := Some(rectangle);
      assert IndexCoords() == index;
    }

    /** One turn of the batching loop: add a rectangle, fetch a block, or stop. */
    method Turn(rectangles: seq<Cartesian>, len: nat) returns (more: bool, taken: seq<Cartesian>)
      requires Valid() && RectsInside(rectangles, slice) && len == |RectCoords(rectangles)| < MAX_BATCH_ELEMENTS
      modifies this, keys, pending
      ensures Valid() && (pending == old(pending) || fresh(pending))
      ensures RectsInside(taken, slice) && |RectCoords(taken)| <= MAX_BATCH_ELEMENTS
      ensures RectCoords(taken) + Rest() == RectCoords(rectangles) + old(Rest())
      ensures !more && taken == [] ==> Rest() == []
      ensures more ==> |keys.Remaining()| < |old(keys.Remaining())|
                       || (keys.Remaining() == old(keys.Remaining()) && |Rest()| < |old(Rest())|)
      ensures more ==> |RectCoords(taken)| < MAX_BATCH_ELEMENTS
    {
      hide *;
      var next := Pull();
      if next.Some? {
        var rectangle := next.value;
        if rectangle.Len() > MAX_BATCH_ELEMENTS - len {
          PutBack(rectangle);
          FullBatch(rectangles, rectangle, len);
          return false, rectangles;
        }
        TakeRectangle(rectangles, rectangle, slice, Rest());
        return len + rectangle.Len() < MAX_BATCH_ELEMENTS, rectangles + [rectangle];
      }
      PendingDone();
      more := Refill();
      taken := rectangles;
    }

    /** The next batch: nonempty, bounded, and exactly the next stretch of the walk. */
    method Next() returns (r: Option<BatchRequest>)
      requires Valid()
      modifies this, keys, pending
      ensures Valid() && (pending == old(pending) || fresh(pending))
      ensures r.None? ==> old(Rest()) == [] && Rest() == []
      ensures r.Some? ==> 0 < r.value.len && r.value.Valid(slice.shape) && RequestKeeps(r.value, slice.axes)
      ensures r.Some? ==> r.value.Coords(slice.shape) + Rest() == old(Rest())
    {
      hide IndexedRequests.Valid, IndexedRequests.Rest, Cartesian.Coordinate, Size, OccupiedBlocks.Remaining,
           OccupiedBlocks.Valid, RectInside, BatchRequest.Valid, BatchRequest.Coords, RequestKeeps;
      ghost var all := Rest();
      var rectangles: seq<Cartesian> := [];
      var more := true;
      assert RectCoords(rectangles) + Rest() == all;
      while more
        invariant Valid() && (pending == old(pending) || fresh(pending))
        invariant RectsInside(rectangles, slice) && |RectCoords(rectangles)| <= MAX_BATCH_ELEMENTS
        invariant more ==> |RectCoords(rectangles)| < MAX_BATCH_ELEMENTS
        invariant RectCoords(rectangles) + Rest() == all
        invariant !more && rectangles == [] ==> Rest() == []
        decreases more, |keys.Remaining()|, |Rest()|
      {
        var len := |RectCoords(rectangles)|;
        more, rectangles := Turn(rectangles, len);
      }
      if rectangles == [] {
        assert RectCoords(rectangles) == [];
        return None;
      }
      NonemptyRects(rectangles, slice);
      RectanglesValid(rectangles, |RectCoords(rectangles)|, slice);
      return Some(BatchRequest(Rectangles(rectangles), |RectCoords(rectangles)|));
    }

    lemma PendingDone()
      requires Valid() && Rest() == IndexCoords()
      ensures PendingCoords() == [] && OverflowCoords() == []
    {
      hide Selects, Grouped, Cartesian.Coordinate, Size;
      assert |Rest()| == |OverflowCoords()| + |PendingCoords()| + |IndexCoords()|;
    }
  }

  /** The part of a slice that lands in one block; none when no coordinate can. */
  method ClipToBlock(slice: Slice, s: StorageSlice, g: Storage, id: nat) returns (r: Option<Slice>)
    requires Selects(slice, s, g) && id < g.BlockCount()
    ensures r.Some? ==> r.value.Valid() && PartOf(r.value, slice)
    ensures r.Some? ==> r.value.Coords() == OfMark(slice.Coords(), Marks(slice, s, g), id)
    ensures r.None? ==> OfMark(slice.Coords(), Marks(slice, s, g), id) == []
  {
    hide Selects, OfMark, Slice.Coords, Slice.Valid, Marks, StorageSlice.Bounds, Storage.Bounds;
    SelectsGeometry(slice, s, g);
    BlockSelection(slice, s, g, id);
    var region := BlockBounds(g, id);
    var bounds := s.Bounds(region.value);
    if bounds.None? {
      return None;
    }
    var clipped := Intersect(slice, bounds.value);
    return Some(clipped.value);
  }

  /** A selection of the same shape that advances as another one does. */
  predicate PartOf(part: Slice, whole: Slice) {
    part.shape == whole.shape && KeepsSteps(part.axes, whole.axes)
  }

  predicate RectInside(rect: Cartesian, slice: Slice) {
    AxesValid(rect.axes, slice.shape) && 0 < rect.Len() && KeepsSteps(rect.axes, slice.axes)
  }

  predicate RectsInside(rects: seq<Cartesian>, slice: Slice) {
    forall i :: 0 <= i < |rects| ==> RectInside(rects[i], slice)
  }

  lemma InsidePart(rect: Cartesian, part: Slice, whole: Slice)
    requires RectInside(rect, part) && PartOf(part, whole)
    ensures RectInside(rect, whole) && |rect.Coords()| > 0
  {
    hide Size, AxesValid, Cartesian.Coordinate;
  }

  lemma RectNonempty(rect: Cartesian, slice: Slice)
    requires RectInside(rect, slice)
    ensures rect.Coords() != []
  {
    hide Size, AxesValid, Cartesian.Coordinate, KeepsSteps;
  }

  lemma RemainingInside<T>(keys: OccupiedBlocks<T>)
    requires keys.Valid() && keys.Remaining() != []
    ensures keys.Remaining()[0] < keys.store.g.BlockCount()
  {
    if keys.page == [] {
      ScanAscends(keys.store.table.Keys, keys.next, keys.end);
      assert Scan(keys.store.table.Keys, keys.next, keys.end)[0] in Scan(keys.store.table.Keys, keys.next, keys.end);
    }
  }

  lemma PositionInside(walk: SliceRequests)
    requires walk.Valid()
    ensures walk.Position() <= |walk.slice.Coords()| == walk.slice.len
    ensures walk.done <==> walk.Position() == walk.slice.len
  {}

  lemma RestStep(first: seq<Coord>, pending: seq<Coord>, index: seq<Coord>)
    requires first != []
    ensures first + ([] + (pending + index)) == [] + ((first + pending) + index)
    ensures first + ([] + index) == first + index
    ensures |[] + (pending + index)| < |[] + ((first + pending) + index)|
    ensures |[] + index| < |first + index|
  {}

  lemma TakeRectangle(rects: seq<Cartesian>, rect: Cartesian, slice: Slice, rest: seq<Coord>)
    requires RectsInside(rects, slice) && RectInside(rect, slice)
    ensures RectsInside(rects + [rect], slice)
    ensures |RectCoords(rects + [rect])| == |RectCoords(rects)| + rect.Len()
    ensures RectCoords(rects + [rect]) + rest == RectCoords(rects) + (rect.Coords() + rest)
  {
    hide Size, Cartesian.Coordinate, RectInside;
    RectCoordsSnoc(rects, rect);
  }

  lemma FullBatch(rects: seq<Cartesian>, rect: Cartesian, len: nat)
    requires len == |RectCoords(rects)| && rect.Len() > MAX_BATCH_ELEMENTS - len && rect.Len() <= MAX_BATCH_ELEMENTS
    ensures rects != []
  {}

  lemma NonemptyRects(rects: seq<Cartesian>, slice: Slice)
    requires RectsInside(rects, slice) && rects != []
    ensures |RectCoords(rects)| > 0
  {
    hide AxesValid, KeepsSteps;
    assert RectInside(rects[|rects| - 1], slice);
  }

  lemma RectanglesValid(rects: seq<Cartesian>, len: nat, slice: Slice)
    requires RectsInside(rects, slice) && rects != [] && len == |RectCoords(rects)| <= MAX_BATCH_ELEMENTS
    ensures BatchRequest(Rectangles(rects), len).Valid(slice.shape)
    ensures BatchRequest(Rectangles(rects), len).Coords(slice.shape) == RectCoords(rects)
    ensures RequestKeeps(BatchRequest(Rectangles(rects), len), slice.axes)
  {
    hide Size, Cartesian.Coordinate, KeepsSteps;
    var shape := slice.shape;
    assert forall i :: 0 <= i < |rects| ==> RectInside(rects[i], slice);
    CoordinateInside(rects[0], 0, shape);
    assert Positive(shape) by {
      var c := rects[0].Coordinate(0);
      assert InShape(c, shape);
    }
  }

  lemma SelectsGeometry(slice: Slice, s: StorageSlice, g: Storage)
    requires Selects(slice, s, g)
    ensures g.Valid() && slice.Valid() && s.Valid(|g.shape|) && |s.axes| == |slice.axes|
  {}

  /** What one occupied block contributes: the clipped slice, or nothing without bounds. */
  lemma BlockSelection(slice: Slice, s: StorageSlice, g: Storage, id: nat)
    requires Selects(slice, s, g) && id < g.BlockCount()
    ensures match s.Bounds(g.Bounds(id))
            case Some(r) =>
              Proper(r) && |r| == |slice.axes| && KeepCoords(slice.Coords(), r) == OfMark(slice.Coords(), Marks(slice, s, g), id)
            case None => OfMark(slice.Coords(), Marks(slice, s, g), id) == []
  {
    hide StorageSlice.Place, StorageSlice.Bounds, Storage.At, Storage.Bounds, OfMark;
    SliceInside(slice);
    BoundsProper(s, g, id);
    KeptArePicked(slice.Coords(), slice.shape, s, g, id);
  }
}
