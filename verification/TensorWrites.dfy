/** Bulk writes through a view, fills, and their round trip with planned reads. */
module TensorWrites {
  import opened Radix
  import opened Wrappers
  import opened Request
  import opened Mapping
  import opened Geometry
  import opened StorageRead
  import opened Blocks
  import opened BlockData
  import opened SparseStore
  import opened KeyScans
  import opened Schema
  import opened Transforms
  import opened Ranges

  // ---------------------------------------------------------------------
  // Positions of a view
  // ---------------------------------------------------------------------

  /** The base offsets of a whole view, in row-major order of the view. */
  function ViewOffsets(m: CoordinateMap): (o: seq<int>)
    requires m.Valid() && Positive(m.shape)
    ensures |o| == Size(m.shape)
    ensures forall k :: 0 <= k < |o| ==> InShape(Decode(k, m.shape), m.shape) && o[k] == m.Offset(Decode(k, m.shape))
  {
    assert forall k: nat :: InShape(Decode(k, m.shape), m.shape) by {
      forall k: nat ensures InShape(Decode(k, m.shape), m.shape) {
        DecodeInShape(k, m.shape);
      }
    }
    seq(Size(m.shape), k requires 0 <= k < Size(m.shape) => m.Offset(Decode(k, m.shape)))
  }

  /** The storage position of every element of a view. */
  function ViewPositions(g: Storage, m: CoordinateMap): seq<Position>
    requires g.Valid() && m.Valid() && Positive(m.shape)
  {
    Located(g, ViewOffsets(m))
  }

  lemma ViewInBase(m: CoordinateMap, size: nat)
    requires m.Good(size)
    ensures InBase(ViewOffsets(m), size)
  {
    var o := ViewOffsets(m);
    forall k | 0 <= k < |o| ensures 0 <= o[k] < size {
      assert o[k] == m.Offset(Decode(k, m.shape));
    }
  }

  lemma LinearOffsets(g: Storage, m: CoordinateMap, start: nat, len: nat)
    requires g.Valid() && m.Valid() && Positive(m.shape)
    requires len <= MAX_BATCH_ELEMENTS && start + len <= Size(m.shape) <= U64_MAX
    ensures BatchRequest(Linear(start), len).Valid(m.shape)
    ensures |ViewOffsets(m)| == Size(m.shape)
    ensures Offsets(g, Some(m), BatchRequest(Linear(start), len)) == ViewOffsets(m)[start..start + len]
  {}

  lemma LocatedSlice(g: Storage, offsets: seq<int>, from: nat, to: nat)
    requires g.Valid() && from <= to <= |offsets|
    ensures Located(g, offsets)[from..to] == Located(g, offsets[from..to])
  {}

  // ---------------------------------------------------------------------
  // Padding survives planned updates
  // ---------------------------------------------------------------------

  ghost predicate AllStored<T>(g: Storage, id: nat, updates: seq<(nat, T)>)
    requires g.Valid()
  {
    forall i :: 0 <= i < |updates| ==> Stored(g, id, updates[i].0)
  }

  lemma {:induction false} ApplyKeepsPadding<T>(g: Storage, id: nat, block: seq<T>, updates: seq<(nat, T)>, zero: T)
    requires g.Valid() && InsideBlock(updates, |block|)
    requires PaddingZero(g, id, block, zero) && AllStored(g, id, updates)
    ensures PaddingZero(g, id, Apply(block, updates), zero)
    decreases |updates|
  {
    hide Stored;
    if updates != [] {
      assert AllStored(g, id, updates[..|updates| - 1]);
      ApplyKeepsPadding(g, id, block, updates[..|updates| - 1], zero);
      assert Stored(g, id, updates[|updates| - 1].0);
    }
  }

  lemma {:induction false} UpdatesStored<T>(g: Storage, want: seq<Position>, values: seq<T>, b: nat)
    requires g.Valid() && |values| >= |want|
    requires forall p :: 0 <= p < |want| ==> Stored(g, want[p].block, want[p].offset)
    ensures AllStored(g, b, Updates(want, values, b))
    decreases |want|
  {
    hide Stored;
    if want != [] {
      UpdatesStored(g, want[..|want| - 1], values, b);
    }
  }

  lemma LocatedStored(g: Storage, offsets: seq<int>)
    requires g.Valid() && InBase(offsets, Size(g.shape))
    ensures forall p :: 0 <= p < |offsets| ==> Stored(g, Located(g, offsets)[p].block, Located(g, offsets)[p].offset)
  {
    hide Storage.At;
    var want := Located(g, offsets);
    forall p | 0 <= p < |offsets| ensures Stored(g, want[p].block, want[p].offset) {
      var c := Decode(offsets[p], g.shape);
      FlatOfDecodeInside(offsets[p], g.shape);
      assert g.At(c) == Position(want[p].block, want[p].offset);
    }
  }

  /** What a planned update needs of a valid table. */
  lemma UpdateAccepted<T>(table: map<nat, seq<T>>, g: Storage, zero: T, offsets: seq<int>, values: seq<T>, b: nat)
    requires TableValid(table, g, zero) && InBase(offsets, Size(g.shape)) && |values| == |offsets| && b < g.BlockCount()
    ensures InsideBlock(Updates(Located(g, offsets), values, b), g.BlockLen())
    ensures |StoreOf(table, g, zero)[b]| == g.BlockLen()
    ensures PaddingZero(g, b, Apply(StoreOf(table, g, zero)[b], Updates(Located(g, offsets), values, b)), zero)
  {
    hide Stored, Located, RowValid, Updates;
    var want := Located(g, offsets);
    RowLength(table, g, zero, b);
    LocatedHolds(table, g, zero, offsets);
    UpdatesInside(StoreOf(table, g, zero), want, values, b);
    LocatedStored(g, offsets);
    UpdatesStored(g, want, values, b);
    ApplyKeepsPadding(g, b, StoreOf(table, g, zero)[b], Updates(want, values, b), zero);
  }

  // ---------------------------------------------------------------------
  // Writing
  // ---------------------------------------------------------------------

  /** `write_value`: one coordinate changes, nothing else does. */
  method WriteValue<T>(store: SparseStorage<T>, c: Coord, value: T) returns (r: Outcome)
    requires store.Valid()
    modifies store`table
    ensures store.Valid()
    ensures r.Pass? <==> InShape(c, store.g.shape)
    ensures r.Fail? ==> store.table == old(store.table)
    ensures r.Pass? ==> Holds(old(store.Contents()), store.g.At(c))
    ensures r.Pass? ==> store.Contents() == WriteOne(old(store.Contents()), store.g.At(c), value)
    ensures r.Pass? ==> store.g.Valid() && Stores(store.Contents(), old(store.Contents()), store.g, [c], [value])
  {
    hide Stored, Located, RowValid, Storage.At, Flat, Decode, Size, Stores;
    var g := store.g;
    var position := BlockPosition(g, c);
    if position.Err? {
      return Fail(position.error);
    }
    var p := position.value;
    FlatBound(c, g.shape);
    DecodeOfFlat(c, g.shape);
    ghost var offsets: seq<int> := [Flat(c, g.shape)];
    OneLocated(g, c);
    UpdateAccepted(store.table, g, store.zero, offsets, [value], p.block);
    OneUpdate(store.Contents(), p, value);
    StoresOne(store.table, g, store.zero, c, value);
    r := store.Update(p.block, [(p.offset, value)]);
  }

  lemma StoresOne<T>(table: map<nat, seq<T>>, g: Storage, zero: T, c: Coord, value: T)
    requires TableValid(table, g, zero) && InShape(c, g.shape)
    ensures Holds(StoreOf(table, g, zero), g.At(c))
    ensures Stores(WriteOne(StoreOf(table, g, zero), g.At(c), value), StoreOf(table, g, zero), g, [c], [value])
  {
    hide Storage.At, StoreOf, Stores, WriteOne;
    var was := StoreOf(table, g, zero);
    StoreHolds(table, g, zero);
    StoresSelected(was, g, [c], [g.At(c)], [value]);
    WriteEachSnoc(was, [], g.At(c), [], value);
    WriteEachNone(was, []);
    assert [] + [g.At(c)] == [g.At(c)] && [] + [value] == [value];
  }

  lemma OneLocated(g: Storage, c: Coord)
    requires g.Valid() && InShape(c, g.shape)
    ensures InBase([Flat(c, g.shape)], Size(g.shape))
    ensures Located(g, [Flat(c, g.shape)]) == [g.At(c)]
  {
    hide Storage.At;
    FlatBound(c, g.shape);
    DecodeOfFlat(c, g.shape);
  }

  lemma OneUpdate<T>(store: Store<T>, p: Position, value: T)
    requires p.block in store
    ensures Updates([p], [value], p.block) == [(p.offset, value)]
    ensures p.offset < |store[p.block]| ==>
              InsideBlock([(p.offset, value)], |store[p.block]|)
              && Apply(store[p.block], [(p.offset, value)]) == store[p.block][p.offset := value]
  {
    assert [p][..0] == [];
    assert Updates([p][..0], [value], p.block) == [];
    var u := [(p.offset, value)];
    assert u[..0] == [];
    assert p.offset < |store[p.block]| ==> Apply(store[p.block], u[..0]) == store[p.block];
  }

  /** Blocks already written hold their updated payload, the others are unchanged. */
  ghost predicate Partly<T>(now: Store<T>, was: Store<T>, want: seq<Position>, values: seq<T>, done: seq<nat>)
    requires |values| == |want|
  {
    && now.Keys == was.Keys
    && forall b: nat :: b in was ==>
         if b in done
         then InsideBlock(Updates(want, values, b), |was[b]|) && now[b] == Apply(was[b], Updates(want, values, b))
         else now[b] == was[b]
  }

  /** Once every planned block is written, the store is the sequential result. */
  lemma PartlyDone<T>(now: Store<T>, was: Store<T>, want: seq<Position>, values: seq<T>,
                      updates: map<nat, seq<(nat, T)>>, done: seq<nat>)
    requires |values| == |want| && HoldsAll(was, want) && Partly(now, was, want, values, done)
    requires PlansUpdates(updates, want, values)
    requires forall b: nat :: b in done <==> b in updates
    ensures now == WriteEach(was, want, values)
  {
    hide Updates, WriteEach;
    forall b: nat | b in was ensures now[b] == WriteEach(was, want, values)[b] {
      ApplyIsSequential(was, want, values, b);
    }
  }

  /** Apply one planned batch, block by block. */
  method ApplyPlan<T>(store: SparseStorage<T>, updates: map<nat, seq<(nat, T)>>, ghost offsets: seq<int>,
                      ghost values: seq<T>)
    returns (r: Outcome)
    requires store.Valid() && InBase(offsets, Size(store.g.shape)) && |values| == |offsets|
    requires PlansUpdates(updates, Located(store.g, offsets), values)
    requires forall b :: b in updates ==> b < store.g.BlockCount()
    modifies store`table
    ensures store.Valid() && r.Pass?
    ensures HoldsAll(old(store.Contents()), Located(store.g, offsets))
    ensures store.Contents() == WriteEach(old(store.Contents()), Located(store.g, offsets), values)
  {
    hide Updates, Located, TableValid, StoreOf, WriteEach, HoldsAll, Apply, PaddingZero, InBase, Scan, Stored,
         Partly, PlansUpdates, InsideBlock;
    ValidTable(store.table, store.g, store.zero);
    ghost var was, want := store.Contents(), Located(store.g, offsets);
    LocatedHolds(store.table, store.g, store.zero, offsets);
    var ids := Scan(updates.Keys, 0, store.g.BlockCount());
    ScanAscends(updates.Keys, 0, store.g.BlockCount());
    PartlyStart(was, want, values);
    assert ids[..0] == [];
    for k := 0 to |ids|
      invariant store.Valid() && Partly(store.Contents(), was, want, values, ids[..k])
    {
      var id := ids[k];
      assert id in ids && id !in ids[..k];
      PlansAt(updates, want, values, id);
      UpdateAccepted(store.table, store.g, store.zero, offsets, values, id);
      InStore(store.table, store.g, store.zero, id);
      ghost var now := store.Contents();
      PartlyUntouched(now, was, want, values, ids[..k], id);
      var step := store.Update(id, updates[id]);
      PartlyNext(now, was, want, values, ids[..k], id);
      assert ids[..k + 1] == ids[..k] + [id];
    }
    assert ids[..|ids|] == ids;
    PartlyDone(store.Contents(), was, want, values, updates, ids);
    return Pass;
  }

  lemma PartlyStart<T>(was: Store<T>, want: seq<Position>, values: seq<T>)
    requires |values| == |want|
    ensures Partly(was, was, want, values, [])
  {}

  lemma PartlyUntouched<T>(now: Store<T>, was: Store<T>, want: seq<Position>, values: seq<T>, done: seq<nat>, id: nat)
    requires |values| == |want| && Partly(now, was, want, values, done) && id in now && id !in done
    ensures id in was && now[id] == was[id]
  {}

  lemma PartlyNext<T>(now: Store<T>, was: Store<T>, want: seq<Position>, values: seq<T>, done: seq<nat>, id: nat)
    requires |values| == |want| && Partly(now, was, want, values, done) && id in now && id !in done
    requires InsideBlock(Updates(want, values, id), |now[id]|)
    ensures Partly(now[id := Apply(now[id], Updates(want, values, id))], was, want, values, done + [id])
  {
    hide Apply, Updates;
  }

  lemma InStore<T>(table: map<nat, seq<T>>, g: Storage, zero: T, id: nat)
    requires id < g.BlockCount()
    ensures id in StoreOf(table, g, zero)
  {}

  lemma PlansAt<T>(updates: map<nat, seq<(nat, T)>>, want: seq<Position>, values: seq<T>, id: nat)
    requires |values| == |want| && PlansUpdates(updates, want, values) && id in updates
    ensures updates[id] == Updates(want, values, id)
  {}

  /** One batch of consecutive view elements. */
  method WriteBatch<T>(store: SparseStorage<T>, m: CoordinateMap, start: nat, batch: seq<T>) returns (r: Outcome)
    requires store.Valid() && m.Good(Size(store.g.shape)) && |m.shape| <= MAX_RANK
    requires |batch| <= MAX_BATCH_ELEMENTS && start + |batch| <= Size(m.shape) <= U64_MAX
    modifies store`table
    ensures store.Valid() && r.Pass?
    ensures HoldsAll(old(store.Contents()), ViewPositions(store.g, m)[start..start + |batch|])
    ensures store.Contents() == WriteEach(old(store.Contents()), ViewPositions(store.g, m)[start..start + |batch|], batch)
  {
    hide Updates, Located, TableValid, StoreOf, WriteEach, HoldsAll, InBase, CoordinateMap.InRange,
         CoordinateMap.Bounded, PlansUpdates, ViewOffsets, BatchRequest.Valid, Offsets, CoordinateMap.Offset, Size;
    ValidTable(store.table, store.g, store.zero);
    var request := BatchRequest(Linear(start), |batch|);
    LinearOffsets(store.g, m, start, |batch|);
    LocatedSlice(store.g, ViewOffsets(m), start, start + |batch|);
    var planned := PlanUpdates(store.g, Some(m), request, batch);
    r := ApplyPlan(store, planned.value, Offsets(store.g, Some(m), request), batch);
  }

  /** Bounded batches through a view equal writing every value in row-major
      order of the view; a wrong value count changes nothing. */
  method WriteValues<T>(store: SparseStorage<T>, m: CoordinateMap, values: seq<T>) returns (r: Outcome)
    requires store.Valid() && m.Good(Size(store.g.shape)) && |m.shape| <= MAX_RANK
    modifies store`table
    ensures store.Valid()
    ensures r.Pass? <==> |values| == Size(m.shape) <= U64_MAX
    ensures r.Fail? ==> store.table == old(store.table)
    ensures r.Pass? ==> HoldsAll(old(store.Contents()), ViewPositions(store.g, m))
    ensures r.Pass? ==> store.Contents() == WriteEach(old(store.Contents()), ViewPositions(store.g, m), values)
  {
    hide Located, TableValid, StoreOf, WriteEach, HoldsAll, ViewPositions, Size;
    if Size(m.shape) > U64_MAX || |values| != Size(m.shape) {
      return Fail(DataMismatch);
    }
    ValidTable(store.table, store.g, store.zero);
    ghost var was, all := store.Contents(), ViewPositions(store.g, m);
    ViewHolds(store.table, store.g, store.zero, m);
    WriteEachNone(was, values[..0]);
    assert all[..0] == [];
    var start := 0;
    while start < |values|
      invariant store.Valid() && start <= |values| == |all|
      invariant HoldsAll(was, all[..start]) && store.Contents() == WriteEach(was, all[..start], values[..start])
    {
      var len := Min(MAX_BATCH_ELEMENTS, |values| - start);
      r := WriteBatch(store, m, start, values[start..start + len]);
      BatchConcat(was, all, values, start, start + len);
      start := start + len;
    }
    assert all[..start] == all && values[..start] == values;
    return Pass;
  }

  /** What a bulk write accepts: a valid range, as many values as it selects, and no unused step that
      overflows; a write of no values needs no view. */
  predicate WriteAccepts<T>(shape: seq<nat>, range: seq<AxisRange>, values: seq<T>)
    requires Positive(shape) && Size(shape) <= U64_MAX
  {
    && RangeFits(shape, range) && |values| == Size(RangeLens(range)) <= U64_MAX
    && (values != [] ==> StepsScale(Identity(shape), range))
  }

  /** The view a bulk write goes through; none when there is nothing to write. */
  method WriteView<T>(shape: seq<nat>, range: seq<AxisRange>, values: seq<T>) returns (r: Result<Option<CoordinateMap>>)
    requires Positive(shape) && Size(shape) <= U64_MAX && |shape| <= MAX_RANK
    requires forall i :: 0 <= i < |range| && range[i].Of? ==> |range[i].indices| <= U64_MAX
    ensures r.Ok? <==> WriteAccepts(shape, range, values)
    ensures r.Ok? ==> (r.value.None? <==> values == [])
    ensures r.Ok? && r.value.Some? ==> Written(shape, range, r.value.value) && |values| == Size(r.value.value.shape) <= U64_MAX
  {
    hide Size, RangeFits, SliceAccepts, StepsScale, Reads, CoordinateMap.InRange, CoordinateMap.Bounded, SliceShape,
         Written, CoordinateMap.Offset, Decode, Flat, Cartesian.Coordinate, Cartesian.Len;
    RangeFitsIs(shape, range);
    var counted := ValidateRange(shape, range);
    if counted.Err? {
      return Err(counted.error);
    }
    if counted.value.1 != |values| {
      return Err(DataMismatch);
    }
    if values == [] {
      NothingToScale(shape, range, values);
      return Ok(None);
    }
    IdentityGood(shape);
    RankOf(shape, range);
    RangeSlices(shape, range);
    SizeNonzero(RangeLens(range));
    var sliced := Transforms.Slice(Identity(shape), range, Size(shape));
    if sliced.Err? {
      return Err(sliced.error);
    }
    IsWritten(shape, range, sliced.value);
    return Ok(Some(sliced.value));
  }

  /** In row-major order, the view reads the base at the coordinates the range selects. */
  ghost predicate Written(shape: seq<nat>, range: seq<AxisRange>, view: CoordinateMap)
    requires Positive(shape) && Size(shape) <= U64_MAX
  {
    && view.Good(Size(shape)) && view.shape == SliceShape(range) && |view.shape| <= MAX_RANK
    && Cartesian(AxesOfRange(range)).Len() == Size(view.shape)
    && forall k: nat :: k < Size(view.shape) ==>
         && InShape(Decode(k, view.shape), view.shape) && InShape(Cartesian(AxesOfRange(range)).Coordinate(k), shape)
         && view.Offset(Decode(k, view.shape)) == Flat(Cartesian(AxesOfRange(range)).Coordinate(k), shape)
  }

  lemma IsWritten(shape: seq<nat>, range: seq<AxisRange>, view: CoordinateMap)
    requires Positive(shape) && Size(shape) <= U64_MAX && Identity(shape).Valid()
    requires view.Good(Size(shape)) && view.shape == SliceShape(range) && |view.shape| <= MAX_RANK
    requires Cartesian(AxesOfRange(range)).Len() == Size(view.shape)
    requires forall k: nat :: k < Size(view.shape) ==>
               && InShape(Decode(k, view.shape), view.shape)
               && InShape(Cartesian(AxesOfRange(range)).Coordinate(k), Identity(shape).shape)
               && view.Offset(Decode(k, view.shape)) == Identity(shape).Offset(Cartesian(AxesOfRange(range)).Coordinate(k))
    ensures Written(shape, range, view)
  {
    hide Size, SliceShape, CoordinateMap.InRange, CoordinateMap.Bounded, CoordinateMap.Offset, Decode, Flat,
         Cartesian.Coordinate, Cartesian.Len;
    forall k: nat | k < Size(view.shape)
      ensures view.Offset(Decode(k, view.shape)) == Flat(Cartesian(AxesOfRange(range)).Coordinate(k), shape)
    {
      IdentityOffset(shape, Cartesian(AxesOfRange(range)).Coordinate(k));
    }
  }

  /** The view's elements are stored where the selected coordinates are, in the same order. */
  lemma SelectedPositions(g: Storage, range: seq<AxisRange>, view: CoordinateMap)
    requires g.Valid() && Written(g.shape, range, view)
    ensures |ViewPositions(g, view)| == Cartesian(AxesOfRange(range)).Len()
    ensures forall k :: 0 <= k < Cartesian(AxesOfRange(range)).Len() ==>
              && InShape(Cartesian(AxesOfRange(range)).Coordinate(k), g.shape)
              && ViewPositions(g, view)[k] == g.At(Cartesian(AxesOfRange(range)).Coordinate(k))
  {
    hide Size, CoordinateMap.InRange, CoordinateMap.Bounded, CoordinateMap.Offset, Decode, Flat, Storage.At,
         Cartesian.Coordinate, Cartesian.Len;
    forall k | 0 <= k < Cartesian(AxesOfRange(range)).Len()
      ensures InShape(Cartesian(AxesOfRange(range)).Coordinate(k), g.shape)
      ensures ViewPositions(g, view)[k] == g.At(Cartesian(AxesOfRange(range)).Coordinate(k))
    {
      var c := Cartesian(AxesOfRange(range)).Coordinate(k);
      assert view.Offset(Decode(k, view.shape)) == Flat(c, g.shape);
      DecodeOfFlat(c, g.shape);
      assert ViewOffsets(view)[k] == Flat(c, g.shape);
    }
  }

  /** Values written in order to a list of coordinates: the last one written to a coordinate stays, and
      every other coordinate keeps its value. */
  ghost predicate Stores<T>(now: Store<T>, was: Store<T>, g: Storage, coords: seq<Coord>, values: seq<T>)
    requires g.Valid() && |values| == |coords|
  {
    && (forall c :: InShape(c, g.shape) ==> Holds(was, g.At(c)) && Holds(now, g.At(c)))
    && (forall k :: 0 <= k < |coords| && (forall j :: k < j < |coords| ==> coords[j] != coords[k]) ==>
          InShape(coords[k], g.shape) && now[g.At(coords[k]).block][g.At(coords[k]).offset] == values[k])
    && forall c :: InShape(c, g.shape) && c !in coords ==>
         now[g.At(c).block][g.At(c).offset] == was[g.At(c).block][g.At(c).offset]
  }

  lemma StoresSelected<T>(was: Store<T>, g: Storage, coords: seq<Coord>, want: seq<Position>, values: seq<T>)
    requires g.Valid() && |values| == |coords| == |want| && HoldsAll(was, want)
    requires forall k :: 0 <= k < |coords| ==> InShape(coords[k], g.shape) && want[k] == g.At(coords[k])
    requires forall c :: InShape(c, g.shape) ==> Holds(was, g.At(c))
    ensures Stores(WriteEach(was, want, values), was, g, coords, values)
  {
    hide WriteEach, Storage.At;
    var now := WriteEach(was, want, values);
    forall c | InShape(c, g.shape)
      ensures Holds(now, g.At(c))
      ensures c !in coords ==> now[g.At(c).block][g.At(c).offset] == was[g.At(c).block][g.At(c).offset]
    {
      LastWriteWins(was, want, values, g.At(c));
      if c !in coords && g.At(c) in want {
        var k :| 0 <= k < |want| && want[k] == g.At(c);
        AtInjective(g, c, coords[k]);
      }
    }
    forall k | 0 <= k < |coords| && (forall j :: k < j < |coords| ==> coords[j] != coords[k])
      ensures now[g.At(coords[k]).block][g.At(coords[k]).offset] == values[k]
    {
      LastWriteWins(was, want, values, want[k]);
      forall j | k < j < |want| ensures want[j] != want[k] {
        if want[j] == want[k] {
          AtInjective(g, coords[j], coords[k]);
        }
      }
      assert LastAt(want, k);
    }
  }

  /** `write_values`: the values go, in row-major order, to the coordinates the range selects. */
  method WriteRange<T>(store: SparseStorage<T>, range: seq<AxisRange>, values: seq<T>)
    returns (r: Outcome, ghost view: CoordinateMap)
    requires store.Valid() && |store.g.shape| <= MAX_RANK && Positive(store.g.shape) && Size(store.g.shape) <= U64_MAX
    requires forall i :: 0 <= i < |range| && range[i].Of? ==> |range[i].indices| <= U64_MAX
    modifies store`table
    ensures store.Valid()
    ensures r.Pass? <==> WriteAccepts(store.g.shape, range, values)
    ensures r.Fail? || values == [] ==> store.table == old(store.table)
    ensures r.Pass? && values != [] ==>
              && Written(store.g.shape, range, view) && |values| == Size(view.shape)
              && HoldsAll(old(store.Contents()), ViewPositions(store.g, view))
              && store.Contents() == WriteEach(old(store.Contents()), ViewPositions(store.g, view), values)
    ensures r.Pass? && values != [] ==>
              var coords := Cartesian(AxesOfRange(range)).Coords();
              |coords| == |values| && Stores(store.Contents(), old(store.Contents()), store.g, coords, values)
  {
    hide TableValid, StoreOf, WriteEach, HoldsAll, ViewPositions, Size, WriteAccepts, SliceShape, Stores,
         CoordinateMap.InRange, CoordinateMap.Bounded, CoordinateMap.Offset, Decode, Flat, Cartesian.Coordinate,
         Cartesian.Len;
    view := Identity(store.g.shape);
    var target := WriteView(store.g.shape, range, values);
    if target.Err? {
      return Fail(target.error), view;
    }
    if target.value.None? {
      return Pass, view;
    }
    view := target.value.value;
    ValidTable(store.table, store.g, store.zero);
    StoreHolds(store.table, store.g, store.zero);
    ViewHolds(store.table, store.g, store.zero, view);
    SelectedPositions(store.g, range, view);
    StoresSelected(store.Contents(), store.g, Cartesian(AxesOfRange(range)).Coords(), ViewPositions(store.g, view), values);
    r := WriteValues(store, target.value.value, values);
  }

  /** A valid table has a value at every coordinate. */
  lemma StoreHolds<T>(table: map<nat, seq<T>>, g: Storage, zero: T)
    requires TableValid(table, g, zero)
    ensures g.Valid() && forall c :: InShape(c, g.shape) ==> Holds(StoreOf(table, g, zero), g.At(c))
  {
    hide Storage.At;
    forall c | InShape(c, g.shape) ensures Holds(StoreOf(table, g, zero), g.At(c)) {
      AtInside(g, c);
      RowLength(table, g, zero, g.At(c).block);
    }
  }

  lemma NothingToScale<T>(shape: seq<nat>, range: seq<AxisRange>, values: seq<T>)
    requires Positive(shape) && Size(shape) <= U64_MAX && values == []
    requires RangeFits(shape, range) && |values| == Size(RangeLens(range)) <= U64_MAX
    ensures WriteAccepts(shape, range, values)
  {}

  lemma RankOf(shape: seq<nat>, range: seq<AxisRange>)
    ensures RangeFits(shape, range) ==> |range| == |shape|
  {}

  lemma SizeNonzero(lens: seq<nat>)
    ensures Size(lens) > 0 ==> Positive(lens)
  {
    if i :| 0 <= i < |lens| && lens[i] == 0 {
      ZeroSize(lens, i);
    }
  }

  lemma ViewHolds<T>(table: map<nat, seq<T>>, g: Storage, zero: T, m: CoordinateMap)
    requires TableValid(table, g, zero) && m.Good(Size(g.shape))
    ensures HoldsAll(StoreOf(table, g, zero), ViewPositions(g, m))
    ensures HoldsAll(StoreOf(table, g, zero), [])
    ensures |ViewPositions(g, m)| == Size(m.shape)
  {
    hide StoreOf, Located;
    ViewInBase(m, Size(g.shape));
    LocatedHolds(table, g, zero, ViewOffsets(m));
  }

  lemma BatchConcat<T>(was: Store<T>, all: seq<Position>, values: seq<T>, from: nat, to: nat)
    requires HoldsAll(was, all) && |values| == |all| && from <= to <= |all|
    ensures HoldsAll(was, all[..from]) && HoldsAll(was, all[..to])
    ensures HoldsAll(WriteEach(was, all[..from], values[..from]), all[from..to])
    ensures WriteEach(WriteEach(was, all[..from], values[..from]), all[from..to], values[from..to])
         == WriteEach(was, all[..to], values[..to])
  {
    hide WriteEach, Holds;
    WriteEachConcat(was, all[..from], all[from..to], values[..from], values[from..to]);
    assert all[..from] + all[from..to] == all[..to] && values[..from] + values[from..to] == values[..to];
  }

  /** After a bulk write through a view without duplicates, every batch reads back its values. */
  lemma ReadsBack<T>(was: Store<T>, g: Storage, m: CoordinateMap, values: seq<T>, start: nat, len: nat)
    requires g.Valid() && m.Good(Size(g.shape)) && |values| == Size(m.shape) <= U64_MAX
    requires HoldsAll(was, ViewPositions(g, m)) && DuplicateFree(ViewPositions(g, m))
    requires start + len <= Size(m.shape) && len <= MAX_BATCH_ELEMENTS
    ensures var now := WriteEach(was, ViewPositions(g, m), values);
            var want := Located(g, Offsets(g, Some(m), BatchRequest(Linear(start), len)));
            HoldsAll(now, want) && ReadEach(now, want) == values[start..start + len]
  {
    hide WriteEach, Located, Holds, DuplicateFree, ViewOffsets, Offsets, CoordinateMap.InRange,
         CoordinateMap.Bounded, BatchRequest.Valid, Size, CoordinateMap.Offset;
    var all := ViewPositions(g, m);
    LinearOffsets(g, m, start, len);
    LocatedSlice(g, ViewOffsets(m), start, start + len);
    WriteThenRead(was, all, values);
  }

  // ---------------------------------------------------------------------
  // Filling
  // ---------------------------------------------------------------------

  /** One block of a filled tensor: the value where a coordinate is stored, zero elsewhere. */
  ghost predicate FilledBlock<T>(g: Storage, id: nat, block: seq<T>, value: T, zero: T)
    requires g.Valid()
  {
    |block| == g.BlockLen() && forall o :: 0 <= o < |block| ==> block[o] == if Stored(g, id, o) then value else zero
  }

  /** Write the value at every valid offset of a zeroed block. */
  method FillBlock<T>(g: Storage, id: nat, value: T, zero: T) returns (r: seq<T>)
    requires g.Valid() && id < g.BlockCount()
    ensures FilledBlock(g, id, r, value, zero)
  {
    hide Stored, OffsetAt, Storage.Bounds, Size, Flat;
    var bounds := BlockBounds(g, id);
    BoundsFit(g, id);
    ghost var e := Extents(bounds.value);
    r := ZeroBlock(g.BlockLen(), zero);
    var cursor := new BlockCursor(bounds.value, g.blockStrides, g.block);
    cursor.Current();
    ghost var k := 0;
    while !cursor.done
      invariant cursor.Valid() && cursor.bounds == bounds.value && cursor.block == g.block && Positive(e)
      invariant k == cursor.Position() <= Size(e) && (cursor.done <==> k == Size(e))
      invariant |r| == g.BlockLen()
      invariant forall o :: 0 <= o < |r| ==> r[o] == if WalkedTo(g, e, k, o) then value else zero
      decreases Size(e) - k
    {
      cursor.Current();
      OffsetOrder(g, id, k);
      WalkedNext(g, e, k);
      r := r[cursor.offset := value];
      cursor.Advance();
      k := k + 1;
    }
    forall o | 0 <= o < |r| ensures WalkedTo(g, e, k, o) <==> Stored(g, id, o) {
      StoredIsOffset(g, id, o);
    }
  }

  /** The offset is one of the first `k` valid ones. */
  ghost predicate WalkedTo(g: Storage, extents: seq<nat>, k: nat, o: nat)
    requires g.Valid() && |extents| == |g.block| && Positive(extents)
  {
    exists j :: 0 <= j < k && OffsetAt(g.block, extents, j) == o
  }

  lemma WalkedNext(g: Storage, extents: seq<nat>, k: nat)
    requires g.Valid() && |extents| == |g.block| && Positive(extents)
    ensures forall o: nat :: WalkedTo(g, extents, k + 1, o) <==>
              WalkedTo(g, extents, k, o) || OffsetAt(g.block, extents, k) == o
  {
    hide OffsetAt;
    forall o: nat
      ensures WalkedTo(g, extents, k + 1, o) <==> WalkedTo(g, extents, k, o) || OffsetAt(g.block, extents, k) == o
    {
      if WalkedTo(g, extents, k, o) {
        var j :| 0 <= j < k && OffsetAt(g.block, extents, j) == o;
        assert 0 <= j < k + 1 && OffsetAt(g.block, extents, j) == o;
      }
    }
  }

  /** `fill`: every coordinate holds the value, padding stays zero. */
  method Fill<T>(store: SparseStorage<T>, value: T) returns (r: Outcome)
    requires store.Valid()
    modifies store`table
    ensures store.Valid() && r.Pass?
    ensures forall id :: 0 <= id < store.g.BlockCount() ==>
              FilledBlock(store.g, id, store.Contents()[id], value, store.zero)
  {
    hide FilledBlock, TableValid, Stored, StoreOf;
    ValidTable(store.table, store.g, store.zero);
    var id := 0;
    while id < store.g.BlockCount()
      invariant store.Valid() && id <= store.g.BlockCount()
      invariant forall k :: 0 <= k < id ==> k in store.Contents() && FilledBlock(store.g, k, store.Contents()[k], value, store.zero)
    {
      var previous := store.Read(id);
      var block := FillBlock(store.g, id, value, store.zero);
      FilledPadding(store.g, id, block, value, store.zero);
      InStore(store.table, store.g, store.zero, id);
      var step := store.Replace(id, block);
      id := id + 1;
    }
    return Pass;
  }

  lemma FilledPadding<T>(g: Storage, id: nat, block: seq<T>, value: T, zero: T)
    requires g.Valid() && FilledBlock(g, id, block, value, zero)
    ensures |block| == g.BlockLen() && PaddingZero(g, id, block, zero)
  {
    hide Stored;
  }

  /** After a fill, every coordinate reads the value. */
  lemma FillReads<T>(g: Storage, store: Store<T>, value: T, zero: T, c: Coord)
    requires g.Valid() && InShape(c, g.shape)
    requires forall id :: 0 <= id < g.BlockCount() ==> id in store && FilledBlock(g, id, store[id], value, zero)
    ensures Holds(store, g.At(c)) && ReadOne(store, g.At(c)) == value
  {
    AtInside(g, c);
    var p := g.At(c);
    assert g.At(c) == Position(p.block, p.offset);
    assert Stored(g, p.block, p.offset);
    assert FilledBlock(g, p.block, store[p.block], value, zero);
  }
}
