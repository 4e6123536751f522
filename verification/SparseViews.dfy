/** Sparse views: the mapping of a view, its descriptor and the occupancy index work together. */
module SparseViews {
  import opened Radix
  import opened Wrappers
  import opened Request
  import opened Geometry
  import opened Mapping
  import opened StorageSlices
  import opened Slices
  import opened SliceChunks
  import opened BlockData
  import opened StorageRead
  import opened SparseStore
  import opened Occupied
  import opened OrderedTraversal
  import opened Reduce

  /** The mapping of a view; an untransformed tensor has none and reads every coordinate at itself. */
  function ViewMap(g: Storage, mapping: Option<CoordinateMap>): (m: CoordinateMap)
    requires g.Valid()
    ensures m.shape == ViewShape(g, mapping)
  {
    match mapping
    case Some(m) => m
    case None => Identity(g.shape)
  }

  /** Where a view keeps the value of a logical coordinate. */
  ghost function ViewPosition(g: Storage, m: CoordinateMap, c: Coord): Position
    requires g.Valid() && m.Valid() && InShape(c, m.shape)
  {
    g.At(Decode(Max(0, m.Offset(c)), g.shape))
  }

  /** The logical values of a view over a store, one coordinate at a time. */
  ghost predicate ViewReads<T>(value: Coord -> T, store: Store<T>, g: Storage, m: CoordinateMap)
    requires g.Valid() && m.Valid()
  {
    forall c: Coord :: InShape(c, m.shape) ==>
      Holds(store, ViewPosition(g, m, c)) && value(c) == ReadOne(store, ViewPosition(g, m, c))
  }

  /** The map is one a view can have. */
  ghost predicate ViewOf(g: Storage, m: CoordinateMap) {
    g.Valid() && m.Good(Size(g.shape)) && |m.shape| <= MAX_RANK
  }

  /** The value a table holds at a position; absent blocks are zero. */
  function StoredAt<T>(table: map<nat, seq<T>>, zero: T, p: Position): T {
    if p.block in table && p.offset < |table[p.block]| then table[p.block][p.offset] else zero
  }

  /** The value of a view over a table at a logical coordinate. */
  function ViewValue<T>(g: Storage, table: map<nat, seq<T>>, mapping: Option<CoordinateMap>, zero: T, c: Coord): T {
    if g.Valid() then
      var m := ViewMap(g, mapping);
      if m.Valid() && InShape(c, m.shape) then StoredAt(table, zero, g.At(Decode(Max(0, m.Offset(c)), g.shape))) else zero
    else zero
  }

  /** A valid table is read by its view. */
  lemma TableReads<T>(value: Coord -> T, g: Storage, table: map<nat, seq<T>>, mapping: Option<CoordinateMap>, zero: T)
    requires TableValid(table, g, zero) && ViewOf(g, ViewMap(g, mapping))
    requires forall c: Coord :: InShape(c, ViewShape(g, mapping)) ==> value(c) == ViewValue(g, table, mapping, zero, c)
    ensures ViewReads(value, StoreOf(table, g, zero), g, ViewMap(g, mapping))
  {
    hide Storage.At, CoordinateMap.Offset, Decode, Size, HasNonzero, CoordinateMap.InRange, CoordinateMap.Bounded;
    var m, store := ViewMap(g, mapping), StoreOf(table, g, zero);
    forall c: Coord | InShape(c, m.shape)
      ensures Holds(store, ViewPosition(g, m, c)) && value(c) == ReadOne(store, ViewPosition(g, m, c))
    {
      var p := ViewPosition(g, m, c);
      ViewPositionInside(g, m, c);
      if p.block in table {
        assert RowValid(g, p.block, table[p.block], zero);
      }
    }
  }

  lemma ViewPositionInside(g: Storage, m: CoordinateMap, c: Coord)
    requires ViewOf(g, m) && InShape(c, m.shape)
    ensures ViewPosition(g, m, c).block < g.BlockCount() && ViewPosition(g, m, c).offset < g.BlockLen()
  {
    hide CoordinateMap.Offset, Decode, Storage.At;
    assert 0 <= m.Offset(c) < Size(g.shape);
    DecodeInShape(m.Offset(c), g.shape);
    AtInside(g, Decode(m.Offset(c), g.shape));
  }

  /** A batch read through the view is the view evaluated at every requested coordinate. */
  lemma BatchIsEvaluation<T>(value: Coord -> T, store: Store<T>, g: Storage, mapping: Option<CoordinateMap>,
                             request: BatchRequest)
    requires g.Valid() && ViewOf(g, ViewMap(g, mapping)) && ViewReads(value, store, g, ViewMap(g, mapping))
    requires request.Valid(ViewShape(g, mapping))
    ensures var want := Located(g, Offsets(g, mapping, request));
            HoldsAll(store, want) && ReadEach(store, want) == ValuesAt(value, request.Coords(ViewShape(g, mapping)))
  {
    hide CoordinateMap.Offset, Decode, Size, BatchRequest.Valid, BatchRequest.Coords, Storage.At, Flat;
    var m, want := ViewMap(g, mapping), Located(g, Offsets(g, mapping, request));
    forall i | 0 <= i < |want|
      ensures Holds(store, want[i]) && ReadOne(store, want[i]) == value(request.Coords(m.shape)[i])
    {
      var c := request.Coords(m.shape)[i];
      if mapping.None? {
        IdentityIs(m, g.shape, c);
      }
      assert InShape(c, m.shape) && want[i] == ViewPosition(g, m, c);
    }
  }

  /** `read_batch` of a tensor or a view: its value at every requested coordinate, in request order. It
      fails exactly when an unused step overflows. */
  method ReadView<T>(store: SparseStorage<T>, mapping: Option<CoordinateMap>, request: BatchRequest, ghost value: Coord -> T)
    returns (r: Result<seq<T>>)
    requires store.Valid() && store.g.Valid() && ViewOf(store.g, ViewMap(store.g, mapping))
    requires ViewReads(value, store.Contents(), store.g, ViewMap(store.g, mapping))
    requires request.Valid(ViewShape(store.g, mapping))
    ensures r.Ok? <==> Plannable(store.g, mapping, request)
    ensures r.Ok? ==> r.value == ValuesAt(value, request.Coords(ViewShape(store.g, mapping)))
  {
    hide Plannable, StoreOf, ViewReads, TableValid, Located, Offsets, CoordinateMap.InRange, CoordinateMap.Bounded,
         Size;
    r := store.ReadBatch(mapping, request);
    BatchIsEvaluation(value, store.Contents(), store.g, mapping, request);
  }

  /** Reading at the descriptor's placement is reading through the map. */
  lemma DescriptorReads<T>(value: Coord -> T, store: Store<T>, g: Storage, m: CoordinateMap, s: StorageSlice,
                           slice: Slice)
    requires ViewOf(g, m) && ViewReads(value, store, g, m) && Describes(s, m, g.shape)
    requires slice.Valid() && slice.shape == m.shape
    ensures Selects(slice, s, g) && ReadsStore(value, s, g, store, slice.shape)
  {
    hide CoordinateMap.Offset, Size, Storage.At, StorageSlice.Place;
    forall c: Coord | InShape(c, slice.shape) && |c| == |s.axes|
      ensures Holds(store, g.At(s.Place(c))) && value(c) == ReadOne(store, g.At(s.Place(c)))
    {
      FirstBlock(g);
      BlockPreimage(s, m, g, 0, c);
      assert Holds(store, ViewPosition(g, m, c));
    }
  }

  lemma FirstBlock(g: Storage)
    requires g.Valid()
    ensures 0 < g.BlockCount()
  {
    ZerosInShape(g.shape);
    AtInside(g, Zeros(|g.shape|));
  }

  /** The separable description of a view, when it has one. */
  method Describe(g: Storage, mapping: Option<CoordinateMap>) returns (r: Result<Option<StorageSlice>>)
    requires g.Valid() && ViewOf(g, ViewMap(g, mapping))
    ensures r.Ok? && (r.value.Some? ==> Describes(r.value.value, ViewMap(g, mapping), g.shape))
    ensures mapping.None? ==> r == Ok(Some(IdentitySlice(g.shape)))
  {
    hide Describes, Strides, Size, CoordinateMap.InRange, CoordinateMap.Bounded;
    match mapping {
      case None =>
        IdentityDescribes(g.shape);
        return Ok(Some(IdentitySlice(g.shape)));
      case Some(m) =>
        r := FindSlice(m, g.shape, Strides(g.shape));
    }
  }

  /** `slice_requests_for_storage`: whatever route is taken, the batches visit part of the selection
      and everything they skip is zero. */
  method ViewBatches<T>(store: SparseStorage<T>, mapping: Option<CoordinateMap>, slice: Slice, ghost value: Coord -> T)
    returns (r: Result<seq<BatchRequest>>, ghost skipped: seq<Coord>)
    requires store.Valid() && ViewOf(store.g, ViewMap(store.g, mapping))
    requires ViewReads(value, store.Contents(), store.g, ViewMap(store.g, mapping))
    requires slice.Valid() && slice.shape == ViewShape(store.g, mapping)
    ensures r.Ok? && BatchesValid(r.value, slice.shape) && AllKeep(r.value, slice.axes)
    ensures Candidates(value, slice.Coords(), AllCoords(r.value, slice.shape), skipped, store.zero)
  {
    hide Candidates, AllCoords, BatchRequest.Valid, Slice.Coords, StoreOf, ViewReads, ReadsStore, Selects, Describes,
         TableValid, AllKeep;
    AllCandidates(value, slice.Coords(), store.zero);
    skipped := [];
    if slice.len <= MAX_BATCH_ELEMENTS {
      var all := Requests(slice);
      return Ok(all), skipped;
    }
    StoreGeometry(store.table, store.g, store.zero);
    ghost var m := ViewMap(store.g, mapping);
    var found := Describe(store.g, mapping);
    if found.value.None? {
      var all := Requests(slice);
      return Ok(all), skipped;
    }
    var s := found.value.value;
    DescriptorReads(value, store.Contents(), store.g, m, s, slice);
    var requests, indexed := SliceBatches(store, false, slice, s);
    if indexed {
      skipped := OccupiedCandidates(value, slice, s, store.g, store.table, store.zero);
      SameCandidates(value, slice.Coords(), OccupiedCoords(slice, s, store.g, store.table), AllCoords(requests, slice.shape),
                     skipped, store.zero);
    }
    return Ok(requests), skipped;
  }

  lemma StoreGeometry<T>(table: map<nat, seq<T>>, g: Storage, zero: T)
    requires TableValid(table, g, zero)
    ensures g.Valid() && Positive(g.shape) && Size(g.shape) <= U64_MAX
  {}

  /** `ordered_storage_requests`: sorted batches that include every nonzero selected coordinate. */
  method ViewOrdered<T>(store: SparseStorage<T>, mapping: Option<CoordinateMap>, slice: Slice, ghost value: Coord -> T)
    returns (r: Result<seq<BatchRequest>>)
    requires store.Valid() && ViewOf(store.g, ViewMap(store.g, mapping))
    requires ViewReads(value, store.Contents(), store.g, ViewMap(store.g, mapping))
    requires slice.Valid() && slice.shape == ViewShape(store.g, mapping)
    ensures r.Ok? && BatchesValid(r.value, slice.shape) && AllKeep(r.value, slice.axes)
    ensures StrictAxes(slice) ==> Complete(value, store.zero, slice, AllCoords(r.value, slice.shape))
  {
    hide AllCoords, BatchRequest.Valid, Slice.Coords, StoreOf, ViewReads, ReadsStore, Selects, Describes, TableValid,
         InOrder, StrictAxes, Complete, AllKeep;
    StoreGeometry(store.table, store.g, store.zero);
    if StrictAxes(slice) {
      SliceInOrder(slice);
      SliceComplete(value, store.zero, slice);
    }
    ghost var m := ViewMap(store.g, mapping);
    var found := Describe(store.g, mapping);
    if found.value.None? {
      var all := Requests(slice);
      return Ok(all);
    }
    var s := found.value.value;
    DescriptorReads(value, store.Contents(), store.g, m, s, slice);
    var requests, indexed := OrderedBatches(store, false, slice, s);
    if indexed && StrictAxes(slice) {
      OccupiedComplete(value, store.zero, slice, s, store.g, store.table, AllCoords(requests, slice.shape));
    }
    return Ok(requests);
  }

  lemma SliceComplete<T>(value: Coord -> T, zero: T, slice: Slice)
    requires InOrder(slice.Coords())
    ensures Complete(value, zero, slice, slice.Coords())
  {}

  /** The occupied coordinates of a sorted selection include every nonzero one. */
  lemma OccupiedComplete<T>(value: Coord -> T, zero: T, slice: Slice, s: StorageSlice, g: Storage,
                            table: map<nat, seq<T>>,
                            visited: seq<Coord>)
    requires Selects(slice, s, g) && ReadsStore(value, s, g, StoreOf(table, g, zero), slice.shape)
    requires InOrder(visited) && visited == OccupiedCoords(slice, s, g, table)
    ensures Complete(value, zero, slice, visited)
  {
    hide Candidates, Selects, ReadsStore, InOrder, OccupiedCoords, StoreOf, Slice.Coords;
    var skipped := OccupiedCandidates(value, slice, s, g, table, zero);
    CandidatesComplete(value, zero, slice, visited, skipped);
  }

  lemma CandidatesComplete<T>(value: Coord -> T, zero: T, slice: Slice, visited: seq<Coord>, skipped: seq<Coord>)
    requires InOrder(visited) && Candidates(value, slice.Coords(), visited, skipped, zero)
    ensures Complete(value, zero, slice, visited)
  {
    hide InOrder, Slice.Coords;
    var coords := slice.Coords();
    forall x | x in visited ensures x in coords {
      assert x in multiset(visited);
      assert x in multiset(coords);
    }
    forall x | x in coords && value(x) != zero ensures x in visited {
      assert x in multiset(coords);
      assert x in multiset(visited) + multiset(skipped);
      assert x !in skipped;
    }
  }

  // ---------------------------------------------------------------------
  // Whole shapes
  // ---------------------------------------------------------------------

  function FullAxes(shape: seq<nat>): (axes: seq<Axis>)
    ensures |axes| == |shape| && forall i :: 0 <= i < |shape| ==> axes[i] == Span(0, 1, shape[i])
  {
    seq(|shape|, i requires 0 <= i < |shape| => Span(0, 1, shape[i]))
  }

  /** The full selection enumerates the shape in row-major order. */
  lemma FullCoords(shape: seq<nat>, i: nat)
    requires Positive(shape) && i < Size(shape)
    ensures AxesValid(FullAxes(shape), shape) && Cartesian(FullAxes(shape)).Len() == Size(shape)
    ensures Cartesian(FullAxes(shape)).Coordinate(i) == Decode(i, shape)
  {
    hide Size, Decode;
    assert Lens(FullAxes(shape)) == shape;
    DecodeInShape(i, shape);
  }

  /** Every logical value of a view, in row-major order. */
  ghost function AllValuesOf<T>(value: Coord -> T, shape: seq<nat>): (v: seq<T>)
    requires Positive(shape)
    ensures |v| == Size(shape) && forall i :: 0 <= i < |v| ==> v[i] == value(Decode(i, shape))
  {
    seq(Size(shape), i requires 0 <= i < Size(shape) => value(Decode(i, shape)))
  }

  lemma FullValues<T>(value: Coord -> T, shape: seq<nat>, slice: Slice)
    requires Positive(shape) && slice.Valid() && slice.shape == shape && slice.axes == FullAxes(shape)
    ensures |slice.Coords()| == slice.len && ValuesAt(value, slice.Coords()) == AllValuesOf(value, shape)
  {
    hide Size, Decode, Cartesian.Coordinate, Cartesian.Len;
    SizePositive(shape);
    FullCoords(shape, 0);
    forall i | 0 <= i < |slice.Coords()| ensures slice.Coords()[i] == Decode(i, shape) {
      FullCoords(shape, i);
    }
  }
}
