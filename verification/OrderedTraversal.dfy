/** Which requests a sparse selection is enumerated with, and when their order is logical. */
module OrderedTraversal {
  import opened Radix
  import opened Wrappers
  import opened Request
  import opened Geometry
  import opened StorageSlices
  import opened Slices
  import opened SliceChunks
  import opened SparseStore
  import opened KeyScans
  import opened Grouping
  import opened Occupied

  predicate BatchesValid(requests: seq<BatchRequest>, shape: seq<nat>) {
    forall i :: 0 <= i < |requests| ==> requests[i].Valid(shape) && 0 < requests[i].len <= MAX_BATCH_ELEMENTS
  }

  /** The selected coordinates stored in occupied blocks, in slice order. */
  ghost function OccupiedCoords<T>(slice: Slice, s: StorageSlice, g: Storage, table: map<nat, seq<T>>): seq<Coord>
    requires Selects(slice, s, g)
  {
    Marked(slice.Coords(), Marks(slice, s, g), Scan(table.Keys, 0, g.BlockCount()))
  }

  /** A coordinate is visited as often as it is selected where its block is occupied, and never elsewhere. */
  lemma OccupiedCount<T>(slice: Slice, s: StorageSlice, g: Storage, table: map<nat, seq<T>>, x: Coord)
    requires Selects(slice, s, g) && InShape(x, slice.shape)
    ensures multiset(OccupiedCoords(slice, s, g, table))[x]
         == if g.At(s.Place(x)).block in table then multiset(slice.Coords())[x] else 0
  {
    hide Marked, Slice.Coords, Storage.At, StorageSlice.Place, Scan;
    var coords, marks, ids := slice.Coords(), Marks(slice, s, g), Scan(table.Keys, 0, g.BlockCount());
    MarkedCount(coords, marks, ids, x, g.At(s.Place(x)).block);
    ScanAscends(table.Keys, 0, g.BlockCount());
    AtInside(g, s.Place(x));
  }

  /** Every coordinate that is visited lies in the shape. */
  lemma {:induction false} BatchesInside(requests: seq<BatchRequest>, shape: seq<nat>)
    requires BatchesValid(requests, shape)
    ensures forall x :: x in AllCoords(requests, shape) ==> InShape(x, shape)
    decreases |requests|
  {
    hide BatchRequest.Coords, BatchRequest.Valid;
    if requests != [] {
      var n := |requests| - 1;
      BatchesInside(requests[..n], shape);
      forall i | 0 <= i < requests[n].len ensures InShape(requests[n].Coords(shape)[i], shape) {
        CoordsInside(requests[n], shape, i);
      }
    }
  }

  // ---------------------------------------------------------------------
  // The indexed enumeration
  // ---------------------------------------------------------------------

  /** Blocks outside the selection's interval contribute nothing. */
  lemma IntervalSuffices<T>(slice: Slice, s: StorageSlice, g: Storage, table: map<nat, seq<T>>, first: nat, end: nat)
    requires Selects(slice, s, g) && first <= end <= g.BlockCount()
    requires forall i :: 0 <= i < |Marks(slice, s, g)| ==> first <= Marks(slice, s, g)[i] < end
    ensures Grouped(slice.Coords(), Marks(slice, s, g), Scan(table.Keys, first, end))
         == Grouped(slice.Coords(), Marks(slice, s, g), Scan(table.Keys, 0, g.BlockCount()))
  {
    hide Marks, Grouped, Scan, Slice.Coords, Selects;
    var coords, marks, keys := slice.Coords(), Marks(slice, s, g), table.Keys;
    ScanSplit(keys, 0, first, g.BlockCount());
    ScanSplit(keys, first, end, g.BlockCount());
    var a, b, c := Scan(keys, 0, first), Scan(keys, first, end), Scan(keys, end, g.BlockCount());
    ScanAscends(keys, 0, first);
    ScanAscends(keys, end, g.BlockCount());
    GroupedNone(coords, marks, a);
    GroupedNone(coords, marks, c);
    GroupedConcat(coords, marks, b, c);
    GroupedConcat(coords, marks, a, b + c);
  }

  /** Drain the indexed walk: together its batches hold exactly the occupied selection. */
  method IndexedBatches<T>(store: SparseStorage<T>, slice: Slice, s: StorageSlice) returns (requests: seq<BatchRequest>)
    requires store.Valid() && Selects(slice, s, store.g) && slice.len > 0
    ensures BatchesValid(requests, slice.shape) && AllKeep(requests, slice.axes)
    ensures AllCoords(requests, slice.shape)
         == Grouped(slice.Coords(), Marks(slice, s, store.g), Scan(store.table.Keys, 0, store.g.BlockCount()))
  {
    hide Selects, Grouped, Slice.Coords, Marks, Scan, OccupiedBlocks.Valid, OccupiedBlocks.Remaining,
         IndexedRequests.Valid, IndexedRequests.Rest, BatchRequest.Valid, BatchRequest.Coords, AllCoords, TableValid,
         RequestKeeps;
    ValidTable(store.table, store.g, store.zero);
    var range := IndexRange(slice, s, store.g);
    var (first, end) := range.value;
    var keys := new OccupiedBlocks(store, first, end);
    var walk := new IndexedRequests(slice, s, keys);
    IntervalSuffices(slice, s, store.g, store.table, first, end);
    ghost var all := walk.Rest();
    requests := [];
    NoBatches(slice.shape);
    var next := walk.Next();
    ghost var left := if next.None? then [] else next.value.Coords(slice.shape) + walk.Rest();
    while next.Some?
      invariant walk.Valid() && fresh(walk) && fresh(walk.keys) && (walk.pending == null || fresh(walk.pending))
      invariant walk.slice == slice && BatchesValid(requests, slice.shape) && AllKeep(requests, slice.axes)
      invariant next.Some? ==> 0 < next.value.len && next.value.Valid(slice.shape) && RequestKeeps(next.value, slice.axes)
      invariant left == if next.None? then [] else next.value.Coords(slice.shape) + walk.Rest()
      invariant AllCoords(requests, slice.shape) + left == all
      decreases |left|
    {
      ghost var rest := walk.Rest();
      TakeBatch(requests, next.value, slice.shape, rest);
      requests := requests + [next.value];
      next := walk.Next();
      left := if next.None? then [] else next.value.Coords(slice.shape) + walk.Rest();
    }
    assert AllCoords(requests, slice.shape) + [] == AllCoords(requests, slice.shape);
  }

  lemma NoBatches(shape: seq<nat>)
    ensures AllCoords([], shape) == []
  {}

  lemma TakeBatch(requests: seq<BatchRequest>, next: BatchRequest, shape: seq<nat>, rest: seq<Coord>)
    requires BatchesValid(requests, shape) && next.Valid(shape) && 0 < next.len
    ensures BatchesValid(requests + [next], shape)
    ensures AllCoords(requests + [next], shape) + rest == AllCoords(requests, shape) + (next.Coords(shape) + rest)
    ensures |rest| < |next.Coords(shape) + rest|
  {
    hide BatchRequest.Coords;
    assert next.len <= MAX_BATCH_ELEMENTS;
    assert (requests + [next])[..|requests|] == requests;
  }

  /** `slice_requests`: everything for dense or small selections, otherwise the occupied blocks,
      each selected coordinate as often as the slice selects it. */
  method SliceBatches<T>(store: SparseStorage<T>, dense: bool, slice: Slice, s: StorageSlice)
    returns (requests: seq<BatchRequest>, indexed: bool)
    requires store.Valid() && Selects(slice, s, store.g)
    ensures BatchesValid(requests, slice.shape) && AllKeep(requests, slice.axes)
    ensures indexed <==> !dense && slice.len > MAX_BATCH_ELEMENTS
    ensures !indexed ==> AllCoords(requests, slice.shape) == slice.Coords()
    ensures indexed ==>
              AllCoords(requests, slice.shape) == Grouped(slice.Coords(), Marks(slice, s, store.g), Scan(store.table.Keys, 0, store.g.BlockCount()))
    ensures indexed ==> multiset(AllCoords(requests, slice.shape)) == multiset(OccupiedCoords(slice, s, store.g, store.table))
    ensures forall x :: x in AllCoords(requests, slice.shape) ==> InShape(x, slice.shape)
    ensures indexed ==> forall x :: InShape(x, slice.shape) ==>
              multiset(AllCoords(requests, slice.shape))[x]
              == if store.g.At(s.Place(x)).block in store.table then multiset(slice.Coords())[x] else 0
  {
    hide Grouped, Marked, Slice.Coords, Marks, Scan, AllCoords, BatchRequest.Coords, BatchRequest.Valid, TableValid,
         AllKeep, Storage.At, StorageSlice.Place;
    ValidTable(store.table, store.g, store.zero);
    if slice.len <= MAX_BATCH_ELEMENTS || dense {
      requests := Requests(slice);
      BatchesInside(requests, slice.shape);
      return requests, false;
    }
    requests := IndexedBatches(store, slice, s);
    BatchesInside(requests, slice.shape);
    ScanAscends(store.table.Keys, 0, store.g.BlockCount());
    GroupedIsMarked(slice.Coords(), Marks(slice, s, store.g), Scan(store.table.Keys, 0, store.g.BlockCount()));
    assert multiset(AllCoords(requests, slice.shape)) == multiset(OccupiedCoords(slice, s, store.g, store.table));
    forall x | InShape(x, slice.shape)
      ensures multiset(AllCoords(requests, slice.shape))[x]
           == if store.g.At(s.Place(x)).block in store.table then multiset(slice.Coords())[x] else 0
    {
      OccupiedCount(slice, s, store.g, store.table, x);
    }
    return requests, true;
  }

  // ---------------------------------------------------------------------
  // Logical order
  // ---------------------------------------------------------------------

  predicate StrictAxis(axis: Axis) {
    forall i, j :: 0 <= i < j < axis.Len() ==> axis.At(i) < axis.At(j)
  }

  /** A sorted, duplicate-free selection on every axis. */
  predicate StrictAxes(slice: Slice) {
    forall k :: 0 <= k < |slice.axes| ==> StrictAxis(slice.axes[k])
  }

  predicate InOrder(coords: seq<Coord>) {
    forall i, j :: 0 <= i < j < |coords| ==> |coords[i]| == |coords[j]| && Before(coords[i], coords[j])
  }

  /** Sorted selected coordinates that include every nonzero one. */
  ghost predicate Complete<T>(value: Coord -> T, zero: T, slice: Slice, coords: seq<Coord>) {
    && InOrder(coords)
    && (forall x :: x in coords ==> x in slice.Coords())
    && forall x :: x in slice.Coords() && value(x) != zero ==> x in coords
  }

  /** Base axes in the same order as the logical axes they carry. */
  predicate IncreasingAxes(s: StorageSlice) {
    forall i, j :: 0 <= i < j < |s.axes| ==> s.axes[i].0 < s.axes[j].0
  }

  /** A strictly selected slice is enumerated in strictly increasing row-major order. */
  lemma SliceInOrder(slice: Slice)
    requires slice.Valid() && StrictAxes(slice)
    ensures InOrder(slice.Coords())
  {
    hide Decode, Before, Axis.At;
    var coords := slice.Coords();
    forall i, j | 0 <= i < j < |coords| ensures |coords[i]| == |coords[j]| && Before(coords[i], coords[j]) {
      var lens := Lens(slice.axes);
      EmptySize(lens);
      FlatOfDecodeInside(i, lens);
      FlatOfDecodeInside(j, lens);
      BeforeIsFlatOrder(Decode(i, lens), Decode(j, lens), lens);
      var p := BeforeWitness(Decode(i, lens), Decode(j, lens));
      assert StrictAxis(slice.axes[p]);
      BeforeFrom(coords[i], coords[j], p);
    }
  }

  /** Placement keeps row-major order when base axes increase. */
  lemma PlaceBefore(s: StorageSlice, c: Coord, d: Coord)
    requires s.Valid(|s.origins|) && IncreasingAxes(s) && |c| == |d| == |s.axes| && Before(c, d)
    ensures Before(s.Place(c), s.Place(d))
  {
    hide StorageSlice.Place, Before;
    var i := BeforeWitness(c, d);
    var b := s.axes[i].0;
    PlaceAt(s, c, i);
    PlaceAt(s, d, i);
    MulMonotone(c[i] + 1, d[i], s.axes[i].1);
    assert s.axes[i].1 * (c[i] + 1) == s.axes[i].1 * c[i] + s.axes[i].1;
    forall k | 0 <= k < b ensures s.Place(c)[k] == s.Place(d)[k] {
      if s.Covers(k) {
        var j :| 0 <= j < |s.axes| && s.axes[j].0 == k;
        assert j < i;
        PlaceAt(s, c, j);
        PlaceAt(s, d, j);
      } else {
        PlaceFixed(s, c, k);
        PlaceFixed(s, d, k);
      }
    }
    BeforeFrom(s.Place(c), s.Place(d), b);
  }

  /** The block of a coordinate never goes back along a strict slice of row-run blocks. */
  lemma MarksNondecreasing(slice: Slice, s: StorageSlice, g: Storage)
    requires Selects(slice, s, g) && StrictAxes(slice) && IncreasingAxes(s) && RowRuns(g.block, g.shape)
    ensures Nondecreasing(Marks(slice, s, g))
  {
    hide StorageSlice.Place, Storage.At, Before, RowRuns;
    SliceInside(slice);
    SliceInOrder(slice);
    var coords, marks := slice.Coords(), Marks(slice, s, g);
    forall i, j | 0 <= i < j < |marks| ensures marks[i] <= marks[j] {
      assert InShape(coords[i], slice.shape) && InShape(coords[j], slice.shape);
      PlaceBefore(s, coords[i], coords[j]);
      BeforeAsymmetric(s.Place(coords[i]), s.Place(coords[j]));
      BlocksInRowOrder(g, s.Place(coords[i]), s.Place(coords[j]));
    }
  }

  lemma {:induction false} MarkedInOrder(coords: seq<Coord>, marks: seq<nat>, ids: seq<nat>)
    requires |marks| == |coords| && InOrder(coords)
    ensures InOrder(Marked(coords, marks, ids))
    ensures forall x :: x in Marked(coords, marks, ids) ==> x in coords
    decreases |coords|
  {
    hide Before, InOrder;
    if coords == [] {
      NothingInOrder();
    } else {
      var n := |coords| - 1;
      InOrderLast(coords);
      MarkedInOrder(coords[..n], marks[..n], ids);
      var front := Marked(coords[..n], marks[..n], ids);
      InOrderAppend(front, coords[n]);
      assert Marked(coords, marks, ids) == if marks[n] in ids then front + [coords[n]] else front;
    }
  }

  lemma NothingInOrder()
    ensures InOrder([])
  {}

  /** A sorted list without its last element, all before it. */
  lemma InOrderLast(coords: seq<Coord>)
    requires InOrder(coords) && coords != []
    ensures InOrder(coords[..|coords| - 1])
    ensures forall x :: x in coords[..|coords| - 1] ==> |x| == |coords[|coords| - 1]| && Before(x, coords[|coords| - 1])
  {
    hide Before;
  }

  lemma InOrderAppend(front: seq<Coord>, last: Coord)
    requires InOrder(front) && forall x :: x in front ==> |x| == |last| && Before(x, last)
    ensures InOrder(front + [last])
  {
    hide Before;
    forall i | 0 <= i < |front| ensures |front[i]| == |last| && Before(front[i], last) {
      assert front[i] in front;
    }
  }

  /** After the first spanned axis, every block extent covers its axis. */
  method CoversTail(block: seq<nat>, shape: seq<nat>) returns (r: bool)
    requires |block| == |shape|
    ensures r <==> RowRuns(block, shape)
    ensures r <==> forall i, j :: 0 <= i < j < |block| && block[i] > 1 ==> block[j] >= shape[j]
  {
    var spans := false;
    for i := 0 to |block|
      invariant spans <==> exists k :: 0 <= k < i && block[k] > 1
      invariant forall a, b :: 0 <= a < b < i && block[a] > 1 ==> block[b] >= shape[b]
    {
      if spans && block[i] < shape[i] {
        return false;
      }
      spans := spans || block[i] > 1;
    }
    return true;
  }

  /** `ordered_requests`: the indexed walk is used only where its order is logical order. */
  method OrderedBatches<T>(store: SparseStorage<T>, dense: bool, slice: Slice, s: StorageSlice)
    returns (requests: seq<BatchRequest>, indexed: bool)
    requires store.Valid() && Selects(slice, s, store.g)
    ensures BatchesValid(requests, slice.shape) && AllKeep(requests, slice.axes)
    ensures indexed <==>
              && !dense && slice.len > MAX_BATCH_ELEMENTS && RowRuns(store.g.block, store.g.shape)
              && forall i, j :: 0 <= i < j < |s.axes| ==> s.axes[i].0 < s.axes[j].0
    ensures !indexed ==> AllCoords(requests, slice.shape) == slice.Coords()
    ensures indexed && StrictAxes(slice) ==> AllCoords(requests, slice.shape) == OccupiedCoords(slice, s, store.g, store.table)
    ensures StrictAxes(slice) ==> InOrder(AllCoords(requests, slice.shape))
    ensures indexed ==> forall x :: x in AllCoords(requests, slice.shape) <==>
              InShape(x, slice.shape) && x in slice.Coords() && store.g.At(s.Place(x)).block in store.table
  {
    hide Grouped, Marked, Slice.Coords, Marks, Scan, AllCoords, BatchRequest.Coords, BatchRequest.Valid, TableValid,
         RowRuns, InOrder, AllKeep, Storage.At, StorageSlice.Place;
    ValidTable(store.table, store.g, store.zero);
    if StrictAxes(slice) {
      SliceInOrder(slice);
    }
    if dense || exists i :: 0 <= i < |s.axes| - 1 && Descends(s, i) {
      AxesDescend(s);
      requests := Requests(slice);
      return requests, false;
    }
    AxesDescend(s);
    var covers := CoversTail(store.g.block, store.g.shape);
    if !covers {
      requests := Requests(slice);
      return requests, false;
    }
    requests, indexed := SliceBatches(store, dense, slice, s);
    if indexed {
      CountedMembers(AllCoords(requests, slice.shape), slice, s, store.g, store.table);
    }
    if indexed && StrictAxes(slice) {
      ScanAscends(store.table.Keys, 0, store.g.BlockCount());
      MarksNondecreasing(slice, s, store.g);
      GroupedInOrder(slice.Coords(), Marks(slice, s, store.g), Scan(store.table.Keys, 0, store.g.BlockCount()));
      MarkedInOrder(slice.Coords(), Marks(slice, s, store.g), Scan(store.table.Keys, 0, store.g.BlockCount()));
    }
  }

  lemma CountedMembers<T>(visited: seq<Coord>, slice: Slice, s: StorageSlice, g: Storage, table: map<nat, seq<T>>)
    requires Selects(slice, s, g) && forall x :: x in visited ==> InShape(x, slice.shape)
    requires forall x :: InShape(x, slice.shape) ==>
               multiset(visited)[x] == if g.At(s.Place(x)).block in table then multiset(slice.Coords())[x] else 0
    ensures forall x :: x in visited <==> InShape(x, slice.shape) && x in slice.Coords() && g.At(s.Place(x)).block in table
  {
    hide Slice.Coords, Storage.At, StorageSlice.Place;
    forall x ensures x in visited <==> InShape(x, slice.shape) && x in slice.Coords() && g.At(s.Place(x)).block in table {
      assert x in visited <==> x in multiset(visited);
      assert x in slice.Coords() <==> x in multiset(slice.Coords());
    }
  }

  predicate Descends(s: StorageSlice, i: nat)
    requires i + 1 < |s.axes|
  {
    s.axes[i].0 >= s.axes[i + 1].0
  }

  lemma AxesDescend(s: StorageSlice)
    ensures (exists i :: 0 <= i < |s.axes| - 1 && Descends(s, i)) <==> !IncreasingAxes(s)
  {
    if forall i :: 0 <= i < |s.axes| - 1 ==> !Descends(s, i) {
      AxesClimb(s, |s.axes|);
    } else {
      var i :| 0 <= i < |s.axes| - 1 && Descends(s, i);
      assert s.axes[i].0 >= s.axes[i + 1].0;
    }
  }

  lemma {:induction false} AxesClimb(s: StorageSlice, n: nat)
    requires n <= |s.axes| && forall i :: 0 <= i < |s.axes| - 1 ==> !Descends(s, i)
    ensures forall i, j :: 0 <= i < j < n ==> s.axes[i].0 < s.axes[j].0
  {
    if n > 1 {
      AxesClimb(s, n - 1);
      assert !Descends(s, n - 2);
    }
  }
}
