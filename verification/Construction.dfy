/** Ordered construction of sparse storage, one bounded batch at a time. */
module Construction {
  import opened Radix
  import opened Wrappers
  import opened Request
  import opened Geometry
  import opened StorageRead
  import opened Blocks
  import opened BlockData
  import opened SparseStore
  import opened TensorWrites

  // ---------------------------------------------------------------------
  // When block order follows coordinate order
  // ---------------------------------------------------------------------

  function FirstSpan(block: seq<nat>): (i: nat)
    ensures i <= |block|
    ensures forall k :: 0 <= k < i ==> block[k] <= 1
    ensures i < |block| ==> block[i] > 1
  {
    if block == [] || block[0] > 1 then 0 else 1 + FirstSpan(block[1..])
  }

  /** Every axis after the first spanned one is covered whole. */
  predicate Contiguous(block: seq<nat>, shape: seq<nat>)
    requires |block| == |shape|
  {
    FirstSpan(block) == |block| || block[FirstSpan(block) + 1..] == shape[FirstSpan(block) + 1..]
  }

  lemma ContiguousRuns(block: seq<nat>, shape: seq<nat>)
    requires |block| == |shape| && Contiguous(block, shape)
    ensures RowRuns(block, shape)
  {
    var first := FirstSpan(block);
    forall i, j | 0 <= i < j < |block| && block[i] > 1 ensures block[j] >= shape[j] {
      assert i >= first;
      assert block[j] == block[first + 1..][j - first - 1];
    }
  }

  // ---------------------------------------------------------------------
  // Staged entries
  // ---------------------------------------------------------------------

  predicate AllInside(coords: seq<Coord>, shape: seq<nat>) {
    forall i :: 0 <= i < |coords| ==> InShape(coords[i], shape)
  }

  /** The storage position of every staged coordinate. */
  function Places(g: Storage, coords: seq<Coord>): (p: seq<Position>)
    requires g.Valid() && AllInside(coords, g.shape)
    ensures |p| == |coords|
    ensures forall i :: 0 <= i < |p| ==> p[i] == g.At(coords[i])
  {
    seq(|coords|, i requires 0 <= i < |coords| => g.At(coords[i]))
  }

  function ZeroStore<T>(g: Storage, zero: T): (s: Store<T>)
  {
    StoreOf(map[], g, zero)
  }

  lemma PlacesHold<T>(g: Storage, zero: T, coords: seq<Coord>)
    requires g.Valid() && AllInside(coords, g.shape)
    ensures HoldsAll(ZeroStore(g, zero), Places(g, coords))
  {
    hide Storage.At;
    forall i | 0 <= i < |coords| ensures Holds(ZeroStore(g, zero), Places(g, coords)[i]) {
      AtInside(g, coords[i]);
    }
  }

  /** The store after writing the staged entries one at a time into zeros. */
  ghost function Staged<T>(g: Storage, zero: T, coords: seq<Coord>, values: seq<T>): (s: Store<T>)
    requires g.Valid() && AllInside(coords, g.shape) && |values| == |coords|
  {
    PlacesHold(g, zero, coords);
    WriteEach(ZeroStore(g, zero), Places(g, coords), values)
  }

  lemma StagedNone<T>(g: Storage, zero: T)
    requires g.Valid()
    ensures Staged(g, zero, [], []) == ZeroStore(g, zero)
  {}

  lemma StagedNext<T>(g: Storage, zero: T, coords: seq<Coord>, values: seq<T>, c: Coord, v: T)
    requires g.Valid() && AllInside(coords, g.shape) && |values| == |coords| && InShape(c, g.shape)
    ensures AllInside(coords + [c], g.shape)
    ensures Holds(Staged(g, zero, coords, values), g.At(c))
    ensures Staged(g, zero, coords + [c], values + [v]) == WriteOne(Staged(g, zero, coords, values), g.At(c), v)
  {
    hide WriteEach, Storage.At, ZeroStore, WriteOne;
    PlacesHold(g, zero, coords);
    PlacesHold(g, zero, [c]);
    assert Places(g, [c])[0] == g.At(c);
    assert HoldsAll(ZeroStore(g, zero), Places(g, [c]));
    assert Holds(ZeroStore(g, zero), Places(g, [c])[0]);
    WriteEachSnoc(ZeroStore(g, zero), Places(g, coords), g.At(c), values, v);
    assert Places(g, coords + [c]) == Places(g, coords) + [g.At(c)];
  }

  lemma StagedMany<T>(g: Storage, zero: T, a: seq<Coord>, b: seq<Coord>, u: seq<T>, v: seq<T>)
    requires g.Valid() && AllInside(a, g.shape) && AllInside(b, g.shape) && |u| == |a| && |v| == |b|
    ensures AllInside(a + b, g.shape) && HoldsAll(Staged(g, zero, a, u), Places(g, b))
    ensures Staged(g, zero, a + b, u + v) == WriteEach(Staged(g, zero, a, u), Places(g, b), v)
  {
    hide WriteEach, Storage.At, ZeroStore;
    PlacesHold(g, zero, a);
    PlacesHold(g, zero, b);
    WriteEachConcat(ZeroStore(g, zero), Places(g, a), Places(g, b), u, v);
    assert Places(g, a + b) == Places(g, a) + Places(g, b);
  }

  // ---------------------------------------------------------------------
  // The builder
  // ---------------------------------------------------------------------

  /** Blocks never decrease along the batch, starting from the current one. */
  predicate BlocksAscend(g: Storage, coords: seq<Coord>, current: Option<nat>)
    requires g.Valid() && AllInside(coords, g.shape)
  {
    && (coords != [] && current.Some? ==> current.value <= g.At(coords[0]).block)
    && forall i :: 0 < i < |coords| ==> g.At(coords[i - 1]).block <= g.At(coords[i]).block
  }

  /** The block being filled, ahead of every stored row; `V` is what the table and it stand for. */
  ghost predicate Buffering<T>(table: map<nat, seq<T>>, g: Storage, zero: T, key: Option<nat>, block: seq<T>,
                               staged: Store<T>) {
    && TableValid(table, g, zero)
    && |block| == g.BlockLen()
    && match key
       case None => table == map[] && block == ZeroBlock(g.BlockLen(), zero) && staged == ZeroStore(g, zero)
       case Some(id) =>
         && id < g.BlockCount() && PaddingZero(g, id, block, zero)
         && (forall k :: k in table ==> k < id)
         && staged == StoreOf(table, g, zero)[id := block]
  }

  /** Continuing in the same block, or opening the first one. */
  lemma BufferSame<T>(table: map<nat, seq<T>>, g: Storage, zero: T, key: Option<nat>, block: seq<T>, staged: Store<T>,
                      c: Coord, v: T)
    requires Buffering(table, g, zero, key, block, staged) && InShape(c, g.shape)
    requires key.Some? ==> key.value == g.At(c).block
    ensures g.At(c).offset < |block| && Holds(staged, g.At(c))
    ensures Buffering(table, g, zero, Some(g.At(c).block), block[g.At(c).offset := v], WriteOne(staged, g.At(c), v))
  {
    hide Stored, Storage.At;
    AtInside(g, c);
    var p := g.At(c);
    assert Stored(g, p.block, p.offset) by {
      OffsetStored(g, c);
    }
    ghost var next := WriteOne(staged, p, v);
    assert next == StoreOf(table, g, zero)[p.block := block[p.offset := v]];
  }

  lemma OffsetStored(g: Storage, c: Coord)
    requires g.Valid() && InShape(c, g.shape)
    ensures Stored(g, g.At(c).block, g.At(c).offset)
  {
    hide Storage.At;
    assert g.At(c) == Position(g.At(c).block, g.At(c).offset);
  }

  /** Moving the completed block into the table changes nothing it stands for. */
  lemma BufferFlush<T>(table: map<nat, seq<T>>, g: Storage, zero: T, id: nat, block: seq<T>, staged: Store<T>)
    requires Buffering(table, g, zero, Some(id), block, staged)
    ensures var next := if HasNonzero(block, zero) then table[id := block] else table;
            && TableValid(next, g, zero) && StoreOf(next, g, zero) == staged
            && forall k :: k in next ==> k <= id
  {
    hide Stored, RowValid;
    StoreUpdate(table, g, zero, id, block);
    assert table - {id} == table;
  }

  /** Opening a later block after a flush. */
  lemma BufferOpen<T>(table: map<nat, seq<T>>, g: Storage, zero: T, staged: Store<T>, id: nat)
    requires TableValid(table, g, zero) && StoreOf(table, g, zero) == staged && id < g.BlockCount()
    requires forall k :: k in table ==> k < id
    ensures Buffering(table, g, zero, Some(id), ZeroBlock(g.BlockLen(), zero), staged)
  {
    hide Stored, RowValid;
    assert StoreOf(table, g, zero)[id] == ZeroBlock(g.BlockLen(), zero);
  }

  class Builder<T(==)> {
    const store: SparseStorage<T>
    const contiguous: bool
    var key: Option<nat>
    var block: seq<T>
    ghost var coords: seq<Coord>
    ghost var values: seq<T>

    ghost predicate Valid()
      reads this, store
    {
      && store.g.Valid()
      && AllInside(coords, store.g.shape) && |values| == |coords|
      && (contiguous ==> RowRuns(store.g.block, store.g.shape))
      && if contiguous
         then Buffering(store.table, store.g, store.zero, key, block, Staged(store.g, store.zero, coords, values))
              && (key.None? <==> coords == [])
              && (key.Some? ==> key.value == store.g.At(coords[|coords| - 1]).block)
         else store.Valid() && store.Contents() == Staged(store.g, store.zero, coords, values)
    }

    constructor (store: SparseStorage<T>)
      requires store.Valid() && store.table == map[]
      ensures Valid() && this.store == store && coords == [] && values == []
    {
      this.store := store;
      contiguous := Contiguous(store.g.block, store.g.shape);
      key := None;
      block := ZeroBlock(store.g.BlockLen(), store.zero);
      coords, values := [], [];
      new;
      StagedNone(store.g, store.zero);
      if contiguous {
        ContiguousRuns(store.g.block, store.g.shape);
      }
    }

    /** Would the batch be accepted? */
    predicate Accepts(batch: seq<Coord>, count: nat)
      requires store.g.Valid()
      reads this
    {
      && |batch| == count <= MAX_BATCH_ELEMENTS
      && AllInside(batch, store.g.shape)
      && (contiguous ==> BlocksAscend(store.g, batch, key))
    }

    /** `stage`: a batch is checked completely before anything changes. */
    method Stage(batch: seq<Coord>, input: seq<T>) returns (r: Outcome)
      requires Valid()
      modifies this, store`table
      ensures Valid()
      ensures r.Pass? <==> old(Accepts(batch, |input|))
      ensures r.Fail? ==> coords == old(coords) && values == old(values)
      ensures r.Pass? ==> coords == old(coords) + batch && values == old(values) + input
    {
      hide TableValid, Buffering, Staged, Storage.At, RowRuns, StoreOf;
      if |batch| != |input| || |input| > MAX_BATCH_ELEMENTS {
        return Fail(InvalidLayout);
      }
      if contiguous {
        r := CheckOrder(batch);
        if r.Fail? {
          return;
        }
        Ingest(batch, input);
      } else {
        r := StageBlocks(batch, input);
      }
    }

    /** The bounded batch must stay inside the tensor and never go back to an earlier block. */
    method CheckOrder(batch: seq<Coord>) returns (r: Outcome)
      requires store.g.Valid()
      ensures r.Pass? <==> AllInside(batch, store.g.shape) && BlocksAscend(store.g, batch, key)
      ensures r.Fail? ==> r.error == InvalidCoord
    {
      hide Storage.At;
      var previous := key;
      for i := 0 to |batch|
        invariant AllInside(batch[..i], store.g.shape) && BlocksAscend(store.g, batch[..i], key)
        invariant previous == if i == 0 then key else Some(store.g.At(batch[i - 1]).block)
      {
        var position := BlockPosition(store.g, batch[i]);
        if position.Err? {
          assert !InShape(batch[i], store.g.shape);
          return Fail(position.error);
        }
        if previous.Some? && position.value.block < previous.value {
          assert AllInside(batch, store.g.shape) ==> !BlocksAscend(store.g, batch, key);
          return Fail(InvalidCoord);
        }
        previous := Some(position.value.block);
      }
      assert batch[..|batch|] == batch;
      return Pass;
    }

    /** The contiguous path: one buffered block, flushed when the block changes. */
    method Ingest(batch: seq<Coord>, input: seq<T>)
      requires Valid() && contiguous && Accepts(batch, |input|)
      modifies this, store`table
      ensures Valid()
      ensures coords == old(coords) + batch && values == old(values) + input
    {
      hide TableValid, Buffering, Staged, Storage.At, StoreOf, RowRuns;
      for i := 0 to |batch|
        invariant Valid()
        invariant coords == old(coords) + batch[..i] && values == old(values) + input[..i]
        invariant i < |batch| && key.Some? ==> key.value <= store.g.At(batch[i]).block
      {
        assert batch[..i + 1] == batch[..i] + [batch[i]] && input[..i + 1] == input[..i] + [input[i]];
        Buffer(batch[i], input[i]);
      }
      assert batch[..|batch|] == batch && input[..|input|] == input;
    }

    method Buffer(c: Coord, v: T)
      requires Valid() && contiguous && InShape(c, store.g.shape)
      requires key.Some? ==> key.value <= store.g.At(c).block
      modifies this, store`table
      ensures Valid() && key == Some(store.g.At(c).block)
      ensures coords == old(coords) + [c] && values == old(values) + [v]
    {
      hide TableValid, Buffering, Staged, Storage.At, StoreOf, RowRuns, HasNonzero, WriteOne;
      var position := BlockPosition(store.g, c);
      var id, offset := position.value.block, position.value.offset;
      ghost var staged := Staged(store.g, store.zero, coords, values);
      if key.Some? && id != key.value {
        Flush();
        BufferOpen(store.table, store.g, store.zero, staged, id);
        block := ZeroBlock(store.g.BlockLen(), store.zero);
        key := Some(id);
      }
      BufferSame(store.table, store.g, store.zero, key, block, staged, c, v);
      StagedNext(store.g, store.zero, coords, values, c, v);
      key := Some(id);
      block := block[offset := v];
      coords, values := coords + [c], values + [v];
    }

    /** Append the completed block unless it is all zero: the table alone then holds what was staged. */
    method Flush()
      requires Valid() && contiguous && key.Some?
      modifies store`table
      ensures store.Valid() && store.Contents() == Staged(store.g, store.zero, coords, values)
      ensures forall k :: k in store.table ==> k <= key.value
    {
      hide TableValid, Staged, Storage.At, StoreOf, RowRuns;
      BufferFlush(store.table, store.g, store.zero, key.value, block, Staged(store.g, store.zero, coords, values));
      if exists o :: 0 <= o < |block| && block[o] != store.zero {
        store.table := store.table[key.value := block];
      }
    }

    /** The interleaved path: planned updates of whole destination rows. */
    method StageBlocks(batch: seq<Coord>, input: seq<T>) returns (r: Outcome)
      requires Valid() && !contiguous && |input| == |batch| <= MAX_BATCH_ELEMENTS
      modifies this, store`table
      ensures Valid()
      ensures r.Pass? <==> AllInside(batch, store.g.shape)
      ensures r.Fail? ==> coords == old(coords) && values == old(values)
      ensures r.Pass? ==> coords == old(coords) + batch && values == old(values) + input
    {
      hide TableValid, Staged, Storage.At, StoreOf, WriteEach, HoldsAll, Located, PlansUpdates, Offsets, InBase,
           Plannable;
      var request := BatchRequest(Explicit(batch), |batch|);
      ValidTable(store.table, store.g, store.zero);
      var planned := PlanUpdates(store.g, None, request, input);
      ExplicitPlan(store.g, batch);
      if planned.Err? {
        return Fail(planned.error);
      }
      ghost var offsets := Offsets(store.g, None, request);
      StagedMany(store.g, store.zero, coords, batch, values, input);
      r := ApplyPlan(store, planned.value, offsets, input);
      coords, values := coords + batch, values + input;
    }

    /** `finish`: the last block is flushed, and the table holds exactly what was staged. */
    method Finish() returns (r: Outcome)
      requires Valid()
      modifies store`table
      ensures r.Pass? && store.Valid()
      ensures store.Contents() == Staged(store.g, store.zero, coords, values)
    {
      hide Staged, Storage.At, StoreOf, RowValid, HasNonzero, PaddingZero;
      if contiguous && key.Some? {
        BufferFlush(store.table, store.g, store.zero, key.value, block, Staged(store.g, store.zero, coords, values));
        var nonzero := store.ValidatePayload(key.value, block);
        if nonzero.Err? {
          return Fail(InvalidLayout);
        }
        if nonzero.value {
          store.table := store.table[key.value := block];
        }
      } else if contiguous {
        EmptyTable(store.table, store.g, store.zero);
      }
      return Pass;
    }
  }

  lemma EmptyTable<T>(table: map<nat, seq<T>>, g: Storage, zero: T)
    requires table == map[]
    ensures StoreOf(table, g, zero) == ZeroStore(g, zero)
  {}

  /** Planning an explicit batch locates its coordinates and fails only outside the tensor. */
  lemma ExplicitPlan(g: Storage, batch: seq<Coord>)
    requires g.Valid() && |batch| <= MAX_BATCH_ELEMENTS
    ensures var request := BatchRequest(Explicit(batch), |batch|);
            && (request.Valid(ViewShape(g, None)) <==> AllInside(batch, g.shape))
            && Plannable(g, None, request) && GoodFor(g, None)
            && (AllInside(batch, g.shape) ==> Located(g, Offsets(g, None, request)) == Places(g, batch))
  {
    hide Storage.At;
    if AllInside(batch, g.shape) {
      var request := BatchRequest(Explicit(batch), |batch|);
      var offsets := Offsets(g, None, request);
      forall i | 0 <= i < |batch| ensures Located(g, offsets)[i] == Places(g, batch)[i] {
        DecodeOfFlat(batch[i], g.shape);
      }
    }
  }

  // ---------------------------------------------------------------------
  // Ordered ingestion
  // ---------------------------------------------------------------------

  /** Lexicographic order of coordinate lists of any length. */
  predicate Less(c: Coord, d: Coord) {
    d != [] && (c == [] || c[0] < d[0] || (c[0] == d[0] && Less(c[1..], d[1..])))
  }

  lemma {:induction false} LessIsBefore(c: Coord, d: Coord)
    requires |c| == |d|
    ensures Less(c, d) <==> Before(c, d)
  {
    if c != [] {
      LessIsBefore(c[1..], d[1..]);
    }
  }

  predicate Increasing(coords: seq<Coord>) {
    forall i :: 0 < i < |coords| ==> Less(coords[i - 1], coords[i])
  }

  /** In strictly increasing coordinates, the out-of-order error cannot happen. */
  lemma IncreasingAscends(g: Storage, coords: seq<Coord>, from: nat, to: nat)
    requires g.Valid() && RowRuns(g.block, g.shape)
    requires from <= to <= |coords| && AllInside(coords[..to], g.shape) && Increasing(coords[..to])
    ensures AllInside(coords[from..to], g.shape)
    ensures BlocksAscend(g, coords[from..to], if from == 0 then None else Some(g.At(coords[from - 1]).block))
  {
    hide Storage.At, RowRuns;
    forall i | 0 < i < to ensures g.At(coords[i - 1]).block <= g.At(coords[i]).block {
      assert coords[..to][i] == coords[i] && coords[..to][i - 1] == coords[i - 1];
      assert InShape(coords[..to][i], g.shape) && InShape(coords[..to][i - 1], g.shape);
      assert Less(coords[..to][i - 1], coords[..to][i]);
      LessIsBefore(coords[i - 1], coords[i]);
      BeforeAsymmetric(coords[i - 1], coords[i]);
      BlocksInRowOrder(g, coords[i - 1], coords[i]);
    }
    forall i | 0 <= i < to - from ensures InShape(coords[from..to][i], g.shape) {
      assert InShape(coords[..to][from + i], g.shape);
    }
  }

  /** Collect one bounded batch, comparing each entry with the one before it. Behind the last entry the
      stream ends, or fails. */
  method NextEntries(coords: seq<Coord>, at: nat, failure: Option<Error>) returns (r: Outcome, next: nat)
    requires at <= |coords| && Increasing(coords[..at])
    ensures r.Fail? ==> !Increasing(coords) || failure == Some(r.error)
    ensures r.Pass? ==> at <= next <= |coords| && next - at <= MAX_BATCH_ELEMENTS && Increasing(coords[..next])
    ensures r.Pass? && next - at < MAX_BATCH_ELEMENTS ==> next == |coords| && failure.None?
  {
    next := at;
    while next - at < MAX_BATCH_ELEMENTS
      invariant at <= next <= |coords| && next - at <= MAX_BATCH_ELEMENTS && Increasing(coords[..next])
      decreases |coords| - next
    {
      if next == |coords| {
        return if failure.Some? then Fail(failure.value) else Pass, next;
      }
      if next > 0 && !Less(coords[next - 1], coords[next]) {
        assert !Increasing(coords);
        return Fail(InvalidCoord), next;
      }
      IncreasingNext(coords, next);
      next := next + 1;
    }
    return Pass, next;
  }

  /** `sparse`: ordered ingestion accepts exactly strictly increasing in-range entries of a stream that
      does not fail. */
  method Sparse<T>(store: SparseStorage<T>, coords: seq<Coord>, values: seq<T>, failure: Option<Error>)
    returns (r: Outcome)
    requires store.Valid() && store.table == map[] && |values| == |coords|
    modifies store`table
    ensures r.Pass? <==> failure.None? && AllInside(coords, store.g.shape) && Increasing(coords)
    ensures r.Pass? ==> store.Valid() && store.Contents() == Staged(store.g, store.zero, coords, values)
    ensures r.Pass? ==> forall c :: InShape(c, store.g.shape) ==>
              && Holds(store.Contents(), store.g.At(c))
              && var stored := store.Contents()[store.g.At(c).block][store.g.At(c).offset];
                 && (forall i :: 0 <= i < |coords| && coords[i] == c ==> stored == values[i])
                 && (c !in coords ==> stored == store.zero)
    ensures r.Fail? && AllInside(coords, store.g.shape) && Increasing(coords) ==> failure == Some(r.error)
  {
    hide TableValid, Staged, Storage.At, StoreOf, RowRuns, Buffering;
    ValidTable(store.table, store.g, store.zero);
    var output := new Builder(store);
    var at := 0;
    while true
      invariant output.Valid() && output.store == store && at <= |coords|
      invariant fresh(output)
      invariant output.coords == coords[..at] && output.values == values[..at] && Increasing(coords[..at])
      decreases |coords| - at
    {
      var ordered, next := NextEntries(coords, at, failure);
      if ordered.Fail? {
        return ordered;
      }
      if next == at {
        break;
      }
      StageAccepted(output, coords, at, next, next - at);
      r := output.Stage(coords[at..next], values[at..next]);
      if r.Fail? {
        return;
      }
      assert coords[..next] == coords[..at] + coords[at..next] && values[..next] == values[..at] + values[at..next];
      at := next;
    }
    assert coords[..at] == coords && values[..at] == values;
    r := output.Finish();
    EntriesExact(store.Contents(), store.g, store.zero, coords, values);
  }

  lemma EntriesExact<T>(contents: Store<T>, g: Storage, zero: T, coords: seq<Coord>, values: seq<T>)
    requires g.Valid() && AllInside(coords, g.shape) && |values| == |coords| && Increasing(coords)
    requires contents == Staged(g, zero, coords, values)
    ensures forall c :: InShape(c, g.shape) ==>
              && Holds(contents, g.At(c))
              && var stored := contents[g.At(c).block][g.At(c).offset];
                 && (forall i :: 0 <= i < |coords| && coords[i] == c ==> stored == values[i])
                 && (c !in coords ==> stored == zero)
  {
    hide Staged, Storage.At, Increasing;
    forall c | InShape(c, g.shape)
      ensures Holds(contents, g.At(c))
      ensures var stored := contents[g.At(c).block][g.At(c).offset];
              && (forall i :: 0 <= i < |coords| && coords[i] == c ==> stored == values[i])
              && (c !in coords ==> stored == zero)
    {
      SparseExact(g, zero, coords, values, c);
    }
  }

  lemma IncreasingNext(coords: seq<Coord>, n: nat)
    requires n < |coords| && Increasing(coords[..n]) && (n > 0 ==> Less(coords[n - 1], coords[n]))
    ensures Increasing(coords[..n + 1])
  {
    var longer := coords[..n + 1];
    forall i | 0 < i < |longer| ensures Less(longer[i - 1], longer[i]) {
      if i < n {
        assert Less(coords[..n][i - 1], coords[..n][i]);
      }
    }
  }

  lemma StageAccepted<T>(output: Builder<T>, coords: seq<Coord>, from: nat, to: nat, count: nat)
    requires output.Valid() && from <= to <= |coords| && count == to - from <= MAX_BATCH_ELEMENTS
    requires output.coords == coords[..from] && Increasing(coords[..to])
    ensures AllInside(coords, output.store.g.shape) ==> output.Accepts(coords[from..to], count)
  {
    hide Storage.At, Buffering, Staged, RowRuns;
    var g := output.store.g;
    if AllInside(coords, g.shape) {
      assert AllInside(coords[..to], g.shape);
      if output.contiguous {
        IncreasingAscends(g, coords, from, to);
        assert from > 0 ==> coords[..from][from - 1] == coords[from - 1];
      }
    }
  }

  /** Strictly increasing entries are stored exactly: each reads back, everything else is zero. */
  lemma SparseExact<T>(g: Storage, zero: T, coords: seq<Coord>, values: seq<T>, c: Coord)
    requires g.Valid() && AllInside(coords, g.shape) && |values| == |coords| && Increasing(coords)
    requires InShape(c, g.shape)
    ensures Holds(Staged(g, zero, coords, values), g.At(c))
    ensures forall i :: 0 <= i < |coords| && coords[i] == c ==> ReadOne(Staged(g, zero, coords, values), g.At(c)) == values[i]
    ensures c !in coords ==> ReadOne(Staged(g, zero, coords, values), g.At(c)) == zero
  {
    hide Storage.At, WriteEach;
    PlacesHold(g, zero, coords);
    PlacesHold(g, zero, [c]);
    assert Holds(ZeroStore(g, zero), Places(g, [c])[0]);
    var want := Places(g, coords);
    LastWriteWins(ZeroStore(g, zero), want, values, g.At(c));
    forall i | 0 <= i < |coords| && want[i] == g.At(c) ensures coords[i] == c {
      AtInjective(g, coords[i], c);
    }
    forall i: nat | i < |coords| && coords[i] == c ensures LastAt(want, i) {
      forall j | i < j < |coords| ensures want[j] != want[i] {
        if want[j] == want[i] {
          AtInjective(g, coords[j], coords[i]);
          IncreasingDistinct(coords, i, j, g.shape);
        }
      }
    }
    if g.At(c) in want {
      var i :| 0 <= i < |want| && want[i] == g.At(c);
      assert coords[i] == c;
    }
    assert c !in coords ==> ReadOne(ZeroStore(g, zero), g.At(c)) == zero;
  }

  lemma {:induction false} IncreasingDistinct(coords: seq<Coord>, i: nat, j: nat, shape: seq<nat>)
    requires Increasing(coords) && AllInside(coords, shape) && i < j < |coords|
    ensures |coords[i]| == |coords[j]| && Before(coords[i], coords[j]) && coords[i] != coords[j]
    decreases j - i
  {
    assert InShape(coords[j], shape) && InShape(coords[i], shape) && InShape(coords[j - 1], shape);
    LessIsBefore(coords[j - 1], coords[j]);
    BeforeIsFlatOrder(coords[j - 1], coords[j], shape);
    if i < j - 1 {
      IncreasingDistinct(coords, i, j - 1, shape);
      BeforeIsFlatOrder(coords[i], coords[j - 1], shape);
    }
    BeforeIsFlatOrder(coords[i], coords[j], shape);
  }

  /** A block is stored exactly when one of its entries is nonzero. */
  lemma SparseRows<T>(table: map<nat, seq<T>>, g: Storage, zero: T, coords: seq<Coord>, values: seq<T>, id: nat)
    requires TableValid(table, g, zero) && AllInside(coords, g.shape) && |values| == |coords| && Increasing(coords)
    requires StoreOf(table, g, zero) == Staged(g, zero, coords, values)
    ensures id in table <==> exists i :: 0 <= i < |coords| && g.At(coords[i]).block == id && values[i] != zero
  {
    hide Storage.At, Staged, StoreOf;
    var s := StoreOf(table, g, zero);
    OccupiedIffNonzero(table, g, zero, id);
    if id in table {
      RowLength(table, g, zero, id);
      InStore(table, g, zero, id);
      var o :| 0 <= o < |s[id]| && s[id][o] != zero;
      assert Stored(g, id, o);
      var c: Coord :| InShape(c, g.shape) && g.At(c) == Position(id, o);
      SparseExact(g, zero, coords, values, c);
      assert c in coords;
      var i :| 0 <= i < |coords| && coords[i] == c;
      assert g.At(coords[i]).block == id && values[i] != zero;
    }
    if i :| 0 <= i < |coords| && g.At(coords[i]).block == id && values[i] != zero {
      AtInside(g, coords[i]);
      SparseExact(g, zero, coords, values, coords[i]);
      assert s[id][g.At(coords[i]).offset] != zero;
    }
  }
}
