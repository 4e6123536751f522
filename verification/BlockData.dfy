/** Moving values between requests and blocks: planned reads, planned updates and
    the one-value-at-a-time reference they agree with. */
module BlockData {
  import opened Radix
  import opened Wrappers
  import opened Request
  import opened Mapping
  import opened Geometry
  import opened Runs
  import opened StorageRead
  import opened KeyScans

  // ---------------------------------------------------------------------
  // Reading
  // ---------------------------------------------------------------------

  /** Every output located in block `b` holds its block value; the others are as before. */
  ghost predicate Filled<T>(output: seq<T>, before: seq<T>, want: seq<Position>, b: nat, block: seq<T>) {
    && |output| == |before| == |want|
    && forall p :: 0 <= p < |want| ==>
         if want[p].block == b then want[p].offset < |block| && output[p] == block[want[p].offset]
         else output[p] == before[p]
  }

  /** The same, for the points scattered so far. */
  ghost predicate PartlyFilled<T>(output: seq<T>, before: seq<T>, want: seq<Position>, points: seq<(nat, int)>,
                                  block: seq<T>) {
    && |output| == |before| == |want|
    && forall p :: 0 <= p < |want| ==>
         if (p, want[p].offset) in points then want[p].offset < |block| && output[p] == block[want[p].offset]
         else output[p] == before[p]
  }

  predicate BlockCovers(want: seq<Position>, b: nat, length: nat) {
    forall p :: 0 <= p < |want| && want[p].block == b ==> want[p].offset < length
  }

  /** A planned run only holds points of its block. */
  lemma RunPoints(runs: seq<Run>, want: seq<Position>, b: nat, i: nat, k: nat)
    requires Expand(runs) == Picks(want, b) && i < |runs| && k < runs[i].len
    ensures runs[i].output + k < |want|
    ensures want[runs[i].output + k] == Position(b, want[runs[i].output + k].offset)
    ensures want[runs[i].output + k].offset == runs[i].At(k)
  {
    hide Run.At;
    PointIn(runs, i, k);
    var x := runs[i].Points()[k];
    assert x in Picks(want, b);
    PicksInside(want, b);
  }

  lemma PicksInside(want: seq<Position>, b: nat)
    ensures forall x :: x in Picks(want, b) ==> 0 <= x.0 < |want| && want[x.0].block == b && want[x.0].offset == x.1
  {
    if want != [] {
      PickOf(want, b, 0);
    }
  }

  lemma {:induction false} PointIn(runs: seq<Run>, i: nat, k: nat)
    requires i < |runs| && k < runs[i].len
    ensures runs[i].Points()[k] in Expand(runs)
    decreases |runs|
  {
    if i < |runs| - 1 {
      PointIn(runs[..|runs| - 1], i, k);
    }
  }

  lemma RunScatters(runs: seq<Run>, want: seq<Position>, b: nat, i: nat, length: nat)
    requires Expand(runs) == Picks(want, b) && BlockCovers(want, b, length) && i < |runs| && runs[i].len > 0
    ensures runs[i].Fits(length, |want|)
  {
    hide Run.At, Expand, Picks;
    forall k | 0 <= k < runs[i].len
      ensures runs[i].output + k < |want| && 0 <= runs[i].At(k) < length
    {
      RunPoints(runs, want, b, i, k);
    }
    RunPoints(runs, want, b, i, runs[i].len - 1);
    RunFits(runs[i], length, |want|);
  }

  /** Scattering one more run fills exactly its points. */
  lemma FilledNext<T>(runs: seq<Run>, i: nat, want: seq<Position>, b: nat, before: seq<T>, middle: seq<T>,
                      after: seq<T>, block: seq<T>)
    requires i < |runs| && Expand(runs) == Picks(want, b) && BlockCovers(want, b, |block|)
    requires |middle| == |after| && PartlyFilled(middle, before, want, Expand(runs[..i]), block)
    requires forall k :: 0 <= k < runs[i].len ==>
               runs[i].output + k < |after| && 0 <= runs[i].At(k) < |block| && after[runs[i].output + k] == block[runs[i].At(k)]
    requires forall p :: 0 <= p < |after| && !(runs[i].output <= p < runs[i].output + runs[i].len) ==> after[p] == middle[p]
    ensures PartlyFilled(after, before, want, Expand(runs[..i + 1]), block)
  {
    hide Run.At, Expand, Picks;
    var run := runs[i];
    assert runs[..i + 1] == runs[..i] + [run];
    ExpandSnoc(runs[..i], run);
    forall p | 0 <= p < |want|
      ensures if (p, want[p].offset) in Expand(runs[..i + 1])
              then want[p].offset < |block| && after[p] == block[want[p].offset]
              else after[p] == before[p]
    {
      if run.output <= p < run.output + run.len {
        RunPoints(runs, want, b, i, p - run.output);
        assert run.Points()[p - run.output] in run.Points();
      } else {
        assert forall x :: x in run.Points() ==> x.0 != p;
      }
    }
  }

  lemma FilledAll<T>(runs: seq<Run>, want: seq<Position>, b: nat, before: seq<T>, after: seq<T>, block: seq<T>)
    requires Expand(runs) == Picks(want, b)
    requires PartlyFilled(after, before, want, Expand(runs), block)
    ensures Filled(after, before, want, b, block)
  {
    hide Expand, Picks;
    forall p | 0 <= p < |want|
      ensures (p, want[p].offset) in Expand(runs) <==> want[p].block == b
    {
      PickOf(want, b, p);
    }
  }

  /** Scatter all runs of one block: each of its outputs gets its own block value. */
  method ScatterRuns<T>(runs: seq<Run>, block: seq<T>, output: array<T>, ghost want: seq<Position>, ghost b: nat)
    returns (r: Outcome)
    requires output.Length == |want| && Expand(runs) == Picks(want, b) && BlockCovers(want, b, |block|)
    requires forall i :: 0 <= i < |runs| ==> runs[i].len > 0
    modifies output
    ensures r.Pass? && Filled(output[..], old(output[..]), want, b, block)
  {
    hide Expand, Picks, Run.At, BlockCovers;
    ghost var before := output[..];
    ScatterStart(runs, want, before, block);
    for i := 0 to |runs|
      invariant PartlyFilled(output[..], before, want, Expand(runs[..i]), block)
    {
      ghost var middle := output[..];
      RunScatters(runs, want, b, i, |block|);
      var step := Scatter(runs[i], block, output);
      FilledNext(runs, i, want, b, before, middle, output[..], block);
    }
    assert runs[..|runs|] == runs;
    FilledAll(runs, want, b, before, output[..], block);
    return Pass;
  }

  lemma ScatterStart<T>(runs: seq<Run>, want: seq<Position>, before: seq<T>, block: seq<T>)
    requires |before| == |want|
    ensures PartlyFilled(before, before, want, Expand(runs[..0]), block)
  {}

  // ---------------------------------------------------------------------
  // Updates
  // ---------------------------------------------------------------------

  /** The updates of block `b`, in request order. */
  function Updates<T>(want: seq<Position>, values: seq<T>, b: nat): seq<(nat, T)>
    requires |values| >= |want|
  {
    if want == [] then []
    else
      var n := |want| - 1;
      Updates(want[..n], values, b) + if want[n].block == b then [(want[n].offset, values[n])] else []
  }

  function PickValues<T>(points: seq<(nat, int)>, values: seq<T>): (u: seq<(nat, T)>)
    requires forall i :: 0 <= i < |points| ==> points[i].0 < |values| && points[i].1 >= 0
    ensures |u| == |points|
    ensures forall i :: 0 <= i < |u| ==> u[i] == (points[i].1, values[points[i].0])
  {
    seq(|points|, i requires 0 <= i < |points| => (points[i].1, values[points[i].0]))
  }

  lemma {:induction false} UpdatesArePicks<T>(want: seq<Position>, values: seq<T>, b: nat)
    requires |values| >= |want|
    ensures forall i :: 0 <= i < |Picks(want, b)| ==> Picks(want, b)[i].0 < |want| && Picks(want, b)[i].1 >= 0
    ensures Updates(want, values, b) == PickValues(Picks(want, b), values)
    decreases |want|
  {
    if want != [] {
      UpdatesArePicks(want[..|want| - 1], values, b);
    }
  }

  /** Expand the runs of one block into its update list. */
  method RunUpdates<T>(runs: seq<Run>, values: seq<T>, ghost want: seq<Position>,
                       ghost b: nat) returns (u: seq<(nat, T)>)
    requires |values| == |want| && Expand(runs) == Picks(want, b)
    ensures u == Updates(want, values, b)
  {
    hide Expand, Picks, Run.At, Updates;
    UpdatesArePicks(want, values, b);
    ghost var all := PickValues(Picks(want, b), values);
    u := [];
    assert runs[..0] == [];
    ExpandLengths(runs, 0);
    for r := 0 to |runs|
      invariant |Expand(runs[..r])| <= |all| && u == all[..|Expand(runs[..r])|]
    {
      var run := runs[r];
      ghost var at := |Expand(runs[..r])|;
      ExpandLengths(runs, r);
      for i := 0 to run.len
        invariant u == all[..at + i]
      {
        RunPoints(runs, want, b, r, i);
        ExpandAt(runs, r, i);
        u := u + [(run.At(i), values[run.output + i])];
      }
    }
    assert runs[..|runs|] == runs;
  }

  lemma {:induction false} ExpandAt(runs: seq<Run>, r: nat, i: nat)
    requires r < |runs| && i < runs[r].len
    ensures |Expand(runs[..r])| + i < |Expand(runs)|
    ensures Expand(runs)[|Expand(runs[..r])| + i] == (runs[r].output + i, runs[r].At(i))
    decreases |runs|
  {
    var front := runs[..|runs| - 1];
    if r < |front| {
      ExpandAt(front, r, i);
      assert front[..r] == runs[..r];
    }
  }

  lemma {:induction false} ExpandLengths(runs: seq<Run>, r: nat)
    requires r <= |runs|
    ensures |Expand(runs[..r])| <= |Expand(runs)|
    ensures r < |runs| ==> |Expand(runs[..r + 1])| == |Expand(runs[..r])| + runs[r].len <= |Expand(runs)|
    ensures Expand(runs[..0]) == []
    decreases |runs|
  {
    if r < |runs| {
      var front := runs[..|runs| - 1];
      ExpandLengths(front, r);
      assert front[..r] == runs[..r];
      assert runs[..r + 1] == runs[..r] + [runs[r]];
      ExpandSnoc(runs[..r], runs[r]);
      if r + 1 < |runs| {
        assert front[..r + 1] == runs[..r + 1];
      } else {
        assert runs[..r + 1] == runs;
      }
    } else {
      assert runs[..r] == runs;
    }
  }

  /** The plan holds exactly the block updates of the request, in request order. */
  ghost predicate PlansUpdates<T>(updates: map<nat, seq<(nat, T)>>, want: seq<Position>, values: seq<T>)
    requires |values| == |want|
  {
    forall b: nat :: if b in updates then updates[b] == Updates(want, values, b) != [] else Updates(want, values, b) == []
  }

  lemma PlannedBlocks(g: Storage, groups: Groups, offsets: seq<int>)
    requires g.Valid() && InBase(offsets, Size(g.shape)) && Agrees(groups, Located(g, offsets))
    ensures forall p :: 0 <= p < |offsets| ==>
              Located(g, offsets)[p].block < g.BlockCount() && Located(g, offsets)[p].offset < g.BlockLen()
    ensures forall b :: b in groups ==> b < g.BlockCount()
  {
    hide Storage.At, Expand;
    var want := Located(g, offsets);
    forall p | 0 <= p < |offsets|
      ensures want[p].block < g.BlockCount() && want[p].offset < g.BlockLen()
    {
      FlatOfDecodeInside(offsets[p], g.shape);
      AtInside(g, Decode(offsets[p], g.shape));
    }
    forall b | b in groups ensures b < g.BlockCount() {
      assert AgreesAt(groups, want, b);
      NonemptyPicks(want, b);
    }
  }

  lemma {:induction false} NonemptyPicks(want: seq<Position>, b: nat)
    requires Picks(want, b) != []
    ensures exists p :: 0 <= p < |want| && want[p].block == b
    decreases |want|
  {
    var front := want[..|want| - 1];
    if want[|want| - 1].block != b {
      NonemptyPicks(front, b);
      var p :| 0 <= p < |front| && front[p].block == b;
      assert want[p].block == b;
    }
  }

  /** `plan_updates`: block updates in request order within each block. */
  method PlanUpdates<T>(g: Storage, mapping: Option<CoordinateMap>, request: BatchRequest, values: seq<T>)
    returns (r: Result<map<nat, seq<(nat, T)>>>)
    requires g.Valid()
    requires mapping.Some? ==> mapping.value.Valid() && Positive(mapping.value.shape)
    ensures r.Ok? ==> |values| == request.len && request.Valid(ViewShape(g, mapping))
    ensures r.Ok? ==> InBase(Offsets(g, mapping, request), Size(g.shape))
    ensures r.Ok? ==> PlansUpdates(r.value, Located(g, Offsets(g, mapping, request)), values)
    ensures r.Ok? ==> forall b :: b in r.value ==> b < g.BlockCount()
    ensures request.Valid(ViewShape(g, mapping)) && GoodFor(g, mapping) ==>
              (r.Ok? <==> |values| == request.len && Plannable(g, mapping, request))
  {
    hide Agrees, Located, Updates, Plannable, Scan;
    if |values| != request.len {
      return Err(InvalidLayout);
    }
    var groups := Plan(g, mapping, request);
    if groups.Err? {
      return Err(groups.error);
    }
    ghost var offsets := Offsets(g, mapping, request);
    ghost var want := Located(g, offsets);
    PlannedBlocks(g, groups.value, offsets);
    var ids := Scan(groups.value.Keys, 0, g.BlockCount());
    ScanAscends(groups.value.Keys, 0, g.BlockCount());
    var updates: map<nat, seq<(nat, T)>> := map[];
    for k := 0 to |ids|
      invariant forall b: nat :: b in updates <==> b in ids[..k]
      invariant forall b: nat :: b in updates ==> updates[b] == Updates(want, values, b)
    {
      assert ids[k] in ids;
      AgreesAbout(groups.value, want, ids[k]);
      var u := RunUpdates(groups.value[ids[k]], values, want, ids[k]);
      updates := updates[ids[k] := u];
    }
    assert ids[..|ids|] == ids;
    forall b: nat
      ensures if b in updates then updates[b] == Updates(want, values, b) != [] else Updates(want, values, b) == []
    {
      AgreesAbout(groups.value, want, b);
      UpdatesArePicks(want, values, b);
    }
    return Ok(updates);
  }

  lemma AgreesAbout(groups: Groups, want: seq<Position>, b: nat)
    requires Agrees(groups, want)
    ensures Expand(RunsOf(groups, b)) == Picks(want, b)
    ensures b in groups <==> Picks(want, b) != []
    ensures forall i :: 0 <= i < |RunsOf(groups, b)| ==> RunsOf(groups, b)[i].len > 0
  {
    assert AgreesAt(groups, want, b);
  }

  // ---------------------------------------------------------------------
  // Applying updates
  // ---------------------------------------------------------------------

  predicate InsideBlock<T>(updates: seq<(nat, T)>, length: nat) {
    forall i :: 0 <= i < |updates| ==> updates[i].0 < length
  }

  function Apply<T>(block: seq<T>, updates: seq<(nat, T)>): (r: seq<T>)
    requires InsideBlock(updates, |block|)
    ensures |r| == |block|
    decreases |updates|
  {
    if updates == [] then block
    else
      var (offset, value) := updates[|updates| - 1];
      Apply(block, updates[..|updates| - 1])[offset := value]
  }

  lemma ApplySnoc<T>(block: seq<T>, updates: seq<(nat, T)>, next: (nat, T))
    requires InsideBlock(updates, |block|) && next.0 < |block|
    ensures InsideBlock(updates + [next], |block|)
    ensures Apply(block, updates + [next]) == Apply(block, updates)[next.0 := next.1]
  {
    assert (updates + [next])[..|updates|] == updates;
  }

  /** `apply_block_updates`: all offsets are checked before the first write. */
  method ApplyBlockUpdates<T>(block: array<T>, expected: nat, updates: seq<(nat, T)>) returns (r: Outcome)
    modifies block
    ensures r.Pass? <==> block.Length == expected && InsideBlock(updates, expected)
    ensures r.Fail? ==> block[..] == old(block[..])
    ensures r.Pass? ==> block[..] == Apply(old(block[..]), updates)
  {
    if block.Length != expected || exists i :: 0 <= i < |updates| && updates[i].0 >= expected {
      return Fail(InvalidLayout);
    }
    assert updates[..0] == [];
    for i := 0 to |updates|
      invariant InsideBlock(updates[..i], block.Length)
      invariant block[..] == Apply(old(block[..]), updates[..i])
    {
      assert updates[..i + 1] == updates[..i] + [updates[i]];
      ApplySnoc(old(block[..]), updates[..i], updates[i]);
      block[updates[i].0] := updates[i].1;
    }
    assert updates[..|updates|] == updates;
    return Pass;
  }

  // ---------------------------------------------------------------------
  // The reference: one value at a time
  // ---------------------------------------------------------------------

  /** The contents of every block. */
  type Store<T> = map<nat, seq<T>>

  predicate Holds<T>(store: Store<T>, p: Position) {
    p.block in store && p.offset < |store[p.block]|
  }

  predicate HoldsAll<T>(store: Store<T>, want: seq<Position>) {
    forall i :: 0 <= i < |want| ==> Holds(store, want[i])
  }

  function ReadOne<T>(store: Store<T>, p: Position): T
    requires Holds(store, p)
  {
    store[p.block][p.offset]
  }

  function WriteOne<T>(store: Store<T>, p: Position, value: T): (r: Store<T>)
    requires Holds(store, p)
    ensures r.Keys == store.Keys && forall b :: b in store ==> |r[b]| == |store[b]|
  {
    store[p.block := store[p.block][p.offset := value]]
  }

  /** Writing values one at a time, in order. */
  function WriteEach<T>(store: Store<T>, want: seq<Position>, values: seq<T>): (r: Store<T>)
    requires |values| >= |want| && HoldsAll(store, want)
    ensures r.Keys == store.Keys && forall b :: b in store ==> |r[b]| == |store[b]|
    decreases |want|
  {
    if want == [] then store
    else WriteOne(WriteEach(store, want[..|want| - 1], values), want[|want| - 1], values[|want| - 1])
  }

  lemma {:induction false} UpdatesInside<T>(store: Store<T>, want: seq<Position>, values: seq<T>, b: nat)
    requires |values| >= |want| && HoldsAll(store, want) && b in store
    ensures InsideBlock(Updates(want, values, b), |store[b]|)
    decreases |want|
  {
    if want != [] {
      assert HoldsAll(store, want[..|want| - 1]);
      UpdatesInside(store, want[..|want| - 1], values, b);
      assert Holds(store, want[|want| - 1]);
    }
  }

  /** Applying a block's updates at once is writing the request's values one at a time. */
  lemma {:induction false} ApplyIsSequential<T>(store: Store<T>, want: seq<Position>, values: seq<T>, b: nat)
    requires |values| >= |want| && HoldsAll(store, want) && b in store
    ensures InsideBlock(Updates(want, values, b), |store[b]|)
    ensures Apply(store[b], Updates(want, values, b)) == WriteEach(store, want, values)[b]
    decreases |want|
  {
    UpdatesInside(store, want, values, b);
    if want != [] {
      var n := |want| - 1;
      assert HoldsAll(store, want[..n]);
      ApplyIsSequential(store, want[..n], values, b);
      if want[n].block == b {
        ApplySnoc(store[b], Updates(want[..n], values, b), (want[n].offset, values[n]));
      } else {
        assert Updates(want[..n], values, b) + [] == Updates(want[..n], values, b);
      }
    }
  }

  predicate LastAt(want: seq<Position>, i: nat) {
    i < |want| && forall j :: i < j < |want| ==> want[j] != want[i]
  }

  /** The last value written to a position wins, and untouched positions keep theirs. */
  lemma {:induction false} LastWriteWins<T>(store: Store<T>, want: seq<Position>, values: seq<T>, p: Position)
    requires |values| >= |want| && HoldsAll(store, want) && Holds(store, p)
    ensures Holds(WriteEach(store, want, values), p)
    ensures p !in want ==> ReadOne(WriteEach(store, want, values), p) == ReadOne(store, p)
    ensures forall i: nat :: LastAt(want, i) && want[i] == p ==> ReadOne(WriteEach(store, want, values), p) == values[i]
    decreases |want|
  {
    if want != [] {
      var n := |want| - 1;
      assert HoldsAll(store, want[..n]);
      LastWriteWins(store, want[..n], values, p);
      assert forall q :: q in want[..n] ==> q in want;
      forall i: nat | LastAt(want, i) && want[i] == p ensures ReadOne(WriteEach(store, want, values), p) == values[i] {
        if i < n {
          assert LastAt(want[..n], i);
        }
      }
    }
  }

  predicate DuplicateFree(want: seq<Position>) {
    forall i, j :: 0 <= i < j < |want| ==> want[i] != want[j]
  }

  function ReadEach<T>(store: Store<T>, want: seq<Position>): (v: seq<T>)
    requires HoldsAll(store, want)
    ensures |v| == |want|
    ensures forall i :: 0 <= i < |v| ==> v[i] == ReadOne(store, want[i])
  {
    seq(|want|, i requires 0 <= i < |want| => ReadOne(store, want[i]))
  }

  /** A duplicate-free request reads back exactly what was written. */
  lemma WriteThenRead<T>(store: Store<T>, want: seq<Position>, values: seq<T>)
    requires |values| == |want| && HoldsAll(store, want) && DuplicateFree(want)
    ensures HoldsAll(WriteEach(store, want, values), want)
    ensures ReadEach(WriteEach(store, want, values), want) == values
  {
    forall i | 0 <= i < |want|
      ensures Holds(WriteEach(store, want, values), want[i])
      ensures ReadOne(WriteEach(store, want, values), want[i]) == values[i]
    {
      LastWriteWins(store, want, values, want[i]);
      assert LastAt(want, i);
    }
  }

  lemma {:induction false} WriteEachConcat<T>(store: Store<T>, a: seq<Position>, b: seq<Position>, u: seq<T>, v: seq<T>)
    requires |u| == |a| && |v| == |b| && HoldsAll(store, a) && HoldsAll(store, b)
    ensures HoldsAll(store, a + b) && HoldsAll(WriteEach(store, a, u), b)
    ensures WriteEach(store, a + b, u + v) == WriteEach(WriteEach(store, a, u), b, v)
    decreases |b|
  {
    hide WriteEach, Holds, WriteOne;
    StillHolds(store, a, u, b);
    if b == [] {
      assert a + b == a && u + v == u;
      WriteEachNone(WriteEach(store, a, u), v);
    } else {
      var n := |b| - 1;
      HoldsParts(store, a, b, n);
      WriteEachConcat(store, a, b[..n], u, v[..n]);
      assert a + b == (a + b[..n]) + [b[n]] && u + v == (u + v[..n]) + [v[n]];
      WriteEachSnoc(store, a + b[..n], b[n], u + v[..n], v[n]);
      assert b == b[..n] + [b[n]] && v == v[..n] + [v[n]];
      StillHolds(store, a, u, [b[n]]);
      WriteEachSnoc(WriteEach(store, a, u), b[..n], b[n], v[..n], v[n]);
    }
  }

  lemma WriteEachNone<T>(store: Store<T>, values: seq<T>)
    ensures WriteEach(store, [], values) == store
  {}

  lemma HoldsParts<T>(store: Store<T>, a: seq<Position>, b: seq<Position>, n: nat)
    requires HoldsAll(store, a) && HoldsAll(store, b) && n < |b|
    ensures HoldsAll(store, b[..n]) && Holds(store, b[n]) && HoldsAll(store, [b[n]]) && HoldsAll(store, a + b[..n])
    ensures HoldsAll(store, a + b)
  {}

  lemma StillHolds<T>(store: Store<T>, a: seq<Position>, u: seq<T>, b: seq<Position>)
    requires |u| >= |a| && HoldsAll(store, a) && HoldsAll(store, b)
    ensures HoldsAll(WriteEach(store, a, u), b) && HoldsAll(store, a + b)
    ensures forall i :: 0 <= i < |b| ==> Holds(WriteEach(store, a, u), b[i])
  {
    forall i | 0 <= i < |b| ensures Holds(WriteEach(store, a, u), b[i]) {
      assert Holds(store, b[i]);
    }
  }

  lemma WriteEachSnoc<T>(store: Store<T>, want: seq<Position>, next: Position, values: seq<T>, value: T)
    requires |values| == |want| && HoldsAll(store, want) && Holds(store, next)
    ensures HoldsAll(store, want + [next]) && Holds(WriteEach(store, want, values), next)
    ensures WriteEach(store, want + [next], values + [value]) == WriteOne(WriteEach(store, want, values), next, value)
  {
    assert (want + [next])[..|want|] == want;
    WriteEachPrefix(store, want, values + [value], values);
  }

  lemma {:induction false} WriteEachPrefix<T>(store: Store<T>, want: seq<Position>, u: seq<T>, v: seq<T>)
    requires |u| >= |want| && |v| >= |want| && HoldsAll(store, want)
    requires forall i :: 0 <= i < |want| ==> u[i] == v[i]
    ensures WriteEach(store, want, u) == WriteEach(store, want, v)
    decreases |want|
  {
    if want != [] {
      assert HoldsAll(store, want[..|want| - 1]);
      WriteEachPrefix(store, want[..|want| - 1], u, v);
    }
  }
}
