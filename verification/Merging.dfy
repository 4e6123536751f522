/** Merging sorted candidate streams into one sorted stream without duplicates. */
module Merging {
  import opened Radix
  import opened Wrappers
  import opened Request
  import opened Schema
  import opened Slices
  import opened SliceChunks
  import opened KeyScans
  import opened Occupied
  import opened OrderedTraversal
  import opened Reduce
  import opened Expressions

  // ---------------------------------------------------------------------
  // Ordered union of positions
  // ---------------------------------------------------------------------

  predicate AllAscending(lists: seq<seq<nat>>) {
    forall i :: 0 <= i < |lists| ==> Ascending(lists[i])
  }

  predicate InLists(x: nat, lists: seq<seq<nat>>) {
    exists i :: 0 <= i < |lists| && x in lists[i]
  }

  /** Everything before the heads is merged, everything from the heads on comes later. */
  ghost predicate Merged(lists: seq<seq<nat>>, heads: seq<nat>, out: seq<nat>) {
    && |heads| == |lists| && Ascending(out)
    && (forall i :: 0 <= i < |lists| ==> MergedList(lists[i], heads[i], out))
    && forall x :: x in out ==> InLists(x, lists)
  }

  ghost predicate MergedList(list: seq<nat>, head: nat, out: seq<nat>) {
    && head <= |list|
    && (forall k :: 0 <= k < head ==> list[k] in out)
    && forall k, x :: head <= k < |list| && x in out ==> x < list[k]
  }

  predicate HeadsWithin(lists: seq<seq<nat>>, heads: seq<nat>) {
    |heads| == |lists| && forall i :: 0 <= i < |lists| ==> heads[i] <= |lists[i]|
  }

  function Left(lists: seq<seq<nat>>, heads: seq<nat>): nat
    requires HeadsWithin(lists, heads)
  {
    if lists == [] then 0 else Left(lists[..|lists| - 1], heads[..|lists| - 1]) + |lists[|lists| - 1]| - heads[|lists| - 1]
  }

  /** The smallest head among the lists that have one. */
  method SmallestHead(lists: seq<seq<nat>>, heads: seq<nat>) returns (r: Option<nat>)
    requires HeadsWithin(lists, heads)
    ensures r.None? ==> forall i :: 0 <= i < |lists| ==> heads[i] == |lists[i]|
    ensures r.Some? ==> exists i :: 0 <= i < |lists| && heads[i] < |lists[i]| && lists[i][heads[i]] == r.value
    ensures r.Some? ==> forall i :: 0 <= i < |lists| && heads[i] < |lists[i]| ==> r.value <= lists[i][heads[i]]
  {
    r := None;
    for i := 0 to |lists|
      invariant r.None? ==> forall j :: 0 <= j < i ==> heads[j] == |lists[j]|
      invariant r.Some? ==> exists j :: 0 <= j < i && heads[j] < |lists[j]| && lists[j][heads[j]] == r.value
      invariant r.Some? ==> forall j :: 0 <= j < i && heads[j] < |lists[j]| ==> r.value <= lists[j][heads[j]]
    {
      if heads[i] < |lists[i]| && (r.None? || lists[i][heads[i]] < r.value) {
        r := Some(lists[i][heads[i]]);
      }
    }
  }

  /** Step every list whose head is the smallest value. */
  function StepHead(list: seq<nat>, head: nat, x: nat): (next: nat)
    requires head <= |list|
    ensures head <= next <= |list|
  {
    if head < |list| && list[head] == x then head + 1 else head
  }

  method StepHeads(lists: seq<seq<nat>>, heads: seq<nat>, x: nat) returns (next: seq<nat>)
    requires HeadsWithin(lists, heads)
    ensures |next| == |lists|
    ensures forall i :: 0 <= i < |lists| ==> next[i] == StepHead(lists[i], heads[i], x)
  {
    next := [];
    for i := 0 to |lists|
      invariant |next| == i && forall j :: 0 <= j < i ==> next[j] == StepHead(lists[j], heads[j], x)
    {
      next := next + [StepHead(lists[i], heads[i], x)];
    }
  }

  lemma MergedNext(list: seq<nat>, head: nat, out: seq<nat>, x: nat)
    requires Ascending(list) && MergedList(list, head, out)
    requires head < |list| ==> x <= list[head]
    ensures MergedList(list, StepHead(list, head, x), out + [x])
  {
    var next := StepHead(list, head, x);
    forall k | 0 <= k < next ensures list[k] in out + [x] {
      if k < head {
        assert list[k] in out;
      }
    }
    forall k, y | next <= k < |list| && y in out + [x] ensures y < list[k] {
      if y != x {
        assert y in out;
      }
    }
  }

  lemma {:induction false} LeftDrops(lists: seq<seq<nat>>, heads: seq<nat>, next: seq<nat>, x: nat)
    requires HeadsWithin(lists, heads) && HeadsWithin(lists, next)
    requires forall i :: 0 <= i < |lists| ==> next[i] == StepHead(lists[i], heads[i], x)
    ensures Left(lists, next) <= Left(lists, heads)
    ensures (exists i :: 0 <= i < |lists| && heads[i] < |lists[i]| && lists[i][heads[i]] == x) ==> Left(lists, next) < Left(lists, heads)
    decreases |lists|
  {
    if lists != [] {
      var n := |lists| - 1;
      LeftDrops(lists[..n], heads[..n], next[..n], x);
      if i :| 0 <= i < |lists| && heads[i] < |lists[i]| && lists[i][heads[i]] == x {
        if i < n {
          assert heads[..n][i] < |lists[..n][i]| && lists[..n][i][heads[..n][i]] == x;
        }
      }
    }
  }

  lemma MergedStep(lists: seq<seq<nat>>, heads: seq<nat>, out: seq<nat>, x: nat, next: seq<nat>)
    requires AllAscending(lists) && Merged(lists, heads, out)
    requires |next| == |lists| && forall i :: 0 <= i < |lists| ==> next[i] == StepHead(lists[i], heads[i], x)
    requires exists i :: 0 <= i < |lists| && heads[i] < |lists[i]| && lists[i][heads[i]] == x
    requires forall i :: 0 <= i < |lists| && heads[i] < |lists[i]| ==> x <= lists[i][heads[i]]
    ensures Merged(lists, next, out + [x])
  {
    hide Ascending;
    forall i | 0 <= i < |lists| ensures MergedList(lists[i], next[i], out + [x]) {
      assert MergedList(lists[i], heads[i], out);
      MergedNext(lists[i], heads[i], out, x);
    }
    var i :| 0 <= i < |lists| && heads[i] < |lists[i]| && lists[i][heads[i]] == x;
    assert x in lists[i];
    assert MergedList(lists[i], heads[i], out);
    AscendingSnoc(out, x);
  }

  lemma AscendingSnoc(s: seq<nat>, x: nat)
    requires Ascending(s) && forall y :: y in s ==> y < x
    ensures Ascending(s + [x])
  {
    assert forall i :: 0 <= i < |s| ==> s[i] in s;
  }

  /** The union of ascending lists: ascending, each member once. */
  method Union(lists: seq<seq<nat>>) returns (out: seq<nat>)
    requires AllAscending(lists)
    ensures Ascending(out)
    ensures forall x :: x in out <==> InLists(x, lists)
  {
    hide Ascending, AllAscending, MergedList;
    var heads: seq<nat> := seq(|lists|, _ => 0);
    out := [];
    MergedStart(lists, heads);
    HeadsFit(lists, heads, out);
    var smallest := SmallestHead(lists, heads);
    while smallest.Some?
      invariant Merged(lists, heads, out) && HeadsWithin(lists, heads)
      invariant smallest.None? ==> forall i :: 0 <= i < |lists| ==> heads[i] == |lists[i]|
      invariant smallest.Some? ==> exists i :: 0 <= i < |lists| && heads[i] < |lists[i]| && lists[i][heads[i]] == smallest.value
      invariant smallest.Some? ==> forall i :: 0 <= i < |lists| && heads[i] < |lists[i]| ==> smallest.value <= lists[i][heads[i]]
      decreases Left(lists, heads), smallest
    {
      var x := smallest.value;
      var next := StepHeads(lists, heads, x);
      MergedStep(lists, heads, out, x, next);
      LeftDrops(lists, heads, next, x);
      out := out + [x];
      heads := next;
      HeadsFit(lists, heads, out);
      smallest := SmallestHead(lists, heads);
    }
    forall x ensures x in out <==> InLists(x, lists) {
      if InLists(x, lists) {
        var i :| 0 <= i < |lists| && x in lists[i];
        HeadDone(lists[i], heads[i], out, x);
      }
    }
  }

  lemma HeadDone(list: seq<nat>, head: nat, out: seq<nat>, x: nat)
    requires MergedList(list, head, out) && head == |list| && x in list
    ensures x in out
  {}

  lemma MergedStart(lists: seq<seq<nat>>, heads: seq<nat>)
    requires |heads| == |lists| && forall i :: 0 <= i < |lists| ==> heads[i] == 0
    ensures Merged(lists, heads, [])
  {}

  lemma HeadsFit(lists: seq<seq<nat>>, heads: seq<nat>, out: seq<nat>)
    requires Merged(lists, heads, out)
    ensures HeadsWithin(lists, heads)
  {
    forall i | 0 <= i < |lists| ensures heads[i] <= |lists[i]| {
      assert MergedList(lists[i], heads[i], out);
    }
  }

  // ---------------------------------------------------------------------
  // Positions of candidate requests
  // ---------------------------------------------------------------------

  function FlatsOf(coords: seq<Coord>, shape: seq<nat>): (f: seq<nat>)
    requires CoordsIn(coords, shape)
    ensures |f| == |coords|
    ensures forall i :: 0 <= i < |f| ==> f[i] == Flat(coords[i], shape)
  {
    seq(|coords|, i requires 0 <= i < |coords| => Flat(coords[i], shape))
  }

  function DecodeAll(flats: seq<nat>, shape: seq<nat>): (c: seq<Coord>)
    requires Positive(shape)
    ensures |c| == |flats|
    ensures forall i :: 0 <= i < |c| ==> c[i] == Decode(flats[i], shape)
  {
    seq(|flats|, i requires 0 <= i < |flats| => Decode(flats[i], shape))
  }

  /** Row-major position by repeated multiply and add, in checked arithmetic. */
  method CheckedFlat(c: Coord, shape: seq<nat>) returns (r: Result<nat>)
    requires InShape(c, shape) && Positive(shape) && Size(shape) <= U64_MAX
    ensures r == Ok(Flat(c, shape))
  {
    hide Size, Flat;
    var flat: nat := 0;
    FlatEmpty(c, shape);
    for i := 0 to |c|
      invariant flat == Flat(c[..i], shape[..i])
    {
      HornerStep(c, shape, i);
      if flat * shape[i] > U64_MAX || flat * shape[i] + c[i] > U64_MAX {
        return Err(InvalidCoord);
      }
      flat := flat * shape[i] + c[i];
    }
    assert c[..|c|] == c && shape[..|shape|] == shape;
    return Ok(flat);
  }

  lemma FlatEmpty(c: Coord, shape: seq<nat>)
    requires |c| == |shape|
    ensures Flat(c[..0], shape[..0]) == 0
  {}

  lemma HornerStep(c: Coord, shape: seq<nat>, i: nat)
    requires InShape(c, shape) && Positive(shape) && i < |c|
    ensures Flat(c[..i + 1], shape[..i + 1]) == Flat(c[..i], shape[..i]) * shape[i] + c[i]
    ensures Flat(c[..i + 1], shape[..i + 1]) < Size(shape)
  {
    hide Flat, Size;
    assert c[..i + 1] == c[..i] + [c[i]] && shape[..i + 1] == shape[..i] + [shape[i]];
    FlatConcat(c[..i], [c[i]], shape[..i], [shape[i]]);
    OneDigitFlat(c[i], shape[i]);
    assert InShape(c[..i + 1], shape[..i + 1]);
    FlatBound(c[..i + 1], shape[..i + 1]);
    PrefixSize(shape, i + 1);
  }

  lemma OneDigitFlat(x: nat, dim: nat)
    ensures Size([dim]) == dim && Flat([x], [dim]) == x
  {
    assert Size([dim]) == dim * Size([]);
    assert Flat([x], [dim]) == x * Size([]) + Flat([], []);
  }

  /** The positions of one request, in order. */
  method RequestFlats(request: BatchRequest, shape: seq<nat>) returns (r: Result<seq<nat>>)
    requires request.Valid(shape) && Size(shape) <= U64_MAX
    ensures CoordsIn(request.Coords(shape), shape)
    ensures r == Ok(FlatsOf(request.Coords(shape), shape))
  {
    hide BatchRequest.Coords, Tracks, Flat, Size;
    ghost var coords := request.Coords(shape);
    forall i | 0 <= i < request.len ensures InShape(coords[i], shape) {
      CoordsInside(request, shape, i);
    }
    ghost var all := FlatsOf(coords, shape);
    var flats: seq<nat> := [];
    var cursor := new Cursor(request, shape);
    var more, coord := cursor.NextInto();
    while more
      invariant cursor.Valid() && |flats| <= request.len
      invariant cursor.position == if more then |flats| + 1 else |flats|
      invariant more ==> |flats| < request.len && coord == coords[|flats|]
      invariant !more ==> |flats| == request.len
      invariant flats == all[..|flats|]
      decreases request.len - |flats|
    {
      var flat := CheckedFlat(coord, shape);
      if flat.Err? {
        return Err(InvalidCoord);
      }
      assert all[..|flats| + 1] == all[..|flats|] + [flat.value];
      flats := flats + [flat.value];
      more, coord := cursor.NextInto();
    }
    assert all[..|all|] == all;
    return Ok(flats);
  }

  lemma AllInside(requests: seq<BatchRequest>, shape: seq<nat>)
    requires BatchesValid(requests, shape)
    ensures CoordsIn(AllCoords(requests, shape), shape)
    decreases |requests|
  {
    hide BatchRequest.Coords;
    if requests != [] {
      var last := requests[|requests| - 1];
      AllInside(requests[..|requests| - 1], shape);
      forall i | 0 <= i < last.len ensures InShape(last.Coords(shape)[i], shape) {
        CoordsInside(last, shape, i);
      }
    }
  }

  /** The positions of a whole candidate stream. */
  method StreamFlats(requests: seq<BatchRequest>, shape: seq<nat>) returns (r: Result<seq<nat>>)
    requires BatchesValid(requests, shape) && Size(shape) <= U64_MAX
    ensures CoordsIn(AllCoords(requests, shape), shape)
    ensures r == Ok(FlatsOf(AllCoords(requests, shape), shape))
  {
    hide BatchRequest.Coords, BatchRequest.Valid, AllCoords, Flat, Size;
    AllInside(requests, shape);
    var flats: seq<nat> := [];
    assert AllCoords(requests[..0], shape) == [] by { NoBatches(shape); }
    for i := 0 to |requests|
      invariant BatchesValid(requests[..i], shape) && |flats| == |AllCoords(requests[..i], shape)|
      invariant CoordsIn(AllCoords(requests[..i], shape), shape)
      invariant flats == FlatsOf(AllCoords(requests[..i], shape), shape)
    {
      BatchPrefix(requests, shape, i);
      var more := RequestFlats(requests[i], shape);
      if more.Err? {
        return Err(InvalidCoord);
      }
      flats := flats + more.value;
    }
    assert requests[..|requests|] == requests;
    return Ok(flats);
  }

  // ---------------------------------------------------------------------
  // Merging request streams
  // ---------------------------------------------------------------------

  lemma InOrderFlats(coords: seq<Coord>, shape: seq<nat>)
    requires CoordsIn(coords, shape)
    ensures InOrder(coords) <==> Ascending(FlatsOf(coords, shape))
  {
    hide Before, Flat;
    forall i, j | 0 <= i < j < |coords|
      ensures Before(coords[i], coords[j]) <==> FlatsOf(coords, shape)[i] < FlatsOf(coords, shape)[j]
    {
      BeforeIsFlatOrder(coords[i], coords[j], shape);
    }
  }

  /** Cut ascending positions into explicit requests of bounded size. */
  method ExplicitBatches(flats: seq<nat>, shape: seq<nat>) returns (r: Result<seq<BatchRequest>>)
    requires Positive(shape) && forall i :: 0 <= i < |flats| ==> flats[i] < Size(shape)
    ensures r.Ok? && BatchesValid(r.value, shape)
    ensures AllCoords(r.value, shape) == DecodeAll(flats, shape)
    ensures forall i :: 0 <= i < |r.value| ==> r.value[i].kind.Explicit?
    ensures forall i :: 0 <= i < |r.value| - 1 ==> r.value[i].len == MAX_BATCH_ELEMENTS
  {
    hide Size, Decode, AllCoords;
    var requests: seq<BatchRequest> := [];
    NoBatches(shape);
    ghost var all := DecodeAll(flats, shape);
    var at := 0;
    while at < |flats|
      invariant 0 <= at <= |flats| && BatchesValid(requests, shape) && AllCoords(requests, shape) == all[..at]
      invariant forall i :: 0 <= i < |requests| ==> requests[i].kind.Explicit?
      invariant forall i :: 0 <= i < |requests| && (at < |flats| || i < |requests| - 1) ==> requests[i].len == MAX_BATCH_ELEMENTS
    {
      var output: seq<Coord> := [];
      while |output| < MAX_BATCH_ELEMENTS && at + |output| < |flats|
        invariant at + |output| <= |flats| && |output| <= MAX_BATCH_ELEMENTS && output == all[at..at + |output|]
        invariant forall i :: 0 <= i < |output| ==> InShape(output[i], shape)
      {
        var decoded := DecodeFlat(flats[at + |output|], shape);
        DecodeInShape(flats[at + |output|], shape);
        output := output + [decoded.value];
      }
      var request := BatchRequest(Explicit(output), |output|);
      BatchNext(requests, request, shape);
      assert all[..at + |output|] == all[..at] + all[at..at + |output|];
      requests := requests + [request];
      at := at + |output|;
    }
    return Ok(requests);
  }

  lemma BatchNext(requests: seq<BatchRequest>, next: BatchRequest, shape: seq<nat>)
    requires BatchesValid(requests, shape) && next.Valid(shape) && 0 < next.len
    ensures BatchesValid(requests + [next], shape)
    ensures AllCoords(requests + [next], shape) == AllCoords(requests, shape) + next.Coords(shape)
  {
    hide BatchRequest.Coords;
    assert next.len <= MAX_BATCH_ELEMENTS;
    assert (requests + [next])[..|requests|] == requests;
  }

  predicate StreamsValid(streams: seq<seq<BatchRequest>>, shape: seq<nat>) {
    forall i :: 0 <= i < |streams| ==> BatchesValid(streams[i], shape)
  }

  /** The coordinates of several candidate streams. */
  function StreamCoords(streams: seq<seq<BatchRequest>>, shape: seq<nat>): (s: seq<seq<Coord>>)
    requires StreamsValid(streams, shape)
    ensures |s| == |streams|
    ensures forall i :: 0 <= i < |s| ==> s[i] == AllCoords(streams[i], shape)
  {
    seq(|streams|, i requires 0 <= i < |streams| => AllCoords(streams[i], shape))
  }

  /** `merge`: sorted streams become one sorted stream of their distinct coordinates. */
  method Merge(streams: seq<seq<BatchRequest>>, shape: seq<nat>) returns (r: Result<seq<BatchRequest>>)
    requires Positive(shape) && Size(shape) <= U64_MAX
    requires StreamsValid(streams, shape)
    requires forall i :: 0 <= i < |streams| ==> InOrder(StreamCoords(streams, shape)[i])
    ensures r.Ok? && BatchesValid(r.value, shape) && InOrder(AllCoords(r.value, shape))
    ensures forall x :: x in AllCoords(r.value, shape) <==> InSome(x, StreamCoords(streams, shape))
    ensures forall i :: 0 <= i < |r.value| ==> r.value[i].kind.Explicit?
  {
    hide AllCoords, BatchRequest.Valid, BatchRequest.Coords, InOrder, Flat, Size, Decode, Ascending;
    var lists: seq<seq<nat>> := [];
    for i := 0 to |streams|
      invariant |lists| == i
      invariant forall k :: 0 <= k < i ==> ListOf(streams[k], shape, lists[k])
    {
      AllInside(streams[i], shape);
      assert InOrder(StreamCoords(streams, shape)[i]);
      InOrderFlats(AllCoords(streams[i], shape), shape);
      var flats := StreamFlats(streams[i], shape);
      if flats.Err? {
        return Err(InvalidCoord);
      }
      lists := lists + [flats.value];
    }
    var union := Union(lists);
    ListsInside(streams, shape, lists, union);
    r := ExplicitBatches(union, shape);
    UnionCoords(streams, shape, lists, union);
  }

  /** The ascending positions of one stream. */
  ghost predicate ListOf(stream: seq<BatchRequest>, shape: seq<nat>, list: seq<nat>) {
    && BatchesValid(stream, shape)
    && CoordsIn(AllCoords(stream, shape), shape)
    && list == FlatsOf(AllCoords(stream, shape), shape) && Ascending(list)
  }

  lemma ListsInside(streams: seq<seq<BatchRequest>>, shape: seq<nat>, lists: seq<seq<nat>>, union: seq<nat>)
    requires |lists| == |streams| && forall k :: 0 <= k < |streams| ==> ListOf(streams[k], shape, lists[k])
    requires forall x :: x in union <==> InLists(x, lists)
    ensures forall i :: 0 <= i < |union| ==> union[i] < Size(shape)
  {
    hide AllCoords, BatchRequest.Valid, Ascending;
    forall i | 0 <= i < |union| ensures union[i] < Size(shape) {
      assert union[i] in union;
      var k :| 0 <= k < |lists| && union[i] in lists[k];
      assert ListOf(streams[k], shape, lists[k]);
      var j :| 0 <= j < |lists[k]| && lists[k][j] == union[i];
      FlatBound(AllCoords(streams[k], shape)[j], shape);
    }
  }

  lemma UnionCoords(streams: seq<seq<BatchRequest>>, shape: seq<nat>, lists: seq<seq<nat>>, union: seq<nat>)
    requires Positive(shape) && |lists| == |streams| && forall k :: 0 <= k < |streams| ==> ListOf(streams[k], shape, lists[k])
    requires forall x :: x in union <==> InLists(x, lists)
    requires Ascending(union) && forall i :: 0 <= i < |union| ==> union[i] < Size(shape)
    ensures StreamsValid(streams, shape)
    ensures InOrder(DecodeAll(union, shape))
    ensures forall x :: x in DecodeAll(union, shape) <==> InSome(x, StreamCoords(streams, shape))
  {
    hide AllCoords, BatchRequest.Valid, BatchRequest.Coords, Ascending, InOrder, Decode, Flat, Size;
    var coords := DecodeAll(union, shape);
    forall k | 0 <= k < |streams| ensures BatchesValid(streams[k], shape) {
      assert ListOf(streams[k], shape, lists[k]);
    }
    forall i | 0 <= i < |union| ensures InShape(coords[i], shape) && Flat(coords[i], shape) == union[i] {
      FlatOfDecodeInside(union[i], shape);
    }
    assert FlatsOf(coords, shape) == union;
    InOrderFlats(coords, shape);
    var all := StreamCoords(streams, shape);
    forall x ensures x in coords <==> InSome(x, all) {
      if x in coords {
        var i :| 0 <= i < |coords| && coords[i] == x;
        assert union[i] in union;
        var k :| 0 <= k < |lists| && union[i] in lists[k];
        assert ListOf(streams[k], shape, lists[k]);
        var j :| 0 <= j < |lists[k]| && lists[k][j] == union[i];
        FlatInjective(all[k][j], x, shape);
        assert x in all[k];
      }
      if InSome(x, all) {
        var k :| 0 <= k < |all| && x in all[k];
        assert ListOf(streams[k], shape, lists[k]);
        var j :| 0 <= j < |all[k]| && all[k][j] == x;
        assert lists[k][j] in lists[k];
        assert InLists(Flat(x, shape), lists);
        var i :| 0 <= i < |union| && union[i] == Flat(x, shape);
        DecodeOfFlat(x, shape);
        assert coords[i] == x;
      }
    }
  }
}
