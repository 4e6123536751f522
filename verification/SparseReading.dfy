/** Traversing an expression for its candidates, and reading its nonzero elements in order. */
module SparseReading {
  import opened Radix
  import opened Wrappers
  import opened Request
  import opened Mapping
  import opened Geometry
  import opened Progressions
  import opened Slices
  import opened SliceChunks
  import opened Occupied
  import opened Transforms
  import opened Ranges
  import opened OrderedTraversal
  import opened Reduce
  import opened StorageRead
  import opened SparseStore
  import opened SparseViews
  import opened Expressions
  import opened Evaluation
  import opened Merging

  // ---------------------------------------------------------------------
  // Walking
  // ---------------------------------------------------------------------

  /** How many expressions a traversal of `e` visits. */
  function Visits<T>(e: Expr<T>): (n: nat)
    ensures n > 0
    decreases e
  {
    match e
    case Leaf(_, _, _, _) => 1
    case Stored(_, _, _, _) => 1
    case Unary(_, source, _) => 1 + Visits(source)
    case Binary(_, left, right, _) => if Sparse(e) then 1 + Visits(left) + Visits(right) else 1
    case Where(condition, chosen, otherwise) =>
      if Sparse(e) then 1 + Visits(condition) + Visits(chosen) + Visits(otherwise) else 1
    case Owned(source, _, through) => if Sparse(e) && IsIdentity(through, Shape(source)) then 1 + Visits(source) else 1
  }

  function AllVisits<T>(pending: seq<Expr<T>>): nat {
    if pending == [] then 0 else AllVisits(pending[..|pending| - 1]) + Visits(pending[|pending| - 1])
  }

  lemma {:induction false} AllVisitsConcat<T>(a: seq<Expr<T>>, b: seq<Expr<T>>)
    ensures AllVisits(a + b) == AllVisits(a) + AllVisits(b)
    decreases |b|
  {
    if b == [] {
      assert a + b == a;
    } else {
      AllVisitsConcat(a, b[..|b| - 1]);
      assert (a + b)[..|a + b| - 1] == a + b[..|b| - 1];
    }
  }

  function Reversed<T>(s: seq<T>): (r: seq<T>)
    ensures |r| == |s| && forall i :: 0 <= i < |s| ==> r[i] == s[|s| - 1 - i]
  {
    seq(|s|, i requires 0 <= i < |s| => s[|s| - 1 - i])
  }

  /** Visiting an expression accounts for itself and its sources. */
  lemma SourceVisits<T>(e: Expr<T>)
    ensures Sources(e).Some? ==> Visits(e) == 1 + AllVisits(Reversed(Sources(e).value))
    ensures Sources(e).None? ==> Visits(e) == 1
  {
    match Sources(e)
    case None =>
    case Some(list) =>
      if |list| == 1 {
        AllVisitsOne(list[0]);
        assert Reversed(list) == [list[0]];
      } else if |list| == 2 {
        AllVisitsOne(list[0]);
        AllVisitsOne(list[1]);
        assert Reversed(list) == [list[1]] + [list[0]];
        AllVisitsConcat([list[1]], [list[0]]);
      } else {
        AllVisitsOne(list[0]);
        AllVisitsOne(list[1]);
        AllVisitsOne(list[2]);
        assert Reversed(list) == ([list[2]] + [list[1]]) + [list[0]];
        AllVisitsConcat([list[2]], [list[1]]);
        AllVisitsConcat([list[2]] + [list[1]], [list[0]]);
      }
  }

  lemma AllVisitsOne<T>(e: Expr<T>)
    ensures AllVisits([e]) == Visits(e)
  {
    assert [e][..0] == [];
    assert AllVisits([e][..0]) == 0;
  }

  /** The ends of a stack of expressions, top first. */
  function PendingEnds<T>(pending: seq<Expr<T>>): seq<Expr<T>> {
    if pending == [] then [] else Ends(pending[|pending| - 1]) + PendingEnds(pending[..|pending| - 1])
  }

  lemma {:induction false} PendingConcat<T>(a: seq<Expr<T>>, b: seq<Expr<T>>)
    ensures PendingEnds(a + b) == PendingEnds(b) + PendingEnds(a)
    decreases |b|
  {
    hide Ends;
    if b == [] {
      assert a + b == a;
    } else {
      PendingConcat(a, b[..|b| - 1]);
      assert (a + b)[..|a + b| - 1] == a + b[..|b| - 1];
    }
  }

  lemma PendingOne<T>(e: Expr<T>)
    ensures PendingEnds([e]) == Ends(e)
  {
    hide Ends;
    assert PendingEnds([e][..0]) == [];
  }

  /** Delegating to sources, first on top, keeps the ends and their order. */
  lemma SourceEnds<T>(e: Expr<T>)
    ensures Sources(e).Some? ==> PendingEnds(Reversed(Sources(e).value)) == Ends(e)
    ensures Sources(e).None? ==> Ends(e) == [e]
  {
    hide PendingEnds, Sparse, Shape, IsIdentity;
    match e
    case Leaf(_, _, _, _) =>
    case Stored(_, _, _, _) =>
    case Unary(_, source, _) => OneEnds(source);
    case Binary(_, left, right, _) => TwoEnds(left, right);
    case Where(condition, chosen, otherwise) => ThreeEnds(condition, chosen, otherwise);
    case Owned(source, _, _) => OneEnds(source);
  }

  lemma OneEnds<T>(a: Expr<T>)
    ensures PendingEnds(Reversed([a])) == Ends(a)
  {
    hide PendingEnds, Ends;
    PendingOne(a);
    assert Reversed([a]) == [a];
  }

  lemma TwoEnds<T>(a: Expr<T>, b: Expr<T>)
    ensures PendingEnds(Reversed([a, b])) == Ends(a) + Ends(b)
  {
    hide PendingEnds, Ends;
    PendingOne(a);
    PendingOne(b);
    PendingConcat([b], [a]);
    assert Reversed([a, b]) == [b] + [a];
  }

  lemma ThreeEnds<T>(a: Expr<T>, b: Expr<T>, c: Expr<T>)
    ensures PendingEnds(Reversed([a, b, c])) == Ends(a) + Ends(b) + Ends(c)
  {
    hide PendingEnds, Ends;
    PendingOne(a);
    PendingOne(b);
    PendingOne(c);
    PendingConcat([c], [b]);
    PendingConcat([c] + [b], [a]);
    assert Reversed([a, b, c]) == ([c] + [b]) + [a];
    assert Ends(a) + (Ends(b) + Ends(c)) == Ends(a) + Ends(b) + Ends(c);
  }

  // ---------------------------------------------------------------------
  // Requests where a traversal stops
  // ---------------------------------------------------------------------

  /** Every expression of a list has the traversed shape and was accepted. */
  ghost predicate Accepted<T>(list: seq<Expr<T>>, shape: seq<nat>) {
    forall i :: 0 <= i < |list| ==> WellFormed(list[i]) && Shape(list[i]) == shape
  }

  lemma SourcesAccepted<T>(e: Expr<T>)
    requires WellFormed(e) && Sources(e).Some?
    ensures Accepted(Reversed(Sources(e).value), Shape(e))
  {}

  /** The ordered requests of an expression that does not delegate: a sparse tensor or view uses its
      occupancy index, everything else enumerates the selection. */
  method OwnRequests<T(==)>(e: Expr<T>, slice: Slice) returns (requests: seq<BatchRequest>)
    requires WellFormed(e) && Sources(e).None? && slice.Valid() && slice.shape == Shape(e) && StrictAxes(slice)
    ensures BatchesValid(requests, slice.shape) && AllKeep(requests, slice.axes)
    ensures Enumerates(e, slice, AllCoords(requests, slice.shape))
  {
    hide AllCoords, BatchRequest.Valid, Slice.Coords, Complete, StrictAxes, ViewValue, ViewReads, StoreOf,
         TableValid, Size, AllKeep;
    if e.Stored? {
      var store := new SparseStorage.Open(e.g, Zero(e), e.table);
      ghost var value := Valuation(e);
      TableReads(value, e.g, e.table, e.mapping, Zero(e));
      var ordered := ViewOrdered(store, e.mapping, slice, value);
      return ordered.value;
    }
    WholeEnumerates(e, slice);
    requests := SliceChunks.Requests(slice);
  }

  // ---------------------------------------------------------------------
  // The ordered traversal
  // ---------------------------------------------------------------------

  predicate StreamsKeep(streams: seq<seq<BatchRequest>>, of: seq<Axis>) {
    forall i :: 0 <= i < |streams| ==> AllKeep(streams[i], of)
  }

  /** What a traversal keeps: the streams collected cover the ends passed, those ends and the ones
      still to come are all of them, and so are the visits made and those to come. */
  ghost predicate Walking<T>(e: Expr<T>, slice: Slice, streams: seq<seq<BatchRequest>>, passed: seq<Expr<T>>,
                             pending: seq<Expr<T>>, visited: nat) {
    && StreamsValid(streams, slice.shape)
    && StreamsKeep(streams, slice.axes)
    && Accepted(pending, slice.shape)
    && AllEnumerated(passed, slice, StreamCoords(streams, slice.shape))
    && passed + PendingEnds(pending) == Ends(e)
    && visited + AllVisits(pending) == Visits(e)
  }

  lemma WalkStart<T>(e: Expr<T>, slice: Slice)
    requires WellFormed(e) && slice.shape == Shape(e)
    ensures Walking(e, slice, [], [], [e], 0)
  {
    hide Ends, WellFormed, Visits, Enumerates;
    PendingOne(e);
    AllVisitsOne(e);
    assert StreamCoords([], slice.shape) == [];
  }

  lemma StreamSnoc(streams: seq<seq<BatchRequest>>, requests: seq<BatchRequest>, shape: seq<nat>)
    requires StreamsValid(streams, shape) && BatchesValid(requests, shape)
    ensures StreamsValid(streams + [requests], shape)
    ensures StreamCoords(streams + [requests], shape) == StreamCoords(streams, shape) + [AllCoords(requests, shape)]
  {
    hide AllCoords;
  }

  /** Popping an expression that enumerates here. */
  lemma WalkOwn<T>(e: Expr<T>, slice: Slice, streams: seq<seq<BatchRequest>>, passed: seq<Expr<T>>,
                   pending: seq<Expr<T>>, visited: nat, requests: seq<BatchRequest>)
    requires Walking(e, slice, streams, passed, pending, visited)
    requires pending != [] && Sources(pending[|pending| - 1]).None? && BatchesValid(requests, slice.shape)
    requires Enumerates(pending[|pending| - 1], slice, AllCoords(requests, slice.shape))
    requires AllKeep(requests, slice.axes)
    ensures var top := pending[|pending| - 1];
            Walking(e, slice, streams + [requests], passed + [top], pending[..|pending| - 1], visited + 1)
  {
    hide BatchesValid, Enumerates, Ends, WellFormed, Visits, Sources, Shape, StreamCoords, StreamsValid, AllKeep;
    var top := pending[|pending| - 1];
    SourceEnds(top);
    SourceVisits(top);
    StreamSnoc(streams, requests, slice.shape);
    assert (passed + [top]) + PendingEnds(pending[..|pending| - 1]) == passed + PendingEnds(pending);
  }

  /** Popping an expression that delegates. */
  lemma WalkSources<T>(e: Expr<T>, slice: Slice, streams: seq<seq<BatchRequest>>, passed: seq<Expr<T>>,
                       pending: seq<Expr<T>>, visited: nat)
    requires Walking(e, slice, streams, passed, pending, visited)
    requires pending != [] && Sources(pending[|pending| - 1]).Some?
    ensures var top := pending[|pending| - 1];
            Walking(e, slice, streams, passed, pending[..|pending| - 1] + Reversed(Sources(top).value), visited + 1)
  {
    hide AllEnumerated, Ends, WellFormed, Sources, Reversed, Visits, StreamsValid, StreamsKeep, StreamCoords,
         PendingEnds, AllVisits, Shape;
    var top, rest := pending[|pending| - 1], pending[..|pending| - 1];
    var sources := Reversed(Sources(top).value);
    assert pending == rest + [top];
    PendingOne(top);
    PendingConcat(rest, [top]);
    AllVisitsConcat(rest, [top]);
    AllVisitsOne(top);
    SourceEnds(top);
    SourcesAccepted(top);
    SourceVisits(top);
    AllVisitsConcat(rest, sources);
    PendingConcat(rest, sources);
  }

  lemma WalkTop<T>(e: Expr<T>, slice: Slice, streams: seq<seq<BatchRequest>>, passed: seq<Expr<T>>,
                   pending: seq<Expr<T>>, visited: nat)
    requires Walking(e, slice, streams, passed, pending, visited) && pending != []
    ensures WellFormed(pending[|pending| - 1]) && Shape(pending[|pending| - 1]) == slice.shape
    ensures visited < Visits(e)
  {
    hide AllEnumerated, Ends, WellFormed, Shape;
  }

  lemma WalkDone<T>(e: Expr<T>, slice: Slice, streams: seq<seq<BatchRequest>>, passed: seq<Expr<T>>, visited: nat)
    requires Walking(e, slice, streams, passed, [], visited)
    ensures visited == Visits(e) && StreamsValid(streams, slice.shape) && StreamsKeep(streams, slice.axes)
    ensures AllEnumerated(Ends(e), slice, StreamCoords(streams, slice.shape))
  {
    hide AllEnumerated, Ends, Visits;
    assert passed + PendingEnds<T>([]) == passed;
  }

  /** `walk`: collect the requests of every end, left to right, within the traversal bound. */
  method Walk<T(==)>(e: Expr<T>, slice: Slice) returns (r: Result<seq<seq<BatchRequest>>>)
    requires WellFormed(e) && slice.Valid() && slice.shape == Shape(e) && StrictAxes(slice)
    ensures r.Ok? <==> Visits(e) <= MAX_EXPRESSION_NODES
    ensures r.Err? ==> r.error == Unsupported
    ensures r.Ok? ==> StreamsValid(r.value, slice.shape) && StreamsKeep(r.value, slice.axes)
    ensures r.Ok? ==> AllEnumerated(Ends(e), slice, StreamCoords(r.value, slice.shape))
  {
    hide WellFormed, Ends, Walking, Visits, Enumerates, AllEnumerated, AllCoords, BatchesValid, Sources, Reversed,
         Shape, StrictAxes, AllKeep, StreamsKeep;
    var streams: seq<seq<BatchRequest>> := [];
    var pending := [e];
    var visited := 0;
    ghost var passed: seq<Expr<T>> := [];
    WalkStart(e, slice);
    while pending != []
      invariant Walking(e, slice, streams, passed, pending, visited) && visited <= MAX_EXPRESSION_NODES
      decreases Visits(e) - visited
    {
      WalkTop(e, slice, streams, passed, pending, visited);
      if visited == MAX_EXPRESSION_NODES {
        return Err(Unsupported);
      }
      var top := pending[|pending| - 1];
      match Sources(top) {
        case None =>
          var requests := OwnRequests(top, slice);
          WalkOwn(e, slice, streams, passed, pending, visited, requests);
          passed := passed + [top];
          streams, pending := streams + [requests], pending[..|pending| - 1];
        case Some(list) =>
          WalkSources(e, slice, streams, passed, pending, visited);
          pending := pending[..|pending| - 1] + Reversed(list);
      }
      visited := visited + 1;
    }
    WalkDone(e, slice, streams, passed, visited);
    return Ok(streams);
  }

  // ---------------------------------------------------------------------
  // Ordered candidates
  // ---------------------------------------------------------------------

  lemma SingleStream(streams: seq<seq<Coord>>, x: Coord)
    requires |streams| == 1
    ensures InSome(x, streams) <==> x in streams[0]
  {
    if x in streams[0] {
      assert InSome(x, streams);
    }
  }

  lemma {:induction false} SomeEnd<T>(e: Expr<T>)
    ensures Ends(e) != []
    decreases e
  {
    match e
    case Unary(_, source, _) => SomeEnd(source);
    case Binary(_, left, _, _) => SomeEnd(left);
    case Where(condition, _, _) => SomeEnd(condition);
    case Owned(source, _, _) => SomeEnd(source);
    case Leaf(_, _, _, _) =>
    case Stored(_, _, _, _) =>
  }

  lemma CoveredInOrder<T>(ends: seq<Expr<T>>, slice: Slice, streams: seq<seq<Coord>>)
    requires AllEnumerated(ends, slice, streams)
    ensures |streams| == |ends| && forall i :: 0 <= i < |streams| ==> InOrder(streams[i])
  {
    hide InOrder, Slice.Coords, Sparse;
    forall i | 0 <= i < |streams| ensures InOrder(streams[i]) {
      assert Enumerates(ends[i], slice, streams[i]);
    }
  }

  /** `ordered`: sorted candidate requests that include every nonzero selected coordinate, and all
      of them when the expression is dense. */
  method Ordered<T(==)>(e: Expr<T>, slice: Slice) returns (r: Result<seq<BatchRequest>>)
    requires WellFormed(e) && slice.Valid() && slice.shape == Shape(e) && StrictAxes(slice)
    ensures r.Ok? <==> Visits(e) <= MAX_EXPRESSION_NODES
    ensures r.Ok? ==> BatchesValid(r.value, slice.shape) && AllKeep(r.value, slice.axes)
    ensures r.Ok? ==> Complete(Valuation(e), Zero(e), slice, AllCoords(r.value, slice.shape))
    ensures r.Ok? && !Sparse(e) ==> AllCoords(r.value, slice.shape) == slice.Coords()
  {
    hide InOrder, Slice.Coords, Ends, Complete, AllCoords, Visits, Valuation, Sparse, AllEnumerated,
         BatchRequest.Valid, KeepsSteps;
    var streams := Walk(e, slice);
    if streams.Err? {
      return Err(streams.error);
    }
    ghost var coords := StreamCoords(streams.value, slice.shape);
    SomeEnd(e);
    CoveredInOrder(Ends(e), slice, coords);
    var requests := streams.value[0];
    if |streams.value| == 1 {
      forall x ensures x in AllCoords(requests, slice.shape) <==> InSome(x, coords) {
        SingleStream(coords, x);
      }
    } else {
      var merged := Merging.Merge(streams.value, slice.shape);
      requests := merged.value;
    }
    UnionEnumerates(e, slice, coords, AllCoords(requests, slice.shape));
    return Ok(requests);
  }

  // ---------------------------------------------------------------------
  // Reading nonzero elements
  // ---------------------------------------------------------------------

  /** The nonzero elements among some coordinates, in order. */
  function Nonzeros<T(==)>(value: Coord -> T, zero: T, coords: seq<Coord>): seq<(Coord, T)> {
    if coords == [] then []
    else
      var c := coords[|coords| - 1];
      Nonzeros(value, zero, coords[..|coords| - 1]) + if value(c) != zero then [(c, value(c))] else []
  }

  lemma {:induction false} NonzerosConcat<T>(value: Coord -> T, zero: T, a: seq<Coord>, b: seq<Coord>)
    ensures Nonzeros(value, zero, a + b) == Nonzeros(value, zero, a) + Nonzeros(value, zero, b)
    decreases |b|
  {
    if b == [] {
      assert a + b == a;
    } else {
      NonzerosConcat(value, zero, a, b[..|b| - 1]);
      assert (a + b)[..|a + b| - 1] == a + b[..|b| - 1];
    }
  }

  /** The coordinates of the nonzero values. */
  ghost function NonzeroCoords<T>(value: Coord -> T, zero: T, coords: seq<Coord>): seq<Coord> {
    if coords == [] then []
    else
      var c := coords[|coords| - 1];
      NonzeroCoords(value, zero, coords[..|coords| - 1]) + if value(c) != zero then [c] else []
  }

  lemma {:induction false} NonzeroCoordsOf<T>(value: Coord -> T, zero: T, coords: seq<Coord>)
    ensures forall x :: x in NonzeroCoords(value, zero, coords) <==> x in coords && value(x) != zero
    ensures InOrder(coords) ==> InOrder(NonzeroCoords(value, zero, coords))
    ensures Nonzeros(value, zero, coords) == Nonzeros(value, zero, NonzeroCoords(value, zero, coords))
    decreases |coords|
  {
    hide InOrder, Nonzeros, NonzeroCoords;
    if coords == [] {
      NoNonzeros(value, zero);
    } else {
      var n := |coords| - 1;
      var front, c := coords[..n], coords[n];
      NonzeroCoordsOf(value, zero, front);
      var kept := NonzeroCoords(value, zero, front);
      assert coords == front + [c];
      NonzeroSnoc(value, zero, front, c);
      if InOrder(coords) {
        InOrderFront(front, c);
        if value(c) != zero {
          InOrderSnoc(front, kept, c);
        }
      }
      if value(c) != zero {
        NonzeroSnoc(value, zero, kept, c);
      } else {
        assert kept + [] == kept && Nonzeros(value, zero, front) + [] == Nonzeros(value, zero, front);
      }
    }
  }

  lemma NoNonzeros<T>(value: Coord -> T, zero: T)
    ensures NonzeroCoords(value, zero, []) == [] && Nonzeros(value, zero, []) == [] && InOrder([])
  {}

  lemma NonzeroSnoc<T>(value: Coord -> T, zero: T, front: seq<Coord>, c: Coord)
    ensures NonzeroCoords(value, zero, front + [c]) == NonzeroCoords(value, zero, front) + (if value(c) != zero then [c] else [])
    ensures Nonzeros(value, zero, front + [c]) == Nonzeros(value, zero, front) + (if value(c) != zero then [(c, value(c))] else [])
  {
    assert (front + [c])[..|front|] == front;
  }

  lemma InOrderFront(front: seq<Coord>, c: Coord)
    requires InOrder(front + [c])
    ensures InOrder(front)
  {
    hide Before;
    forall i, j | 0 <= i < j < |front| ensures |front[i]| == |front[j]| && Before(front[i], front[j]) {
      assert (front + [c])[i] == front[i] && (front + [c])[j] == front[j];
    }
  }

  lemma InOrderSnoc(front: seq<Coord>, kept: seq<Coord>, c: Coord)
    requires InOrder(front + [c]) && InOrder(kept) && forall x :: x in kept ==> x in front
    ensures InOrder(kept + [c])
  {
    hide Before;
    forall i | 0 <= i < |kept| ensures |kept[i]| == |c| && Before(kept[i], c) {
      assert kept[i] in front;
      var j :| 0 <= j < |front| && front[j] == kept[i];
      assert (front + [c])[j] == kept[i] && (front + [c])[|front|] == c;
    }
  }

  /** Complete candidates have the same nonzero elements as the whole selection. */
  lemma CompleteNonzeros<T>(value: Coord -> T, zero: T, slice: Slice, coords: seq<Coord>)
    requires slice.Valid() && StrictAxes(slice) && Complete(value, zero, slice, coords)
    ensures Nonzeros(value, zero, coords) == Nonzeros(value, zero, slice.Coords())
  {
    hide InOrder, Slice.Coords;
    SliceInOrder(slice);
    NonzeroCoordsOf(value, zero, coords);
    NonzeroCoordsOf(value, zero, slice.Coords());
    InOrderUnique(NonzeroCoords(value, zero, coords), NonzeroCoords(value, zero, slice.Coords()));
  }

  /** `sparse_elements`: walk the request beside its values, expanding only nonzero coordinates. */
  method SparseElements<T(==)>(value: Coord -> T, zero: T, request: BatchRequest, values: seq<T>, shape: seq<nat>)
    returns (r: Result<seq<(Coord, T)>>)
    requires request.Valid(shape) && (|values| == request.len ==> values == ValuesAt(value, request.Coords(shape)))
    ensures r.Ok? <==> |values| == request.len
    ensures r.Ok? ==> r.value == Nonzeros(value, zero, request.Coords(shape))
  {
    hide BatchRequest.Valid, BatchRequest.Coords, Tracks;
    if |values| != request.len {
      return Err(InvalidLayout);
    }
    ghost var coords := request.Coords(shape);
    var out: seq<(Coord, T)> := [];
    var cursor := new Cursor(request, shape);
    for i := 0 to |values|
      invariant cursor.Valid() && cursor.request == request && cursor.shape == shape && cursor.position == i
      invariant out == Nonzeros(value, zero, coords[..i])
    {
      var more, c := cursor.NextInto();
      assert coords[..i + 1][..i] == coords[..i];
      if values[i] != zero {
        out := out + [(c, values[i])];
      }
    }
    assert coords[..|coords|] == coords;
    return Ok(out);
  }

  /** Every request of a list can be evaluated. */
  predicate Served<T>(e: Expr<T>, requests: seq<BatchRequest>) {
    forall i :: 0 <= i < |requests| ==> Answerable(e, requests[i])
  }

  predicate Answerable<T>(e: Expr<T>, request: BatchRequest) {
    EvaluationFits(e) && Readable(e, request)
  }

  lemma ServedFits<T>(e: Expr<T>, requests: seq<BatchRequest>)
    requires Served(e, requests)
    ensures requests == [] || EvaluationFits(e)
  {
    if requests != [] {
      assert Answerable(e, requests[0]);
    }
  }

  /** The requests up to and including one are served when it and those before it are. */
  lemma ServedNext<T>(e: Expr<T>, requests: seq<BatchRequest>, i: nat)
    requires i < |requests|
    ensures Served(e, requests[..i + 1]) <==> Served(e, requests[..i]) && Answerable(e, requests[i])
    ensures Served(e, requests) ==> Served(e, requests[..i + 1])
  {
    hide Answerable;
    var front := requests[..i + 1];
    if Served(e, front) {
      assert Answerable(e, front[i]);
      assert forall k :: 0 <= k < i ==> requests[..i][k] == front[k];
    }
  }

  lemma NoneServed<T>(e: Expr<T>)
    ensures Served(e, [])
  {}

  /** Requests that keep the steps of a suitable selection are served within the frame bound. */
  lemma SuitsServed<T>(e: Expr<T>, requests: seq<BatchRequest>, axes: seq<Axis>)
    requires AllKeep(requests, axes) && Suits(e, axes)
    ensures Served(e, requests) <==> requests == [] || EvaluationFits(e)
  {
    hide RequestKeeps, Suits, Readable, EvaluationFits;
    forall i | 0 <= i < |requests| ensures EvaluationFits(e) ==> Answerable(e, requests[i]) {
      SuitsReadable(e, requests[i], axes);
    }
    if Served(e, requests) {
      ServedFits(e, requests);
    }
  }

  /** The elements of sorted candidate requests, filtered to nonzeros. */
  method ReadRequests<T(!new, ==)>(e: Expr<T>, list: seq<BatchRequest>) returns (r: Result<seq<(Coord, T)>>)
    requires WellFormed(e) && BatchesValid(list, Shape(e))
    ensures r.Ok? <==> Served(e, list)
    ensures r.Ok? ==> r.value == Nonzeros(Valuation(e), Zero(e), AllCoords(list, Shape(e)))
  {
    hide WellFormed, AllCoords, Valuation, BatchRequest.Valid, BatchRequest.Coords, Shape, EvaluationFits, Readable,
         Served;
    var value := Valuation(e);
    ghost var shape := Shape(e);
    var out: seq<(Coord, T)> := [];
    NoBatches(shape);
    NoneServed(e);
    assert list[..0] == [];
    for i := 0 to |list|
      invariant BatchesValid(list[..i], shape) && Served(e, list[..i])
      invariant out == Nonzeros(value, Zero(e), AllCoords(list[..i], shape))
    {
      BatchPrefix(list, shape, i);
      ServedNext(e, list, i);
      NonzerosConcat(value, Zero(e), AllCoords(list[..i], shape), list[i].Coords(shape));
      var values := EvaluateRequest(e, list[i]);
      if values.Err? {
        return Err(values.error);
      }
      var elements := SparseElements(value, Zero(e), list[i], values.value, Shape(e));
      out := out + elements.value;
    }
    assert list[..|list|] == list;
    return Ok(out);
  }

  /** `sparse_stream`: the elements read are the row-major evaluation of the selection, filtered to
      nonzeros. It fails exactly beyond the traversal bound or at a request that cannot be evaluated;
      where no step of the selection overflows, those are the requests of a tree that nests too deep. */
  method ReadSparse<T(!new, ==)>(e: Expr<T>, slice: Slice)
    returns (r: Result<seq<(Coord, T)>>, ghost requests: seq<BatchRequest>)
    requires WellFormed(e) && slice.Valid() && slice.shape == Shape(e) && StrictAxes(slice)
    ensures BatchesValid(requests, slice.shape) && AllKeep(requests, slice.axes)
    ensures Visits(e) <= MAX_EXPRESSION_NODES ==> Complete(Valuation(e), Zero(e), slice, AllCoords(requests, slice.shape))
    ensures r.Ok? <==> Visits(e) <= MAX_EXPRESSION_NODES && Served(e, requests)
    ensures Suits(e, slice.axes) ==>
              (r.Ok? <==> Visits(e) <= MAX_EXPRESSION_NODES && (requests == [] || EvaluationFits(e)))
    ensures r.Ok? ==> r.value == Nonzeros(Valuation(e), Zero(e), slice.Coords())
  {
    hide InOrder, Slice.Coords, WellFormed, Complete, AllCoords, Visits, Valuation, BatchRequest.Valid,
         Shape, EvaluationFits, Served, Suits, Sparse, KeepsSteps, StrictAxes;
    var ordered := Ordered(e, slice);
    if ordered.Err? {
      return Err(ordered.error), [];
    }
    requests := ordered.value;
    if Suits(e, slice.axes) {
      SuitsServed(e, requests, slice.axes);
    }
    r := ReadRequests(e, ordered.value);
    CompleteNonzeros(Valuation(e), Zero(e), slice, AllCoords(requests, slice.shape));
  }

  /** A batch visits something. */
  lemma BatchVisited(requests: seq<BatchRequest>, shape: seq<nat>, i: nat)
    requires BatchesValid(requests, shape) && i < |requests|
    ensures AllCoords(requests, shape) != []
  {
    hide BatchRequest.Coords;
    assert requests[|requests| - 1].len > 0;
  }

  /** The coordinates of a list of elements. */
  function Coordinates<T>(elements: seq<(Coord, T)>): (s: seq<Coord>)
    ensures |s| == |elements| && forall i :: 0 <= i < |s| ==> s[i] == elements[i].0
  {
    seq(|elements|, i requires 0 <= i < |elements| => elements[i].0)
  }

  lemma {:induction false} NonzerosAre<T>(value: Coord -> T, zero: T, coords: seq<Coord>)
    ensures Coordinates(Nonzeros(value, zero, coords)) == NonzeroCoords(value, zero, coords)
    ensures forall c, v :: (c, v) in Nonzeros(value, zero, coords) <==> c in coords && v == value(c) && v != zero
    decreases |coords|
  {
    if coords != [] {
      var n := |coords| - 1;
      NonzerosAre(value, zero, coords[..n]);
      assert coords == coords[..n] + [coords[n]];
    }
  }

  /** `ordered_sparse`: over any range a caller may write, the elements read are sorted and are exactly
      the nonzero values at the selected coordinates, each once. Besides ranges it does not accept, it
      fails exactly beyond the traversal bound or at a request that cannot be evaluated. */
  method ReadRange<T(!new, ==)>(e: Expr<T>, range: seq<AxisRange>, order: seq<nat>)
    returns (r: Result<seq<(Coord, T)>>, ghost requests: seq<BatchRequest>)
    requires WellFormed(e) && MachineRange(range)
    ensures BatchesValid(requests, Shape(e)) && AllKeep(requests, AxesOfRange(SparseRange(range)))
    ensures r.Ok? <==>
              && SparseAccepts(Shape(e), Sparse(e), range, order)
              && Visits(e) <= MAX_EXPRESSION_NODES && Served(e, requests)
    ensures Visits(e) <= MAX_EXPRESSION_NODES && EvaluationFits(e) && Suits(e, AxesOfRange(SparseRange(range))) ==>
              (r.Ok? <==> SparseAccepts(Shape(e), Sparse(e), range, order))
    ensures r.Ok? && !EvaluationFits(e) ==> r.value == []
    ensures r.Ok? ==> InOrder(Coordinates(r.value))
    ensures r.Ok? ==> forall c, v :: (c, v) in r.value <==>
              && v == Value(e, c) && v != Zero(e) && |c| == |range|
              && forall i :: 0 <= i < |c| ==>
                   match range[i]
                   case At(index) => c[i] == index
                   case In(start, stop, step) => step > 0 && start <= c[i] < stop && (c[i] - start) % step == 0
                   case Of(indices) => c[i] in indices
  {
    hide InOrder, Slice.Coords, WellFormed, Sparse, Visits, SparseAccepts, Nonzeros, Coordinates,
         NonzeroCoords, Value, Suits, EvaluationFits, Readable, BatchRequest.Valid, RequestKeeps, AllCoords;
    requests := [];
    var slice := SparseSlice(Shape(e), Sparse(e), range, order);
    if slice.Err? {
      return Err(slice.error), requests;
    }
    r, requests := ReadSparse(e, slice.value);
    if r.Ok? {
      var value := Valuation(e);
      var coords := slice.value.Coords();
      SliceInOrder(slice.value);
      NonzerosAre(value, Zero(e), coords);
      NonzeroCoordsOf(value, Zero(e), coords);
      forall c, v ensures (c, v) in r.value <==> c in coords && v == Value(e, c) && v != Zero(e) {
        assert value(c) == Value(e, c);
      }
      if !EvaluationFits(e) {
        ServedFits(e, requests);
        NoBatches(slice.value.shape);
        NothingVisited(value, Zero(e), slice.value);
      }
    }
  }

  /** If nothing had to be visited, nothing is nonzero. */
  lemma NothingVisited<T>(value: Coord -> T, zero: T, slice: Slice)
    requires slice.Valid() && StrictAxes(slice) && Complete(value, zero, slice, [])
    ensures Nonzeros(value, zero, slice.Coords()) == []
  {
    hide InOrder, Slice.Coords, Complete;
    CompleteNonzeros(value, zero, slice, []);
  }

  // ---------------------------------------------------------------------
  // An accepted range that cannot be read
  // ---------------------------------------------------------------------

  const WIDTH: nat := 0x8000_0000_0000_0001

  /** One row of 2^63 + 1 elements, in blocks of one. */
  function WideRow(): Storage {
    Storage([1, WIDTH], [WIDTH, 1], [1, 1], [1, 1], [1, WIDTH], [WIDTH, 1])
  }

  /** Its first element, the row written with the largest step. */
  function FirstCorner(): seq<AxisRange> {
    [In(0, 1, U64_MAX), In(0, 1, 1)]
  }

  /** The only request of the selection. */
  function CornerRequest(): BatchRequest {
    BatchRequest(Rectangles([Cartesian(AxesOfRange(SparseRange(FirstCorner())))]), 1)
  }

  lemma WideRowValid()
    ensures WideRow().Valid()
  {
    hide Size, Strides, CeilDiv;
    var g := WideRow();
    TwoAxes(1, WIDTH);
    TwoAxes(1, 1);
    OneWide(1);
    OneWide(WIDTH);
    var grid := GridShape(g.shape, g.block);
    assert grid[0] == CeilDiv(1, 1) && grid[1] == CeilDiv(WIDTH, 1);
    assert grid == g.grid;
  }

  /** Blocks of one need as many as there are elements. */
  lemma OneWide(n: nat)
    ensures CeilDiv(n, 1) == n
  {}

  lemma TwoAxes(a: nat, b: nat)
    ensures Size([a, b]) == a * b && Strides([a, b]) == [b, 1]
  {
    OneAxis(b);
    assert [a, b][1..] == [b];
    assert Strides([a, b]) == [Size([b])] + Strides([b]);
  }

  /** The range is accepted and the tree evaluates, but the unused step of the row is still scaled by its
      stride, and the product leaves `i128`: whatever the tensor holds, the read fails. */
  lemma ReadCanFail<T>(table: map<nat, seq<T>>, zero: T)
    requires TableValid(table, WideRow(), zero)
    ensures var e := Stored(WideRow(), table, None, zero);
            && WellFormed(e) && EvaluationFits(e) && Visits(e) <= MAX_EXPRESSION_NODES
            && MachineRange(FirstCorner()) && SparseAccepts(Shape(e), Sparse(e), FirstCorner(), RowOrder(2))
            && CornerRequest().Valid(Shape(e)) && !Readable(e, CornerRequest())
  {
    hide SparseAccepts, CornerRequest, MachineRange, StepsFit, BatchRequest.Valid, RowValid, CoordinateMap.InRange,
         Size, Strides, CoordinateMap.Bounded, FirstCorner;
    var g := WideRow();
    TwoAxes(1, WIDTH);
    IdentityGood(g.shape);
    CornerAccepted();
    CornerFails();
  }

  lemma CornerAccepted()
    ensures MachineRange(FirstCorner()) && SparseAccepts(WideRow().shape, true, FirstCorner(), RowOrder(2))
  {
    CornerAxes();
    TwoAxes(1, 1);
  }

  /** The only request of the selection is valid and scales the step of its first axis. */
  lemma CornerFails()
    ensures CornerRequest().Valid(WideRow().shape) && !Plannable(WideRow(), None, CornerRequest())
  {
    hide Size, RectCoords;
    WideRowValid();
    CornerAxes();
    CornerUnreadable();
    assert CornerRequest().kind.rects[0] == Cartesian(CornerSpans());
  }

  function CornerSpans(): seq<Axis> {
    [Span(0, U64_MAX, 1), Span(0, 1, 1)]
  }

  lemma CornerAxes()
    ensures SparseRange(FirstCorner()) == FirstCorner() && RangeLens(FirstCorner()) == [1, 1]
    ensures AxesOfRange(FirstCorner()) == CornerSpans()
  {
    assert BoundLen(In(0, 1, U64_MAX)) == 1 && BoundLen(In(0, 1, 1)) == 1;
  }

  lemma CornerUnreadable()
    ensures RectCoords([Cartesian(CornerSpans())]) == Cartesian(CornerSpans()).Coords()
    ensures Cartesian(CornerSpans()).Len() == 1
    ensures !StepFits(Cartesian(CornerSpans()), WideRow().strides)
  {
    var rect := Cartesian(CornerSpans());
    assert Lens(rect.axes) == [1, 1];
    TwoAxes(1, 1);
    assert RectCoords([rect]) == RectCoords([]) + rect.Coords();
    assert !SpanFits(rect.axes[0], WideRow().strides[0]);
  }

  // ---------------------------------------------------------------------
  // Candidates for reductions
  // ---------------------------------------------------------------------

  /** The selected coordinates a complete candidate list skips. */
  ghost function Unvisited(coords: seq<Coord>, visited: seq<Coord>): seq<Coord> {
    if coords == [] then []
    else
      var c := coords[|coords| - 1];
      Unvisited(coords[..|coords| - 1], visited) + if c in visited then [] else [c]
  }

  ghost function Visited(coords: seq<Coord>, visited: seq<Coord>): seq<Coord> {
    if coords == [] then []
    else
      var c := coords[|coords| - 1];
      Visited(coords[..|coords| - 1], visited) + if c in visited then [c] else []
  }

  lemma {:induction false} VisitedSplit(coords: seq<Coord>, visited: seq<Coord>)
    ensures multiset(Visited(coords, visited)) + multiset(Unvisited(coords, visited)) == multiset(coords)
    decreases |coords|
  {
    if coords != [] {
      var n := |coords| - 1;
      VisitedSplit(coords[..n], visited);
      var a, b := Visited(coords[..n], visited), Unvisited(coords[..n], visited);
      Appended(coords[..n], coords[n]);
      assert coords == coords[..n] + [coords[n]];
      Regrouped(multiset(a), multiset(b), multiset(coords[..n]), coords[n]);
      if coords[n] in visited {
        Appended(a, coords[n]);
        assert Unvisited(coords, visited) == b;
      } else {
        Appended(b, coords[n]);
        assert Visited(coords, visited) == a;
      }
    }
  }

  lemma {:induction false} VisitedMembers(coords: seq<Coord>, visited: seq<Coord>)
    ensures forall x :: x in Visited(coords, visited) <==> x in coords && x in visited
    ensures forall x :: x in Unvisited(coords, visited) <==> x in coords && x !in visited
    ensures InOrder(coords) ==> InOrder(Visited(coords, visited))
    decreases |coords|
  {
    hide Before;
    if coords != [] {
      var n := |coords| - 1;
      VisitedMembers(coords[..n], visited);
      assert coords == coords[..n] + [coords[n]];
      if coords[n] in visited && InOrder(coords) {
        InOrderSnoc(coords[..n], Visited(coords[..n], visited), coords[n]);
      }
    }
  }

  /** Complete candidates are reduction candidates: what they skip is zero. */
  lemma CompleteCandidates<T>(value: Coord -> T, zero: T, slice: Slice, visited: seq<Coord>)
    requires slice.Valid() && StrictAxes(slice) && Complete(value, zero, slice, visited)
    ensures Candidates(value, slice.Coords(), visited, Unvisited(slice.Coords(), visited), zero)
  {
    hide InOrder, Slice.Coords;
    var coords := slice.Coords();
    SliceInOrder(slice);
    VisitedSplit(coords, visited);
    VisitedMembers(coords, visited);
    InOrderUnique(Visited(coords, visited), visited);
    var skipped := Unvisited(coords, visited);
    forall i | 0 <= i < |skipped| ensures value(skipped[i]) == zero {
      assert skipped[i] in skipped;
    }
  }

  // ---------------------------------------------------------------------
  // Selection
  // ---------------------------------------------------------------------

  /** Whether the selection of an expression is the selection of its source. */
  function Delegate<T>(e: Expr<T>): Option<Expr<T>> {
    match e
    case Unary(_, source, _) => Some(source)
    case Owned(source, _, through) => if Sparse(e) && IsIdentity(through, Shape(source)) then Some(source) else None
    case _ => None
  }

  /** The expression whose own requests a selection uses. */
  function SelectionEnd<T>(e: Expr<T>): Expr<T> {
    match e
    case Unary(_, source, _) => SelectionEnd(source)
    case Owned(source, _, through) => if Sparse(e) && IsIdentity(through, Shape(source)) then SelectionEnd(source) else e
    case _ => e
  }

  /** How many expressions a selection passes through. */
  function Chain<T>(e: Expr<T>): (n: nat)
    ensures n > 0
  {
    match e
    case Unary(_, source, _) => 1 + Chain(source)
    case Owned(source, _, through) => if Sparse(e) && IsIdentity(through, Shape(source)) then 1 + Chain(source) else 1
    case _ => 1
  }

  /** A selection that ends in an operation over several operands merges their ordered requests. */
  predicate Merges<T>(e: Expr<T>) {
    e.Binary? || e.Where?
  }

  /** The traversals of a selection stay within the bound. */
  predicate SelectionFits<T>(e: Expr<T>) {
    && Chain(e) <= MAX_EXPRESSION_NODES
    && (Merges(SelectionEnd(e)) ==> Visits(SelectionEnd(e)) <= MAX_EXPRESSION_NODES)
  }

  /** A traversal visits no more descriptions than a tree holds. */
  lemma {:induction false} VisitsCounted<T>(e: Expr<T>)
    requires NodeCount(e).Ok?
    ensures Visits(e) <= NodeCount(e).value
    decreases e
  {
    match e
    case Unary(_, source, _) => VisitsCounted(source);
    case Binary(_, left, right, _) =>
      VisitsCounted(left);
      VisitsCounted(right);
    case Where(condition, chosen, otherwise) =>
      VisitsCounted(condition);
      VisitsCounted(chosen);
      VisitsCounted(otherwise);
    case Owned(source, _, _) => VisitsCounted(source);
    case Leaf(_, _, _, _) =>
    case Stored(_, _, _, _) =>
  }

  /** No traversal of a counted tree reaches the bound; owned expressions are always counted. */
  lemma {:induction false} CountedFits<T>(e: Expr<T>)
    requires NodeCount(e).Ok?
    ensures Visits(e) <= MAX_EXPRESSION_NODES && SelectionFits(e) && Chain(e) <= NodeCount(e).value
    decreases e
  {
    hide Visits;
    VisitsCounted(e);
    if Delegate(e).Some? {
      CountedFits(Delegate(e).value);
    }
  }

  /** Requests for a selection: what they skip is zero, and a dense expression skips nothing. */
  ghost predicate Selection<T>(e: Expr<T>, slice: Slice, visited: seq<Coord>, skipped: seq<Coord>) {
    && Candidates(Valuation(e), slice.Coords(), visited, skipped, Zero(e))
    && (!Sparse(e) ==> skipped == [])
  }

  /** What a delegate's selection skips is also zero after the operation above it. */
  lemma DelegateSelection<T>(e: Expr<T>, slice: Slice, visited: seq<Coord>, skipped: seq<Coord>)
    requires WellFormed(e) && slice.Valid() && slice.shape == Shape(e) && Delegate(e).Some?
    requires Selection(Delegate(e).value, slice, visited, skipped)
    ensures Selection(e, slice, visited, skipped)
  {
    hide Slice.Coords;
    var source := Delegate(e).value;
    forall i | 0 <= i < |skipped| ensures Valuation(e)(skipped[i]) == Zero(e) {
      assert Valuation(source)(skipped[i]) == Value(source, skipped[i]);
      assert skipped[i] in multiset(skipped);
      assert skipped[i] in multiset(slice.Coords());
      SelectedInShape(slice, skipped[i]);
      if e.Owned? {
        IdentityThrough(e.through, Shape(source), skipped[i]);
      }
      assert Valuation(e)(skipped[i]) == Value(e, skipped[i]);
    }
  }

  /** The requests of the expression a selection ends in serve the whole chain above it. */
  lemma {:induction false} ChainSelection<T>(e: Expr<T>, slice: Slice, visited: seq<Coord>, skipped: seq<Coord>)
    requires WellFormed(e) && slice.Valid() && slice.shape == Shape(e)
    requires Selection(SelectionEnd(e), slice, visited, skipped)
    ensures Selection(e, slice, visited, skipped)
    decreases e
  {
    hide Selection, Slice.Coords;
    if Delegate(e).Some? {
      ChainSelection(Delegate(e).value, slice, visited, skipped);
      DelegateSelection(e, slice, visited, skipped);
    }
  }

  /** One selection step where it does not delegate. */
  method OwnSelection<T(==)>(e: Expr<T>, slice: Slice)
    returns (r: Result<seq<BatchRequest>>, ghost skipped: seq<Coord>)
    requires WellFormed(e) && Delegate(e).None? && slice.Valid() && slice.shape == Shape(e)
    requires Merges(e) ==> StrictAxes(slice)
    ensures r.Ok? <==> Merges(e) ==> Visits(e) <= MAX_EXPRESSION_NODES
    ensures r.Ok? ==> BatchesValid(r.value, slice.shape) && AllKeep(r.value, slice.axes)
    ensures r.Ok? ==> Selection(e, slice, AllCoords(r.value, slice.shape), skipped)
  {
    hide AllCoords, BatchRequest.Valid, Slice.Coords, Complete, StrictAxes, ViewValue, ViewReads, StoreOf,
         TableValid, Size, Candidates, Visits, AllKeep;
    skipped := [];
    AllCandidates(Valuation(e), slice.Coords(), Zero(e));
    if Merges(e) {
      r := Ordered(e, slice);
      if r.Ok? && Sparse(e) {
        ghost var visited := AllCoords(r.value, slice.shape);
        CompleteCandidates(Valuation(e), Zero(e), slice, visited);
        skipped := Unvisited(slice.Coords(), visited);
      }
      return;
    }
    if e.Stored? {
      var store := new SparseStorage.Open(e.g, Zero(e), e.table);
      ghost var value := Valuation(e);
      TableReads(value, e.g, e.table, e.mapping, Zero(e));
      r, skipped := ViewBatches(store, e.mapping, slice, value);
      return;
    }
    var requests := SliceChunks.Requests(slice);
    r := Ok(requests);
  }

  /** What a selection keeps while it follows delegates. */
  ghost predicate Following<T>(e: Expr<T>, current: Expr<T>, visited: nat) {
    && WellFormed(current) && Shape(current) == Shape(e)
    && SelectionEnd(current) == SelectionEnd(e) && visited + Chain(current) == Chain(e)
  }

  lemma Follow<T>(e: Expr<T>, current: Expr<T>, visited: nat)
    requires Following(e, current, visited)
    ensures Delegate(current).Some? ==> Following(e, Delegate(current).value, visited + 1)
    ensures Delegate(current).None? ==> current == SelectionEnd(e) && visited + 1 == Chain(e)
  {}

  /** `selection`: follow delegates to the expression whose requests are used. What its requests skip
      is zero throughout the chain. */
  method Select<T(==)>(e: Expr<T>, slice: Slice)
    returns (r: Result<seq<BatchRequest>>, ghost skipped: seq<Coord>)
    requires WellFormed(e) && slice.Valid() && slice.shape == Shape(e)
    requires Merges(SelectionEnd(e)) ==> StrictAxes(slice)
    ensures r.Ok? <==> SelectionFits(e)
    ensures r.Ok? ==> BatchesValid(r.value, slice.shape) && AllKeep(r.value, slice.axes)
    ensures r.Ok? ==> Selection(e, slice, AllCoords(r.value, slice.shape), skipped)
  {
    hide WellFormed, Chain, SelectionEnd, Visits, Selection, AllCoords, BatchRequest.Valid, Slice.Valid, Shape,
         StrictAxes, Following, AllKeep;
    skipped := [];
    var current := e;
    var visited := 0;
    FollowStart(e);
    while true
      invariant Following(e, current, visited) && visited <= MAX_EXPRESSION_NODES
      invariant visited < Chain(e)
      decreases Chain(e) - visited
    {
      Follow(e, current, visited);
      FollowShape(e, current, visited);
      match Delegate(current) {
        case None =>
          var own, unvisited := OwnSelection(current, slice);
          if own.Err? || visited == MAX_EXPRESSION_NODES {
            return Err(Unsupported), [];
          }
          ChainSelection(e, slice, AllCoords(own.value, slice.shape), unvisited);
          return own, unvisited;
        case Some(source) =>
          if visited == MAX_EXPRESSION_NODES {
            return Err(Unsupported), [];
          }
          FollowShape(e, source, visited + 1);
          current := source;
      }
      visited := visited + 1;
    }
  }

  lemma FollowStart<T>(e: Expr<T>)
    requires WellFormed(e)
    ensures Following(e, e, 0) && 0 < Chain(e)
  {}

  lemma FollowShape<T>(e: Expr<T>, current: Expr<T>, visited: nat)
    requires Following(e, current, visited)
    ensures WellFormed(current) && Shape(current) == Shape(e) && visited < Chain(e)
  {
    hide WellFormed, Shape;
  }

  lemma ReducedIs<T, S>(op: Op<T, S>, value: Coord -> T, coords: seq<Coord>)
    ensures Reduced(op, ValuesAt(value, coords)) == if coords == [] then None else Some(op.partial(ValuesAt(value, coords)))
  {}

  lemma ValuesJoin<T>(value: Coord -> T, a: seq<Coord>, b: seq<Coord>)
    ensures ValuesAt(value, a + b) == ValuesAt(value, a) + ValuesAt(value, b)
  {}

  /** Reduce a selection through candidate requests and implicit zeros: the same summary as reducing
      every selected value in row-major order. */
  method ReduceSelection<T(!new, ==), S(!new)>(op: Op<T, S>, e: Expr<T>, requests: seq<BatchRequest>,
                                               total: nat, ghost coords: seq<Coord>, ghost skipped: seq<Coord>)
    returns (r: Result<Option<S>>)
    requires Lawful(op) && WellFormed(e) && BatchesValid(requests, Shape(e)) && total == |coords|
    requires Candidates(Valuation(e), coords, AllCoords(requests, Shape(e)), skipped, Zero(e))
    ensures r.Ok? <==> Served(e, requests)
    ensures r.Ok? ==> r.value == if coords == [] then None else Some(op.partial(ValuesAt(Valuation(e), coords)))
  {
    hide Lawful, WellFormed, Shape, Valuation, EvaluationFits, Readable, BatchRequest.Valid, BatchRequest.Coords,
         Candidates, AllCoords, Reduced, Served, ValuesAt;
    ghost var value, shape := Valuation(e), Shape(e);
    ghost var all := AllCoords(requests, shape);
    CandidateValues(value, coords, all, skipped, Zero(e));
    var state: Option<S>, remaining := None, total;
    assert AllCoords(requests[..0], shape) == [] by { NoBatches(shape); }
    ReducedNone(op);
    NoneServed(e);
    for i := 0 to |requests|
      invariant BatchesValid(requests[..i], shape) && Served(e, requests[..i])
      invariant |AllCoords(requests[..i], shape)| + remaining == total
      invariant state == Reduced(op, ValuesAt(value, AllCoords(requests[..i], shape)))
    {
      BatchPrefix(requests, shape, i);
      ServedNext(e, requests, i);
      var values := EvaluateRequest(e, requests[i]);
      if values.Err? {
        return Err(values.error);
      }
      ghost var front := AllCoords(requests[..i], shape);
      var next := Accumulate(op, state, remaining, values.value, ValuesAt(value, front));
      ValuesJoin(value, front, requests[i].Coords(shape));
      if next.Err? {
        return Err(InvalidLayout);
      }
      state, remaining := next.value.0, next.value.1;
    }
    assert requests[..|requests|] == requests;
    state := AccumulateZeros(op, state, remaining, Zero(e), ValuesAt(value, all));
    ReducePermutation(op, ValuesAt(value, all) + Repeat(Zero(e), remaining), ValuesAt(value, coords));
    ReducedIs(op, value, coords);
    return Ok(state);
  }

  /** Reducing any expression over a selection through its requests and implicit zeros gives the
      reduction of every selected value. It fails exactly beyond the traversal bounds or at a request that
      cannot be evaluated. */
  method ReduceExpression<T(!new, ==), S(!new)>(op: Op<T, S>, e: Expr<T>, slice: Slice)
    returns (r: Result<Option<S>>, ghost requests: seq<BatchRequest>, ghost skipped: seq<Coord>)
    requires Lawful(op) && WellFormed(e)
    requires slice.Valid() && slice.shape == Shape(e) && (Merges(SelectionEnd(e)) ==> StrictAxes(slice))
    ensures BatchesValid(requests, slice.shape) && AllKeep(requests, slice.axes)
    ensures SelectionFits(e) ==> Selection(e, slice, AllCoords(requests, slice.shape), skipped)
    ensures r.Ok? <==> SelectionFits(e) && Served(e, requests)
    ensures Suits(e, slice.axes) ==> (r.Ok? <==> SelectionFits(e) && (requests == [] || EvaluationFits(e)))
    ensures r.Ok? ==>
              r.value == if slice.len == 0 then None else Some(op.partial(ValuesAt(Valuation(e), slice.Coords())))
  {
    hide Lawful, Slice.Coords, WellFormed, AllCoords, SelectionFits, EvaluationFits, Served, Suits, Valuation,
         BatchRequest.Valid, Candidates, Merges, SelectionEnd, Shape, Sparse, KeepsSteps;
    requests := [];
    var selected;
    selected, skipped := Select(e, slice);
    if selected.Err? {
      return Err(selected.error), requests, skipped;
    }
    LengthIs(slice);
    requests := selected.value;
    if Suits(e, slice.axes) {
      SuitsServed(e, requests, slice.axes);
    }
    r := ReduceSelection(op, e, selected.value, slice.len, slice.Coords(), skipped);
  }

  /** `terminal`: the finished reduction of every value of any expression, in row-major order. It fails
      exactly when the expression is too large to traverse, too deep to evaluate what has to be visited,
      or when finishing fails: a whole shape has unit steps, so none overflows. */
  method ReduceAll<T(!new, ==), S(!new), R>(op: Op<T, S>, last: Finisher<S, R>, e: Expr<T>)
    returns (r: Result<R>, ghost slice: Slice, ghost visited: seq<Coord>, ghost skipped: seq<Coord>)
    requires Lawful(op) && WellFormed(e)
    ensures slice.Valid() && slice.shape == Shape(e) && slice.axes == FullAxes(Shape(e))
    ensures SelectionFits(e) ==> Selection(e, slice, visited, skipped)
    ensures AllValuesOf(Valuation(e), Shape(e)) != []
    ensures if SelectionFits(e) && (EvaluationFits(e) || visited == [])
            then r == last.finish(op.partial(AllValuesOf(Valuation(e), Shape(e))))
            else r.Err?
  {
    hide Lawful, Slice.Coords, SelectionFits, EvaluationFits, Suits, Valuation, Reduced, Merges, SelectionEnd,
         Size, Shape, Sparse, Selection, AllCoords, BatchRequest.Valid, RequestKeeps, Served;
    var shape := Shape(e);
    SizePositive(shape);
    FullCoords(shape, 0);
    var built := NewSlice(shape, FullAxes(shape));
    slice := built.value;
    FullStrict(built.value);
    FullValues(Valuation(e), shape, built.value);
    UnitSuits(e, slice.axes);
    var state;
    ghost var requests;
    state, requests, skipped := ReduceExpression(op, e, built.value);
    visited := AllCoords(requests, slice.shape);
    SomethingVisited(requests, slice.shape);
    r := if state.Ok? then last.Terminal(state.value) else Err(state.error);
  }

  /** Batches are nonempty, so only an empty list visits nothing. */
  lemma SomethingVisited(requests: seq<BatchRequest>, shape: seq<nat>)
    requires BatchesValid(requests, shape)
    ensures AllCoords(requests, shape) == [] <==> requests == []
  {
    if requests == [] {
      NoBatches(shape);
    } else {
      BatchVisited(requests, shape, 0);
    }
  }

  /** `terminal` over a sparse tensor or a view of one reached by any transforms: the reduction of every
      logical value, although blocks that are not stored are never visited. It fails only if finishing
      does. */
  method TerminalView<T(!new, ==), S(!new), R>(op: Op<T, S>, last: Finisher<S, R>, store: SparseStorage<T>,
                                               mapping: Option<CoordinateMap>)
    returns (r: Result<R>)
    requires Lawful(op) && store.Valid() && ViewOf(store.g, ViewMap(store.g, mapping))
    requires Positive(ViewShape(store.g, mapping)) && Size(ViewShape(store.g, mapping)) <= U64_MAX
    ensures forall value: Coord -> T :: ViewReads(value, store.Contents(), store.g, ViewMap(store.g, mapping)) ==>
              var all := AllValuesOf(value, ViewShape(store.g, mapping));
              all != [] && r == last.finish(op.partial(all))
  {
    hide Lawful, Reduced, Size, Valuation, Selection, ViewReads, StoreOf, RowValid, CoordinateMap.InRange,
         CoordinateMap.Bounded;
    var e := Stored(store.g, store.table, mapping, store.zero);
    ghost var slice, visited, skipped;
    r, slice, visited, skipped := ReduceAll(op, last, e);
    forall value: Coord -> T | ViewReads(value, store.Contents(), store.g, ViewMap(store.g, mapping))
      ensures AllValuesOf(value, ViewShape(store.g, mapping)) == AllValuesOf(Valuation(e), Shape(e))
    {
      SameReads(value, e);
    }
  }

  /** A view has one value at each coordinate. */
  lemma SameReads<T>(value: Coord -> T, e: Expr<T>)
    requires e.Stored? && WellFormed(e)
    requires ViewReads(value, StoreOf(e.table, e.g, Zero(e)), e.g, ViewMap(e.g, e.mapping))
    ensures AllValuesOf(value, Shape(e)) == AllValuesOf(Valuation(e), Shape(e))
  {
    hide Size, Decode, StoreOf, TableValid, ViewPosition, ViewValue;
    var m := ViewMap(e.g, e.mapping);
    TableReads(Valuation(e), e.g, e.table, e.mapping, Zero(e));
    forall i: nat | i < Size(Shape(e)) ensures value(Decode(i, Shape(e))) == Valuation(e)(Decode(i, Shape(e))) {
      DecodeInShape(i, Shape(e));
      var c := Decode(i, Shape(e));
      assert InShape(c, m.shape);
    }
  }

  lemma FullStrict(slice: Slice)
    requires slice.axes == FullAxes(slice.shape)
    ensures StrictAxes(slice)
  {}

  lemma LengthIs(slice: Slice)
    requires slice.Valid()
    ensures |slice.Coords()| == slice.len
  {}
}
