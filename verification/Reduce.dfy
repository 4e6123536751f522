/** Reductions over logical values: batches, implicit zeros and the whole-tensor driver. */
module Reduce {
  import opened Radix
  import opened Wrappers
  import opened Request
  import opened Geometry
  import opened StorageSlices
  import opened Slices
  import opened SliceChunks
  import opened BlockData
  import opened SparseStore
  import opened KeyScans
  import opened Grouping
  import opened Occupied
  import opened OrderedTraversal

  // ---------------------------------------------------------------------
  // Reduction operators
  // ---------------------------------------------------------------------

  /** `partial` summarises a nonempty batch, `combine` joins two summaries. */
  datatype Op<!T, !S> = Op(partial: seq<T> -> S, combine: (S, S) -> S)

  /** What an operator makes of a summary, and of no values at all: of a whole expression or along axes. */
  datatype Finisher<!S, R> = Finisher(finish: S -> Result<R>, empty: Result<R>, vacant: Result<R>) {
    function Terminal(state: Option<S>): Result<R> {
      match state
      case Some(summary) => finish(summary)
      case None => empty
    }

    /** `finish_axis`. */
    function AlongAxis(state: Option<S>): Result<R> {
      match state
      case Some(summary) => finish(summary)
      case None => vacant
    }
  }

  /** Summaries of adjacent batches combine, and the order of batches does not matter. */
  ghost predicate Lawful<T(!new), S(!new)>(op: Op<T, S>) {
    && (forall xs: seq<T>, ys: seq<T> {:trigger op.partial(xs + ys)} :: xs != [] && ys != [] ==>
          op.partial(xs + ys) == op.combine(op.partial(xs), op.partial(ys)))
    && forall xs: seq<T>, ys: seq<T> {:trigger op.partial(xs + ys)} :: xs != [] && ys != [] ==>
         op.partial(xs + ys) == op.partial(ys + xs)
  }

  lemma Joins<T(!new), S(!new)>(op: Op<T, S>, xs: seq<T>, ys: seq<T>)
    requires Lawful(op) && xs != [] && ys != []
    ensures op.partial(xs + ys) == op.combine(op.partial(xs), op.partial(ys)) == op.partial(ys + xs)
  {}

  /** No summary for no values. */
  function Reduced<T, S>(op: Op<T, S>, xs: seq<T>): Option<S> {
    if xs == [] then None else Some(op.partial(xs))
  }

  /** Moving one value to the front. */
  lemma BringForward<T(!new), S(!new)>(op: Op<T, S>, a: seq<T>, x: T, b: seq<T>)
    requires Lawful(op)
    ensures op.partial(a + [x] + b) == op.partial([x] + (a + b))
  {
    if a == [] {
      assert a + [x] + b == [x] + (a + b);
    } else if b == [] {
      Joins(op, a, [x]);
      assert a + [x] + b == a + [x] && [x] + (a + b) == [x] + a;
    } else {
      Joins(op, a, [x]);
      Joins(op, a + [x], b);
      Joins(op, [x] + a, b);
      assert [x] + (a + b) == ([x] + a) + b;
    }
  }

  lemma SameLength<T>(xs: seq<T>, ys: seq<T>)
    requires multiset(xs) == multiset(ys)
    ensures |xs| == |ys|
  {
    assert |multiset(xs)| == |multiset(ys)|;
  }

  /** Where the first value of one list occurs in a permutation of it, and what remains. */
  lemma Matching<T>(xs: seq<T>, ys: seq<T>) returns (i: nat)
    requires xs != [] && multiset(xs) == multiset(ys)
    ensures i < |ys| && ys[i] == xs[0]
    ensures multiset(xs[1..]) == multiset(ys[..i] + ys[i + 1..])
  {
    assert xs[0] in multiset(xs);
    assert xs[0] in multiset(ys);
    i :| 0 <= i < |ys| && ys[i] == xs[0];
    Inserted([], xs[0], xs[1..]);
    Inserted(ys[..i], ys[i], ys[i + 1..]);
    assert xs == [] + [xs[0]] + xs[1..] && [] + xs[1..] == xs[1..];
    assert ys == ys[..i] + [ys[i]] + ys[i + 1..];
    assert multiset(xs[1..]) + multiset{xs[0]} == multiset(ys[..i] + ys[i + 1..]) + multiset{xs[0]};
    CancelOne(multiset(xs[1..]), multiset(ys[..i] + ys[i + 1..]), xs[0]);
  }

  lemma CancelOne<T>(a: multiset<T>, b: multiset<T>, x: T)
    requires a + multiset{x} == b + multiset{x}
    ensures a == b
  {
    assert a + multiset{x} - multiset{x} == a && b + multiset{x} - multiset{x} == b;
  }

  lemma Inserted<T>(a: seq<T>, x: T, b: seq<T>)
    ensures multiset(a + [x] + b) == multiset(a + b) + multiset{x}
  {}

  /** A lawful reduction only depends on which values occur how often. */
  lemma {:induction false} ReducePermutation<T(!new), S(!new)>(op: Op<T, S>, xs: seq<T>, ys: seq<T>)
    requires Lawful(op) && multiset(xs) == multiset(ys)
    ensures Reduced(op, xs) == Reduced(op, ys)
    decreases |xs|
  {
    hide Lawful;
    SameLength(xs, ys);
    if xs != [] {
      var x, rest := xs[0], xs[1..];
      assert xs == [x] + rest;
      var i := Matching(xs, ys);
      var a, b := ys[..i], ys[i + 1..];
      assert ys == a + [x] + b;
      BringForward(op, a, x, b);
      ReducePermutation(op, rest, a + b);
      if rest == [] {
        assert a + b == [];
      } else {
        Joins(op, [x], rest);
        Joins(op, [x], a + b);
      }
    }
  }

  // ---------------------------------------------------------------------
  // Folds of an associative and commutative combiner
  // ---------------------------------------------------------------------

  function Fold<T, S>(one: T -> S, combine: (S, S) -> S, xs: seq<T>): S
    requires xs != []
  {
    if |xs| == 1 then one(xs[0])
    else combine(Fold(one, combine, xs[..|xs| - 1]), one(xs[|xs| - 1]))
  }

  ghost predicate Associative<S(!new)>(combine: (S, S) -> S) {
    forall a, b, c :: combine(combine(a, b), c) == combine(a, combine(b, c))
  }

  ghost predicate Commutative<S(!new)>(combine: (S, S) -> S) {
    forall a, b :: combine(a, b) == combine(b, a)
  }

  lemma {:induction false} FoldConcat<T(!new), S(!new)>(one: T -> S, combine: (S, S) -> S, xs: seq<T>, ys: seq<T>)
    requires Associative(combine) && xs != [] && ys != []
    ensures Fold(one, combine, xs + ys) == combine(Fold(one, combine, xs), Fold(one, combine, ys))
    decreases |ys|
  {
    var n := |ys| - 1;
    assert (xs + ys)[..|xs + ys| - 1] == xs + ys[..n];
    if n == 0 {
      assert xs + ys[..n] == xs;
    } else {
      FoldConcat(one, combine, xs, ys[..n]);
    }
  }

  /** Any fold of an associative and commutative combiner is lawful. */
  lemma FoldLawful<T(!new), S(!new)>(one: T -> S, combine: (S, S) -> S, op: Op<T, S>)
    requires Associative(combine) && Commutative(combine) && op.combine == combine
    requires forall xs: seq<T> :: xs != [] ==> op.partial(xs) == Fold(one, combine, xs)
    ensures Lawful(op)
  {
    forall xs: seq<T>, ys: seq<T> | xs != [] && ys != []
      ensures op.partial(xs + ys) == op.combine(op.partial(xs), op.partial(ys))
      ensures op.partial(xs + ys) == op.partial(ys + xs)
    {
      FoldConcat(one, combine, xs, ys);
      FoldConcat(one, combine, ys, xs);
    }
  }

  // ---------------------------------------------------------------------
  // Accumulating
  // ---------------------------------------------------------------------

  function Repeat<T>(x: T, n: nat): (s: seq<T>)
    ensures |s| == n && forall i :: 0 <= i < n ==> s[i] == x
  {
    seq(n, _ => x)
  }

  /** Join a state with the summary of one more nonempty batch. */
  function Join<T, S>(op: Op<T, S>, state: Option<S>, partial: S): S {
    match state
    case Some(previous) => op.combine(previous, partial)
    case None => partial
  }

  lemma JoinReduced<T(!new), S(!new)>(op: Op<T, S>, seen: seq<T>, more: seq<T>)
    requires Lawful(op) && more != []
    ensures Some(Join(op, Reduced(op, seen), op.partial(more))) == Reduced(op, seen + more)
  {
    if seen == [] {
      assert seen + more == more;
    } else {
      Joins(op, seen, more);
    }
  }

  /** `accumulate`: one bounded batch joins the running summary; a batch larger than what
      remains is an error. */
  method Accumulate<T(!new), S(!new)>(op: Op<T, S>, state: Option<S>, remaining: nat, values: seq<T>,
                      ghost seen: seq<T>)
    returns (r: Result<(Option<S>, nat)>)
    requires Lawful(op) && state == Reduced(op, seen)
    ensures r.Ok? <==> |values| <= remaining
    ensures r.Ok? ==> r.value == (Reduced(op, seen + values), remaining - |values|)
  {
    if |values| > remaining {
      return Err(InvalidLayout);
    }
    if values == [] {
      assert seen + values == seen;
      return Ok((state, remaining));
    }
    JoinReduced(op, seen, values);
    return Ok((Some(Join(op, state, op.partial(values))), remaining - |values|));
  }

  /** `accumulate_zeros`: repeated doubling appends exactly `count` zeros. */
  method AccumulateZeros<T(!new), S(!new)>(op: Op<T, S>, state: Option<S>, count: nat, zero: T, ghost seen: seq<T>)
    returns (r: Option<S>)
    requires Lawful(op) && state == Reduced(op, seen)
    ensures r == Reduced(op, seen + Repeat(zero, count))
  {
    hide Lawful;
    r := state;
    if count == 0 {
      assert seen + Repeat(zero, 0) == seen;
      return;
    }
    var partial := op.partial([zero]);
    var left := count;
    ghost var width, done := 1, 0;
    assert Repeat(zero, 1) == [zero] && seen + Repeat(zero, 0) == seen;
    while true
      invariant left > 0 && width > 0 && done + left * width == count
      invariant partial == op.partial(Repeat(zero, width))
      invariant r == Reduced(op, seen + Repeat(zero, done))
      decreases left
    {
      if left % 2 != 0 {
        JoinReduced(op, seen + Repeat(zero, done), Repeat(zero, width));
        assert (seen + Repeat(zero, done)) + Repeat(zero, width) == seen + Repeat(zero, done + width);
        r := Some(Join(op, r, partial));
        done := done + width;
      }
      Halved(left, width);
      left := left / 2;
      if left == 0 {
        return;
      }
      Joins(op, Repeat(zero, width), Repeat(zero, width));
      assert Repeat(zero, width) + Repeat(zero, width) == Repeat(zero, 2 * width);
      partial := op.combine(partial, partial);
      width := 2 * width;
    }
  }

  lemma Halved(n: nat, w: nat)
    ensures n * w == (n / 2) * (2 * w) + if n % 2 != 0 then w else 0
  {
    assert n == n / 2 * 2 + n % 2;
    assert (n / 2 * 2 + n % 2) * w == n / 2 * (2 * w) + n % 2 * w;
  }

  // ---------------------------------------------------------------------
  // Whole selections
  // ---------------------------------------------------------------------

  /** The logical values at a list of coordinates. */
  function ValuesAt<T>(value: Coord -> T, coords: seq<Coord>): (v: seq<T>)
    ensures |v| == |coords|
    ensures forall i :: 0 <= i < |v| ==> v[i] == value(coords[i])
  {
    seq(|coords|, i requires 0 <= i < |coords| => value(coords[i]))
  }

  /** The requests visit part of the selection, and everything they skip is zero. */
  ghost predicate Candidates<T>(value: Coord -> T, coords: seq<Coord>, visited: seq<Coord>, skipped: seq<Coord>,
                                zero: T) {
    && multiset(visited) + multiset(skipped) == multiset(coords)
    && forall i :: 0 <= i < |skipped| ==> value(skipped[i]) == zero
  }

  lemma {:induction false} ValuesPermuted<T>(value: Coord -> T, xs: seq<Coord>, ys: seq<Coord>)
    requires multiset(xs) == multiset(ys)
    ensures multiset(ValuesAt(value, xs)) == multiset(ValuesAt(value, ys))
    decreases |xs|
  {
    hide ValuesAt;
    SameLength(xs, ys);
    if xs == [] {
      assert ys == [];
    } else {
      var i := Matching(xs, ys);
      ValuesPermuted(value, xs[1..], ys[..i] + ys[i + 1..]);
      ValuesWithout(value, xs, 0);
      ValuesWithout(value, ys, i);
      assert xs[..0] + xs[1..] == xs[1..];
    }
  }

  lemma ValuesWithout<T>(value: Coord -> T, xs: seq<Coord>, i: nat)
    requires i < |xs|
    ensures multiset(ValuesAt(value, xs)) == multiset(ValuesAt(value, xs[..i] + xs[i + 1..])) + multiset{value(xs[i])}
  {
    hide ValuesAt;
    ValuesInserted(value, xs[..i], xs[i], xs[i + 1..]);
    assert xs == xs[..i] + [xs[i]] + xs[i + 1..];
  }

  lemma ValuesInserted<T>(value: Coord -> T, a: seq<Coord>, x: Coord, b: seq<Coord>)
    ensures multiset(ValuesAt(value, a + [x] + b)) == multiset(ValuesAt(value, a + b)) + multiset{value(x)}
  {
    assert ValuesAt(value, a + [x] + b) == ValuesAt(value, a) + [value(x)] + ValuesAt(value, b);
    assert ValuesAt(value, a + b) == ValuesAt(value, a) + ValuesAt(value, b);
    Inserted(ValuesAt(value, a), value(x), ValuesAt(value, b));
  }

  /** Visited values plus one zero per skipped coordinate are all the selected values. */
  lemma CandidateValues<T>(value: Coord -> T, coords: seq<Coord>, visited: seq<Coord>, skipped: seq<Coord>, zero: T)
    requires Candidates(value, coords, visited, skipped, zero)
    ensures multiset(ValuesAt(value, visited) + Repeat(zero, |skipped|)) == multiset(ValuesAt(value, coords))
    ensures |visited| + |skipped| == |coords|
  {
    assert |multiset(visited + skipped)| == |multiset(coords)|;
    ValuesPermuted(value, visited + skipped, coords);
    assert ValuesAt(value, visited + skipped) == ValuesAt(value, visited) + ValuesAt(value, skipped);
    assert ValuesAt(value, skipped) == Repeat(zero, |skipped|);
  }

  lemma ReducedNone<T, S>(op: Op<T, S>)
    ensures Reduced(op, []) == None
  {}

  lemma BatchPrefix(requests: seq<BatchRequest>, shape: seq<nat>, i: nat)
    requires BatchesValid(requests, shape) && i < |requests|
    ensures requests[i].Valid(shape) && BatchesValid(requests[..i], shape) && BatchesValid(requests[..i + 1], shape)
    ensures AllCoords(requests[..i + 1], shape) == AllCoords(requests[..i], shape) + requests[i].Coords(shape)
    ensures |AllCoords(requests[..i + 1], shape)| <= |AllCoords(requests, shape)|
  {
    hide BatchRequest.Coords;
    assert requests[..i + 1][..i] == requests[..i];
    AllCoordsPrefix(requests, shape, i + 1);
  }

  lemma {:induction false} AllCoordsPrefix(requests: seq<BatchRequest>, shape: seq<nat>, i: nat)
    requires BatchesValid(requests, shape) && i <= |requests|
    ensures |AllCoords(requests[..i], shape)| <= |AllCoords(requests, shape)|
    decreases |requests|
  {
    hide BatchRequest.Coords;
    if i < |requests| {
      AllCoordsPrefix(requests[..|requests| - 1], shape, i);
      assert requests[..|requests| - 1][..i] == requests[..i];
    } else {
      assert requests[..i] == requests;
    }
  }

  // ---------------------------------------------------------------------
  // Sparse views
  // ---------------------------------------------------------------------

  /** The logical values are those stored through the placed view. */
  ghost predicate ReadsStore<T>(value: Coord -> T, s: StorageSlice, g: Storage, store: Store<T>, shape: seq<nat>)
    requires g.Valid() && s.Valid(|g.shape|)
  {
    forall c: Coord :: InShape(c, shape) && |c| == |s.axes| ==>
      Holds(store, g.At(s.Place(c))) && value(c) == ReadOne(store, g.At(s.Place(c)))
  }

  /** The selected coordinates whose block is not stored. */
  ghost function SkippedCoords(coords: seq<Coord>, marks: seq<nat>, ids: seq<nat>): seq<Coord>
    requires |marks| == |coords|
    decreases |coords|
  {
    if coords == [] then []
    else
      var n := |coords| - 1;
      SkippedCoords(coords[..n], marks[..n], ids) + if marks[n] in ids then [] else [coords[n]]
  }

  lemma {:induction false} SkippedComplement(coords: seq<Coord>, marks: seq<nat>, ids: seq<nat>)
    requires |marks| == |coords|
    ensures multiset(Marked(coords, marks, ids)) + multiset(SkippedCoords(coords, marks, ids)) == multiset(coords)
    decreases |coords|
  {
    if coords != [] {
      var n := |coords| - 1;
      SkippedComplement(coords[..n], marks[..n], ids);
      var marked, skipped := Marked(coords[..n], marks[..n], ids), SkippedCoords(coords[..n], marks[..n], ids);
      Appended(coords[..n], coords[n]);
      assert coords == coords[..n] + [coords[n]];
      Regrouped(multiset(marked), multiset(skipped), multiset(coords[..n]), coords[n]);
      if marks[n] in ids {
        Appended(marked, coords[n]);
        assert SkippedCoords(coords, marks, ids) == skipped;
      } else {
        Appended(skipped, coords[n]);
        assert Marked(coords, marks, ids) == marked;
      }
    }
  }

  lemma Regrouped<T>(a: multiset<T>, b: multiset<T>, both: multiset<T>, x: T)
    requires a + b == both
    ensures (a + multiset{x}) + b == both + multiset{x} && a + (b + multiset{x}) == both + multiset{x}
  {}

  lemma Appended<T>(a: seq<T>, x: T)
    ensures multiset(a + [x]) == multiset(a) + multiset{x}
  {}

  lemma {:induction false} SkippedAt(coords: seq<Coord>, marks: seq<nat>, ids: seq<nat>, k: nat) returns (i: nat)
    requires |marks| == |coords| && k < |SkippedCoords(coords, marks, ids)|
    ensures i < |coords| && coords[i] == SkippedCoords(coords, marks, ids)[k] && marks[i] !in ids
    decreases |coords|
  {
    var n := |coords| - 1;
    if k < |SkippedCoords(coords[..n], marks[..n], ids)| {
      i := SkippedAt(coords[..n], marks[..n], ids, k);
    } else {
      i := n;
    }
  }

  /** Coordinates of absent blocks are zero, so the occupied ones are candidates for all. */
  lemma OccupiedCandidates<T>(value: Coord -> T, slice: Slice, s: StorageSlice, g: Storage, table: map<nat, seq<T>>,
                              zero: T)
    returns (skipped: seq<Coord>)
    requires Selects(slice, s, g) && ReadsStore(value, s, g, StoreOf(table, g, zero), slice.shape)
    ensures Candidates(value, slice.Coords(), OccupiedCoords(slice, s, g, table), skipped, zero)
  {
    hide StorageSlice.Place, Storage.At, Marked, SkippedCoords;
    SliceInside(slice);
    var coords, marks, ids := slice.Coords(), Marks(slice, s, g), Scan(table.Keys, 0, g.BlockCount());
    skipped := SkippedCoords(coords, marks, ids);
    SkippedComplement(coords, marks, ids);
    ScanAscends(table.Keys, 0, g.BlockCount());
    forall k | 0 <= k < |skipped| ensures value(skipped[k]) == zero {
      var i := SkippedAt(coords, marks, ids, k);
      assert InShape(coords[i], slice.shape);
      AtInside(g, s.Place(coords[i]));
      assert marks[i] !in table;
    }
  }

  lemma SameCandidates<T>(value: Coord -> T, coords: seq<Coord>, a: seq<Coord>, b: seq<Coord>, skipped: seq<Coord>,
                          zero: T)
    requires Candidates(value, coords, a, skipped, zero) && multiset(a) == multiset(b)
    ensures Candidates(value, coords, b, skipped, zero)
  {}

  lemma AllCandidates<T>(value: Coord -> T, coords: seq<Coord>, zero: T)
    ensures Candidates(value, coords, coords, [], zero)
  {}
}
