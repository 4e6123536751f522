/** Reducing along axes: which source coordinates form a group, and evaluating a batch of
    groups with small groups packed together. */
module ReduceAxes {
  import opened Radix
  import opened Wrappers
  import opened Request
  import opened Mapping
  import opened Schema
  import opened Slices
  import opened SliceChunks
  import opened OrderedTraversal
  import opened Reduce
  import opened Expressions
  import opened Evaluation
  import opened SparseReading

  // ---------------------------------------------------------------------
  // Kept axes
  // ---------------------------------------------------------------------

  /** The items on axes that are not reduced. */
  function Kept<T>(items: seq<T>, flags: seq<bool>): seq<T>
    requires |flags| == |items|
    decreases |items|
  {
    if items == [] then []
    else
      var n := |items| - 1;
      Kept(items[..n], flags[..n]) + if flags[n] then [] else [items[n]]
  }

  /** How many axes before `i` are kept: its place in the output. */
  function KeptBefore(flags: seq<bool>, i: nat): nat
    requires i <= |flags|
  {
    if i == 0 then 0 else KeptBefore(flags, i - 1) + if flags[i - 1] then 0 else 1
  }

  lemma {:induction false} KeptPrefix<T>(items: seq<T>, flags: seq<bool>, i: nat)
    requires |flags| == |items| && i <= |items|
    ensures |Kept(items[..i], flags[..i])| == KeptBefore(flags, i)
    ensures KeptBefore(flags, i) <= |Kept(items, flags)|
    ensures Kept(items, flags)[..KeptBefore(flags, i)] == Kept(items[..i], flags[..i])
    decreases |items| - i
  {
    if i == |items| {
      assert items[..i] == items && flags[..i] == flags;
      KeptLength(items, flags);
    } else {
      KeptPrefix(items, flags, i + 1);
      assert items[..i + 1][..i] == items[..i] && flags[..i + 1][..i] == flags[..i];
    }
  }

  lemma {:induction false} KeptLength<T>(items: seq<T>, flags: seq<bool>)
    requires |flags| == |items|
    ensures |Kept(items, flags)| == KeptBefore(flags, |flags|)
    decreases |items|
  {
    if items != [] {
      var n := |items| - 1;
      KeptLength(items[..n], flags[..n]);
      KeptBeforePrefix(flags, n, n);
    }
  }

  lemma {:induction false} KeptBeforePrefix(flags: seq<bool>, n: nat, i: nat)
    requires i <= n <= |flags|
    ensures KeptBefore(flags[..n], i) == KeptBefore(flags, i)
  {
    if i > 0 {
      KeptBeforePrefix(flags, n, i - 1);
    }
  }

  /** A kept item sits at its place. */
  lemma KeptAt<T>(items: seq<T>, flags: seq<bool>, i: nat)
    requires |flags| == |items| && i < |items| && !flags[i]
    ensures KeptBefore(flags, i) < |Kept(items, flags)|
    ensures Kept(items, flags)[KeptBefore(flags, i)] == items[i]
  {
    KeptPrefix(items, flags, i);
    KeptPrefix(items, flags, i + 1);
    assert items[..i + 1][..i] == items[..i] && flags[..i + 1][..i] == flags[..i];
    var k := KeptBefore(flags, i);
    assert Kept(items, flags)[..k + 1][k] == items[i];
  }

  /** Every output place belongs to a kept axis. */
  lemma {:induction false} KeptSource(flags: seq<bool>, n: nat, k: nat) returns (i: nat)
    requires n <= |flags| && k < KeptBefore(flags, n)
    ensures i < n && !flags[i] && KeptBefore(flags, i) == k
  {
    if k < KeptBefore(flags, n - 1) {
      i := KeptSource(flags, n - 1, k);
    } else {
      i := n - 1;
    }
  }

  /** A list holding every kept item at its place is the list of kept items. */
  lemma KeptEqual<T>(items: seq<T>, flags: seq<bool>, out: seq<T>)
    requires |flags| == |items| && |out| == |Kept(items, flags)|
    requires forall i :: 0 <= i < |items| && !flags[i] ==> KeptBefore(flags, i) < |out| && out[KeptBefore(flags, i)] == items[i]
    ensures Kept(items, flags) == out
  {
    hide Kept, KeptBefore;
    KeptLength(items, flags);
    forall k | 0 <= k < |out| ensures Kept(items, flags)[k] == out[k] {
      var i := KeptSource(flags, |flags|, k);
      KeptAt(items, flags, i);
    }
  }

  // ---------------------------------------------------------------------
  // Reduce views
  // ---------------------------------------------------------------------

  /** Which axes are reduced, whether they stay as single positions, and how the output is viewed. */
  datatype ReduceView = ReduceView(shape: seq<nat>, flags: seq<bool>, keepdims: bool, mapping: CoordinateMap) {
    function OutShape(): (s: seq<nat>)
      requires |flags| == |shape|
    {
      if keepdims then seq(|shape|, i requires 0 <= i < |shape| => if flags[i] then 1 else shape[i])
      else if Kept(shape, flags) == [] then [1]
      else Kept(shape, flags)
    }

    /** The output position a source coordinate contributes to. */
    function Project(c: Coord): (o: Coord)
      requires |c| == |flags|
    {
      if keepdims then seq(|c|, i requires 0 <= i < |c| => if flags[i] then 0 else c[i])
      else if Kept(c, flags) == [] then [0]
      else Kept(c, flags)
    }

    ghost predicate Valid() {
      && shape != [] && Positive(shape) && Size(shape) <= U64_MAX && |flags| == |shape|
      && |mapping.shape| <= MAX_RANK
      && Positive(OutShape()) && Size(OutShape()) <= U64_MAX
      && mapping.Good(Size(OutShape()))
    }

    /** Where axis `i` of the source reads its output coordinate. */
    function Slot(i: nat): nat
      requires i < |flags|
    {
      if keepdims then i else KeptBefore(flags, i)
    }

    /** The axes of one group: reduced axes in full, kept axes fixed by the output coordinate. */
    function GroupAxes(out: Coord): (a: seq<Axis>)
      requires |flags| == |shape| && |out| == |OutShape()|
      ensures |a| == |shape|
      ensures forall i :: 0 <= i < |a| ==>
                (!flags[i] ==> Slot(i) < |out|) && a[i] == if flags[i] then Span(0, 1, shape[i]) else Span(out[Slot(i)], 1, 1)
    {
      SlotInside(this);
      seq(|shape|, i requires 0 <= i < |shape| =>
        if flags[i] then Span(0, 1, shape[i]) else Span(out[Slot(i)], 1, 1))
    }

    /** The extents of every group. */
    function GroupLens(): (s: seq<nat>)
      requires |flags| == |shape|
    {
      seq(|shape|, i requires 0 <= i < |shape| => if flags[i] then shape[i] else 1)
    }

    /** How many source elements each output summarises. */
    ghost function GroupLen(): nat
      requires Valid()
    {
      Size(GroupLens())
    }

    /** The group of a logical output coordinate. */
    ghost function Group(c: Coord): (s: Slice)
      requires Valid() && InShape(c, mapping.shape)
      ensures s.shape == shape
    {
      var out := Decode(mapping.Offset(c), OutShape());
      Slice(shape, GroupAxes(out), Cartesian(GroupAxes(out)).Len())
    }
  }

  lemma SlotInside(v: ReduceView)
    requires |v.flags| == |v.shape|
    ensures forall i :: 0 <= i < |v.shape| && !v.flags[i] ==> v.Slot(i) < |v.OutShape()|
  {
    forall i | 0 <= i < |v.shape| && !v.flags[i] ensures v.Slot(i) < |v.OutShape()| {
      if !v.keepdims {
        KeptAt(v.shape, v.flags, i);
      }
    }
  }

  lemma OutDim(v: ReduceView, i: nat)
    requires |v.flags| == |v.shape| && i < |v.shape| && !v.flags[i]
    ensures v.Slot(i) < |v.OutShape()| && v.OutShape()[v.Slot(i)] == v.shape[i]
  {
    if !v.keepdims {
      KeptAt(v.shape, v.flags, i);
    }
  }

  lemma {:induction false} KeptBeforeIs(flags: seq<bool>, i: nat)
    requires i <= |flags|
    ensures KeptBefore(flags, i) == |set k | 0 <= k < |flags| && !flags[k] && k < i|
  {
    var now := set k | 0 <= k < |flags| && !flags[k] && k < i;
    if i == 0 {
      assert now == {};
    } else {
      KeptBeforeIs(flags, i - 1);
      var before := set k | 0 <= k < |flags| && !flags[k] && k < i - 1;
      assert now == if flags[i - 1] then before else before + {i - 1};
    }
  }

  /** Where each axis of the output comes from: all axes with the reduced ones at a single position, or
      the axes that are not reduced, in order; a single position when every axis is reduced. */
  lemma OutputAxes(v: ReduceView, c: Coord, i: nat)
    requires |v.flags| == |v.shape| == |c| && i < |c|
    ensures v.keepdims ==> |v.Project(c)| == |v.OutShape()| == |c|
    ensures v.keepdims ==> v.Project(c)[i] == (if v.flags[i] then 0 else c[i])
                           && v.OutShape()[i] == if v.flags[i] then 1 else v.shape[i]
    ensures !v.keepdims && !v.flags[i] ==>
              var slot := |set k | 0 <= k < |c| && !v.flags[k] && k < i|;
              && slot < |v.Project(c)| == |v.OutShape()| == |set k | 0 <= k < |c| && !v.flags[k]|
              && v.Project(c)[slot] == c[i] && v.OutShape()[slot] == v.shape[i]
    ensures !v.keepdims && (forall k :: 0 <= k < |c| ==> v.flags[k]) ==> v.Project(c) == [0] && v.OutShape() == [1]
  {
    KeptLength(c, v.flags);
    KeptLength(v.shape, v.flags);
    KeptBeforeIs(v.flags, |c|);
    KeptBeforeIs(v.flags, i);
    if !v.flags[i] {
      KeptAt(c, v.flags, i);
      KeptAt(v.shape, v.flags, i);
    }
    var kept := set k | 0 <= k < |c| && !v.flags[k];
    assert kept == set k | 0 <= k < |v.flags| && !v.flags[k] && k < |c|;
    if forall k :: 0 <= k < |c| ==> v.flags[k] {
      assert kept == {};
    }
  }

  /** The output shape of a valid source is itself a valid shape. */
  lemma OutShapeValid(v: ReduceView)
    requires |v.flags| == |v.shape| && v.shape != [] && Positive(v.shape)
    ensures v.OutShape() != [] && Positive(v.OutShape()) && Size(v.OutShape()) <= Size(v.shape)
  {
    SizePositive(v.shape);
    if v.keepdims {
      SizeMonotone(v.OutShape(), v.shape);
    } else {
      KeptShape(v.shape, v.flags);
      if Kept(v.shape, v.flags) == [] {
        assert Size([1]) == 1 * Size([]) == 1;
      }
    }
  }

  lemma {:induction false} KeptShape(shape: seq<nat>, flags: seq<bool>)
    requires |flags| == |shape| && Positive(shape)
    ensures Positive(Kept(shape, flags)) && Size(Kept(shape, flags)) <= Size(shape)
    decreases |shape|
  {
    hide Size;
    if shape != [] {
      var n := |shape| - 1;
      KeptShape(shape[..n], flags[..n]);
      SizePositive(shape[..n]);
      SizeSnoc(shape[..n], shape[n]);
      assert shape == shape[..n] + [shape[n]];
      if flags[n] {
        assert Kept(shape, flags) == Kept(shape[..n], flags[..n]);
        MulMonotone(1, shape[n], Size(shape[..n]));
      } else {
        SizeSnoc(Kept(shape[..n], flags[..n]), shape[n]);
        MulMonotone(Size(Kept(shape[..n], flags[..n])), Size(shape[..n]), shape[n]);
      }
    }
  }

  lemma SizeSnoc(shape: seq<nat>, dim: nat)
    ensures Size(shape + [dim]) == Size(shape) * dim
  {
    SizeConcat(shape, [dim]);
    assert [dim][1..] == [] && Size([dim]) == dim;
  }

  lemma ProjectLength(v: ReduceView, c: Coord)
    requires |v.flags| == |v.shape| == |c|
    ensures |v.Project(c)| == |v.OutShape()|
  {
    KeptLength(c, v.flags);
    KeptLength(v.shape, v.flags);
  }

  /** A point projects to an output coordinate exactly when its kept axes hold its values. */
  lemma ProjectIs(v: ReduceView, c: Coord, out: Coord)
    requires |v.flags| == |v.shape| == |c| && InShape(out, v.OutShape())
    ensures v.Project(c) == out <==>
            forall i :: 0 <= i < |c| && !v.flags[i] ==> v.Slot(i) < |out| && out[v.Slot(i)] == c[i]
  {
    SlotInside(v);
    ProjectLength(v, c);
    if v.keepdims {
      if forall i :: 0 <= i < |c| && !v.flags[i] ==> v.Slot(i) < |out| && out[v.Slot(i)] == c[i] {
        forall i | 0 <= i < |c| ensures v.Project(c)[i] == out[i] {
          assert out[i] < v.OutShape()[i];
        }
      }
    } else if Kept(c, v.flags) == [] {
      KeptLength(c, v.flags);
      KeptLength(v.shape, v.flags);
      forall i | 0 <= i < |c| ensures v.flags[i] {
        if !v.flags[i] {
          KeptAt(c, v.flags, i);
        }
      }
      assert out[0] < v.OutShape()[0];
    } else {
      if forall i :: 0 <= i < |c| && !v.flags[i] ==> v.Slot(i) < |out| && out[v.Slot(i)] == c[i] {
        KeptEqual(c, v.flags, out);
      }
      forall i | 0 <= i < |c| && !v.flags[i] ensures Kept(c, v.flags)[v.Slot(i)] == c[i] {
        KeptAt(c, v.flags, i);
      }
    }
  }

  /** A group holds exactly the source coordinates that project to its output coordinate. */
  lemma GroupExact(v: ReduceView, out: Coord, c: Coord)
    requires |v.flags| == |v.shape| && Positive(v.shape) && InShape(out, v.OutShape()) && |c| == |v.shape|
    ensures c in Cartesian(v.GroupAxes(out)).Coords() <==> InShape(c, v.shape) && v.Project(c) == out
  {
    hide Decode, Flat, Size, Kept, KeptBefore;
    var axes := v.GroupAxes(out);
    var lens := Lens(axes);
    ProjectIs(v, c, out);
    if c in Cartesian(axes).Coords() {
      var k :| 0 <= k < Cartesian(axes).Len() && Cartesian(axes).Coords()[k] == c;
      EmptySize(lens);
      DecodeInShape(k, lens);
      forall i | 0 <= i < |c| ensures c[i] < v.shape[i] && (!v.flags[i] ==> out[v.Slot(i)] == c[i]) {
        assert c[i] == axes[i].At(Decode(k, lens)[i]);
        if !v.flags[i] {
          OutDim(v, i);
        }
      }
    }
    if InShape(c, v.shape) && v.Project(c) == out {
      var d: Coord := seq(|c|, i requires 0 <= i < |c| => if v.flags[i] then c[i] else 0);
      assert InShape(d, lens);
      assert Pick(axes, d) == c;
      CoordinateOf(axes, d);
      assert Cartesian(axes).Coords()[Flat(d, lens)] == c;
    }
  }

  /** The group of a logical output holds exactly the source coordinates that project to the output
      coordinate its map reads. */
  lemma GroupHolds(v: ReduceView, c: Coord, x: Coord)
    requires v.Valid() && InShape(c, v.mapping.shape) && |x| == |v.shape|
    ensures x in v.Group(c).Coords() <==> InShape(x, v.shape) && v.Project(x) == Decode(v.mapping.Offset(c), v.OutShape())
  {
    hide CoordinateMap.Offset, Decode, Size, ReduceView.OutShape, ReduceView.GroupAxes, ReduceView.Project,
         Cartesian.Coords;
    DecodeInShape(v.mapping.Offset(c), v.OutShape());
    GroupExact(v, Decode(v.mapping.Offset(c), v.OutShape()), x);
  }

  lemma GroupValid(v: ReduceView, out: Coord)
    requires |v.flags| == |v.shape| && Positive(v.shape) && Size(v.shape) <= U64_MAX && InShape(out, v.OutShape())
    ensures AxesValid(v.GroupAxes(out), v.shape)
    ensures 0 < Cartesian(v.GroupAxes(out)).Len() <= U64_MAX
  {
    var axes := v.GroupAxes(out);
    forall i | 0 <= i < |axes| ensures axes[i].Valid(v.shape[i]) && 0 < Lens(axes)[i] <= v.shape[i] {
      if !v.flags[i] {
        OutDim(v, i);
      }
    }
    SizePositive(Lens(axes));
    SizeMonotone(Lens(axes), v.shape);
  }

  // ---------------------------------------------------------------------
  // Evaluation
  // ---------------------------------------------------------------------

  /** One descriptor per source axis, consuming output coordinates for kept axes in turn. */
  method AxesOf(v: ReduceView, out: Coord) returns (axes: seq<Axis>)
    requires |v.flags| == |v.shape| && |out| == |v.OutShape()|
    ensures axes == v.GroupAxes(out)
  {
    hide ReduceView.OutShape, ReduceView.GroupAxes, KeptBefore;
    ghost var target := v.GroupAxes(out);
    axes := [];
    var next := 0;
    NoneKept(v.flags);
    for i := 0 to |v.shape|
      invariant |axes| == i && forall k :: 0 <= k < i ==> axes[k] == target[k]
      invariant next == KeptBefore(v.flags, i)
    {
      NextKept(v, i);
      if v.flags[i] {
        axes := axes + [Span(0, 1, v.shape[i])];
      } else {
        var slot := if v.keepdims then i else next;
        axes := axes + [Span(out[slot], 1, 1)];
        next := next + 1;
      }
    }
  }

  lemma NoneKept(flags: seq<bool>)
    ensures KeptBefore(flags, 0) == 0
  {}

  lemma NextKept(v: ReduceView, i: nat)
    requires i < |v.flags|
    ensures KeptBefore(v.flags, i + 1) == KeptBefore(v.flags, i) + if v.flags[i] then 0 else 1
  {}

  /** `source_group_axes`: resolve the output coordinate, then describe its group. */
  method SourceGroup(v: ReduceView, c: Coord) returns (r: Result<Slice>)
    requires v.Valid() && InShape(c, v.mapping.shape)
    ensures r == Ok(v.Group(c)) && v.Group(c).Valid() && v.Group(c).len > 0
  {
    hide CoordinateMap.Offset, CoordinateMap.InRange, Size, Decode, ReduceView.OutShape, ReduceView.GroupAxes;
    var resolved := Resolve(v.mapping, c, v.OutShape(), Strides(v.OutShape()));
    var out := resolved.value;
    DecodeInShape(v.mapping.Offset(c), v.OutShape());
    GroupValid(v, out);
    var axes := AxesOf(v, out);
    r := NewSlice(v.shape, axes);
  }

  /** The finished reduction of one whole group. */
  ghost function GroupResult<T, S, R>(op: Op<T, S>, last: Finisher<S, R>, value: Coord -> T, group: Slice): Result<R> {
    last.finish(op.partial(ValuesAt(value, group.Coords())))
  }

  /** The next group to evaluate, if any output is left. */
  method NextGroup(v: ReduceView, cursor: Cursor) returns (r: Option<Slice>)
    requires v.Valid() && cursor.Valid() && cursor.shape == v.mapping.shape
    modifies cursor
    ensures cursor.Valid()
    ensures r.Some? <==> old(cursor.position) < cursor.request.len
    ensures cursor.position == old(cursor.position) + if r.Some? then 1 else 0
    ensures r.Some? ==> InShape(cursor.request.Coords(v.mapping.shape)[old(cursor.position)], v.mapping.shape)
    ensures r.Some? ==> r.value == v.Group(cursor.request.Coords(v.mapping.shape)[old(cursor.position)])
                        && r.value.Valid() && r.value.len > 0
    ensures r.Some? ==> PackedAt(v, cursor.request, old(cursor.position), r.value)
  {
    hide BatchRequest.Valid, BatchRequest.Coords, Tracks, ReduceView.Group, Slice.Valid;
    var more, c := cursor.NextInto();
    if !more {
      return None;
    }
    assert InShape(c, v.mapping.shape) by { CoordsInside(cursor.request, v.mapping.shape, cursor.position - 1); }
    var group := SourceGroup(v, c);
    return Some(group.value);
  }

  /** A group larger than a batch is reduced on its own, through the requests its source selects. */
  method LargeGroup<T(!new, ==), S(!new), R>(op: Op<T, S>, last: Finisher<S, R>, e: Expr<T>, group: Slice)
    returns (r: Result<R>)
    requires Lawful(op) && WellFormed(e) && group.Valid() && group.shape == Shape(e) && group.len > 0
    requires StrictAxes(group) && UnitAxes(group.axes)
    ensures r.Ok? ==> SelectionFits(e)
    ensures r.Ok? || (SelectionFits(e) && EvaluationFits(e)) ==>
              r == last.finish(op.partial(ValuesAt(Valuation(e), group.Coords())))
  {
    hide Lawful, WellFormed, AllCoords, Slice.Coords, Slice.Valid, SelectionFits, EvaluationFits, Suits, Served,
         Selection, Valuation, StrictAxes, UnitAxes, Merges, SelectionEnd, Shape, BatchesValid, AllKeep;
    LenIs(group);
    UnitSuits(e, group.axes);
    var state, requests, skipped := ReduceExpression(op, e, group);
    if state.Err? {
      return Err(state.error);
    }
    return last.AlongAxis(state.value);
  }

  lemma LenIs(slice: Slice)
    requires slice.Valid()
    ensures |slice.Coords()| == slice.len
  {}

  // ---------------------------------------------------------------------
  // Packing small groups
  // ---------------------------------------------------------------------

  /** Groups `from..` of a request, as packed into one batch. */
  ghost predicate Packed(v: ReduceView, request: BatchRequest, from: nat, groups: seq<Slice>)
    requires v.Valid() && request.Valid(v.mapping.shape)
  {
    && from + |groups| <= request.len
    && forall j :: 0 <= j < |groups| ==> PackedAt(v, request, from + j, groups[j])
  }

  ghost predicate PackedAt(v: ReduceView, request: BatchRequest, k: nat, group: Slice)
    requires v.Valid() && request.Valid(v.mapping.shape) && k < request.len
  {
    && InShape(request.Coords(v.mapping.shape)[k], v.mapping.shape)
    && group == v.Group(request.Coords(v.mapping.shape)[k]) && group.Valid() && group.len > 0
  }

  function Rects(groups: seq<Slice>): (r: seq<Cartesian>)
    ensures |r| == |groups|
    ensures forall j :: 0 <= j < |r| ==> r[j] == Cartesian(groups[j].axes)
  {
    seq(|groups|, j requires 0 <= j < |groups| => Cartesian(groups[j].axes))
  }

  /** Collect whole groups while they fit one batch; the first that does not fit is kept back. */
  method Pack(v: ReduceView, cursor: Cursor, first: Slice, ghost from: nat)
    returns (groups: seq<Slice>, pending: Option<Slice>)
    requires v.Valid() && cursor.Valid() && cursor.shape == v.mapping.shape
    requires cursor.position == from + 1 <= cursor.request.len && first.len <= MAX_BATCH_ELEMENTS
    requires PackedAt(v, cursor.request, from, first)
    modifies cursor
    ensures cursor.Valid() && Packed(v, cursor.request, from, groups) && groups != []
    ensures |RectCoords(Rects(groups))| <= MAX_BATCH_ELEMENTS
    ensures cursor.position == from + |groups| + if pending.Some? then 1 else 0
    ensures pending.Some? ==> cursor.position <= cursor.request.len && PackedAt(v, cursor.request, from + |groups|, pending.value)
  {
    hide ReduceView.Group, ReduceView.Valid, BatchRequest.Coords, BatchRequest.Valid, Tracks, Slice.Valid, Packed,
         PackedAt, Rects, RectCoords;
    groups, pending := [first], None;
    var total := first.len;
    PackedFirst(v, cursor.request, from, first);
    while total < MAX_BATCH_ELEMENTS
      invariant cursor.Valid() && cursor.shape == v.mapping.shape && groups != []
      invariant cursor.position == from + |groups| && Packed(v, cursor.request, from, groups)
      invariant total == |RectCoords(Rects(groups))| <= MAX_BATCH_ELEMENTS
      decreases cursor.request.len - cursor.position
    {
      var next := NextGroup(v, cursor);
      if next.None? {
        break;
      }
      if next.value.len > MAX_BATCH_ELEMENTS - total {
        pending := next;
        break;
      }
      PackedNext(v, cursor.request, from, groups, next.value);
      total := total + next.value.len;
      groups := groups + [next.value];
    }
  }

  lemma PackedFirst(v: ReduceView, request: BatchRequest, from: nat, first: Slice)
    requires v.Valid() && request.Valid(v.mapping.shape) && from < request.len && PackedAt(v, request, from, first)
    ensures Packed(v, request, from, [first]) && |RectCoords(Rects([first]))| == first.len
  {
    hide BatchRequest.Valid, BatchRequest.Coords, ReduceView.Group, ReduceView.Valid;
    RectsNext([], first);
    assert [] + [first] == [first] && Rects([]) == [];
  }

  lemma PackedNext(v: ReduceView, request: BatchRequest, from: nat, groups: seq<Slice>, next: Slice)
    requires v.Valid() && request.Valid(v.mapping.shape) && Packed(v, request, from, groups)
    requires from + |groups| < request.len && PackedAt(v, request, from + |groups|, next)
    ensures Packed(v, request, from, groups + [next])
    ensures |RectCoords(Rects(groups + [next]))| == |RectCoords(Rects(groups))| + next.len
  {
    hide BatchRequest.Valid, BatchRequest.Coords, ReduceView.Group, ReduceView.Valid, RectCoords, Rects;
    RectsNext(groups, next);
  }

  lemma RectsNext(groups: seq<Slice>, next: Slice)
    requires next.Valid()
    ensures RectCoords(Rects(groups + [next])) == RectCoords(Rects(groups)) + next.Coords()
    ensures |RectCoords(Rects(groups + [next]))| == |RectCoords(Rects(groups))| + next.len
  {
    assert Rects(groups + [next]) == Rects(groups) + [Cartesian(next.axes)];
    RectCoordsSnoc(Rects(groups), Cartesian(next.axes));
  }

  /** One evaluated batch is cut back into its groups, each summarised once. */
  method SmallGroups<T(!new, ==), S(!new), R>(op: Op<T, S>, last: Finisher<S, R>, e: Expr<T>, v: ReduceView,
                                             groups: seq<Slice>, ghost request: BatchRequest, ghost from: nat)
    returns (r: Result<seq<R>>)
    requires WellFormed(e) && v.shape == Shape(e) && v.Valid() && request.Valid(v.mapping.shape)
    requires Packed(v, request, from, groups) && groups != [] && |RectCoords(Rects(groups))| <= MAX_BATCH_ELEMENTS
    ensures r.Ok? <==>
              && EvaluationFits(e)
              && forall j :: 0 <= j < |groups| ==> GroupResult(op, last, Valuation(e), groups[j]).Ok?
    ensures r.Ok? ==> |r.value| == |groups|
    ensures r.Ok? ==> forall j :: 0 <= j < |groups| ==>
              Ok(r.value[j]) == last.finish(op.partial(ValuesAt(Valuation(e), groups[j].Coords())))
  {
    hide WellFormed, Shape, Valuation, EvaluationFits, UnitSteps, Readable, ReduceView.Group, ReduceView.Valid,
         BatchRequest.Coords, BatchRequest.Valid, Slice.Coords, RectCoords, Packed;
    var rects := Rects(groups);
    var total := |RectCoords(rects)|;
    PackedRects(v, request, from, groups);
    var batch := BatchRequest(Rectangles(rects), total);
    ghost var value := Valuation(e);
    GroupsUnit(v, request, from, groups, batch);
    UnitReadable(e, batch);
    var evaluated := EvaluateRequest(e, batch);
    if evaluated.Err? {
      return Err(evaluated.error);
    }
    var input := evaluated.value;
    var out: seq<R> := [];
    var at := 0;
    RectsNone();
    assert groups[..0] == [];
    for j := 0 to |groups|
      invariant |out| == j && at == |RectCoords(Rects(groups[..j]))|
      invariant forall i :: 0 <= i < j ==> Ok(out[i]) == GroupResult(op, last, value, groups[i])
    {
      GroupStretch(v, request, from, groups, j);
      var group := input[at..at + groups[j].len];
      assert group == ValuesAt(value, groups[j].Coords());
      var finished := last.finish(op.partial(group));
      if finished.Err? {
        assert GroupResult(op, last, value, groups[j]).Err?;
        return Err(finished.error);
      }
      out := out + [finished.value];
      at := at + groups[j].len;
    }
    return Ok(out);
  }

  /** Groups advance by single indices on every axis. */
  lemma GroupsUnit(v: ReduceView, request: BatchRequest, from: nat, groups: seq<Slice>, batch: BatchRequest)
    requires v.Valid() && request.Valid(v.mapping.shape) && Packed(v, request, from, groups)
    requires batch.kind == Rectangles(Rects(groups))
    ensures UnitSteps(batch)
  {
    hide RectCoords, BatchRequest.Valid, BatchRequest.Coords, ReduceView.Valid, PackedAt, UnitAxes;
    forall j | 0 <= j < |groups| ensures UnitAxes(groups[j].axes) {
      assert PackedAt(v, request, from + j, groups[j]);
      GroupUnit(v, request, from + j, groups[j]);
    }
  }

  lemma GroupUnit(v: ReduceView, request: BatchRequest, k: nat, group: Slice)
    requires v.Valid() && request.Valid(v.mapping.shape) && k < request.len && PackedAt(v, request, k, group)
    ensures UnitAxes(group.axes)
  {
    hide BatchRequest.Valid, BatchRequest.Coords, CoordinateMap.Offset, Decode, Size, ReduceView.OutShape;
    var c := request.Coords(v.mapping.shape)[k];
    var out := Decode(v.mapping.Offset(c), v.OutShape());
    assert group.axes == v.GroupAxes(out);
  }

  lemma RectsNone()
    ensures RectCoords(Rects([])) == []
  {}

  lemma PackedRects(v: ReduceView, request: BatchRequest, from: nat, groups: seq<Slice>)
    requires v.Valid() && request.Valid(v.mapping.shape) && Packed(v, request, from, groups)
    requires |RectCoords(Rects(groups))| <= MAX_BATCH_ELEMENTS
    ensures var batch := BatchRequest(Rectangles(Rects(groups)), |RectCoords(Rects(groups))|);
            batch.Valid(v.shape) && batch.Coords(v.shape) == RectCoords(Rects(groups))
  {
    hide RectCoords, BatchRequest.Coords;
    forall j | 0 <= j < |groups| ensures AxesValid(Rects(groups)[j].axes, v.shape) {
      assert PackedAt(v, request, from + j, groups[j]);
    }
    RectangleCoords(Rects(groups), v.shape);
  }

  lemma RectangleCoords(rects: seq<Cartesian>, shape: seq<nat>)
    ensures var batch := BatchRequest(Rectangles(rects), |RectCoords(rects)|);
            batch.Valid(shape) ==> batch.Coords(shape) == RectCoords(rects)
  {}

  /** Group `j` occupies the stretch of the batch after the groups before it. */
  lemma GroupStretch(v: ReduceView, request: BatchRequest, from: nat, groups: seq<Slice>, j: nat)
    requires v.Valid() && request.Valid(v.mapping.shape) && Packed(v, request, from, groups) && j < |groups|
    ensures groups[j].Valid()
    ensures |RectCoords(Rects(groups[..j + 1]))| == |RectCoords(Rects(groups[..j]))| + groups[j].len <= |RectCoords(Rects(groups))|
    ensures var at := |RectCoords(Rects(groups[..j]))|;
            RectCoords(Rects(groups))[at..at + groups[j].len] == groups[j].Coords()
  {
    hide RectCoords, Slice.Coords, Slice.Valid, ReduceView.Valid, ReduceView.Group, BatchRequest.Valid,
         BatchRequest.Coords;
    assert PackedAt(v, request, from + j, groups[j]);
    assert groups[..j + 1] == groups[..j] + [groups[j]];
    RectsNext(groups[..j], groups[j]);
    RectsPrefix(groups, j + 1);
    assert RectCoords(Rects(groups))[..|RectCoords(Rects(groups[..j + 1]))|] == RectCoords(Rects(groups[..j])) + groups[j].Coords();
  }

  lemma {:induction false} RectsPrefix(groups: seq<Slice>, j: nat)
    requires j <= |groups|
    ensures RectCoords(Rects(groups[..j])) <= RectCoords(Rects(groups))
    decreases |groups|
  {
    if j < |groups| {
      var front := groups[..|groups| - 1];
      RectsPrefix(front, j);
      assert front[..j] == groups[..j];
      assert Rects(groups) == Rects(front) + [Cartesian(groups[|groups| - 1].axes)];
      RectCoordsSnoc(Rects(front), Cartesian(groups[|groups| - 1].axes));
    } else {
      assert groups[..j] == groups;
    }
  }

  // ---------------------------------------------------------------------
  // The whole batch
  // ---------------------------------------------------------------------

  /** One turn: a large group on its own, or as many small groups as fit one batch. */
  method NextSummaries<T(!new, ==), S(!new), R>(op: Op<T, S>, last: Finisher<S, R>, e: Expr<T>, v: ReduceView,
                                               cursor: Cursor, group: Slice, ghost from: nat)
    returns (r: Result<seq<R>>, pending: Option<Slice>)
    requires Lawful(op) && WellFormed(e) && v.Valid() && v.shape == Shape(e)
    requires cursor.Valid() && cursor.shape == v.mapping.shape && cursor.position == from + 1 <= cursor.request.len
    requires PackedAt(v, cursor.request, from, group)
    modifies cursor
    ensures cursor.Valid()
    ensures r.Err? && EvaluationFits(e) ==> !Servable(e, v) || !AllFinish(op, last, Valuation(e), v, cursor.request)
    ensures r.Ok? ==> Servable(e, v) && r.value != []
    ensures r.Ok? ==> cursor.position == from + |r.value| + if pending.Some? then 1 else 0
    ensures r.Ok? ==> from + |r.value| <= cursor.request.len
    ensures r.Ok? ==> Summarised(op, last, Valuation(e), v, cursor.request, from, r.value)
    ensures r.Ok? && pending.Some? ==>
              cursor.position <= cursor.request.len && PackedAt(v, cursor.request, from + |r.value|, pending.value)
  {
    hide Lawful, WellFormed, Valuation, SelectionFits, EvaluationFits, Servable, AllFinish, Shape, StrictAxes,
         UnitAxes, Summarised, ReduceView.Valid, ReduceView.Group, BatchRequest.Valid, BatchRequest.Coords, Tracks,
         Slice.Valid, Slice.Coords, RectCoords, Packed, PackedAt;
    GroupShape(v, cursor.request, from, group);
    ServableIs(e, v, group.len);
    pending := None;
    if group.len > MAX_BATCH_ELEMENTS {
      GroupUnit(v, cursor.request, from, group);
      var result := LargeGroup(op, last, e, group);
      if result.Err? {
        FinishAt(op, last, Valuation(e), v, cursor.request, from, group);
        return Err(result.error), None;
      }
      SummaryOf(op, last, Valuation(e), v, cursor.request, from, group, result.value);
      return Ok([result.value]), None;
    }
    var groups: seq<Slice>;
    groups, pending := Pack(v, cursor, group, from);
    r := SmallGroups(op, last, e, v, groups, cursor.request, from);
    if r.Err? {
      FinishesAt(op, last, Valuation(e), v, cursor.request, from, groups);
      return r, None;
    }
    SummariesAt(op, last, Valuation(e), v, cursor.request, from, groups, r.value);
  }

  /** `build`: one finished result per requested output, in request order, whether the group was packed
      with others or reduced on its own. */
  method Build<T(!new, ==), S(!new), R>(op: Op<T, S>, last: Finisher<S, R>, e: Expr<T>, v: ReduceView,
                                       request: BatchRequest)
    returns (r: Result<seq<R>>)
    requires Lawful(op) && v.Valid() && request.Valid(v.mapping.shape) && WellFormed(e) && v.shape == Shape(e)
    ensures EvaluationFits(e) ==>
              (r.Ok? <==> request.len == 0 || (Servable(e, v) && AllFinish(op, last, Valuation(e), v, request)))
    ensures r.Ok? ==> request.len == 0 || Servable(e, v)
    ensures r.Ok? ==> |r.value| == request.len
    ensures r.Ok? ==> forall i :: 0 <= i < request.len ==>
              InShape(request.Coords(v.mapping.shape)[i], v.mapping.shape)
              && var group := v.Group(request.Coords(v.mapping.shape)[i]).Coords();
                 Ok(r.value[i]) == last.finish(op.partial(ValuesAt(Valuation(e), group)))
  {
    hide Lawful, WellFormed, Valuation, SelectionFits, EvaluationFits, Servable, AllFinish, Shape, Summarised,
         ReduceView.Valid, ReduceView.Group, BatchRequest.Valid, BatchRequest.Coords, Tracks, PackedAt;
    ghost var value := Valuation(e);
    var out: seq<R> := [];
    var cursor := new Cursor(request, v.mapping.shape);
    var pending: Option<Slice> := None;
    NoneSummarised(op, last, value, v, request);
    while true
      invariant cursor.Valid() && cursor.request == request && cursor.shape == v.mapping.shape && fresh(cursor)
      invariant |out| <= request.len && cursor.position == |out| + if pending.Some? then 1 else 0
      invariant pending.Some? ==> |out| < request.len && PackedAt(v, request, |out|, pending.value)
      invariant Summarised(op, last, value, v, request, 0, out) && (out == [] || Servable(e, v))
      decreases request.len - |out|
    {
      var group := pending;
      if pending.None? {
        group := NextGroup(v, cursor);
      }
      if group.None? {
        SummarisedAll(op, last, value, v, request, out);
        return Ok(out);
      }
      var summaries;
      summaries, pending := NextSummaries(op, last, e, v, cursor, group.value, |out|);
      if summaries.Err? {
        return Err(summaries.error);
      }
      SummarisedMore(op, last, value, v, request, out, summaries.value);
      out := out + summaries.value;
    }
  }

  /** Large groups need a selection within the traversal bound, packed ones an evaluation within the
      frame bound. */
  ghost predicate Servable<T>(e: Expr<T>, v: ReduceView)
    requires v.Valid()
  {
    if v.GroupLen() > MAX_BATCH_ELEMENTS then SelectionFits(e) else EvaluationFits(e)
  }

  lemma ServableIs<T>(e: Expr<T>, v: ReduceView, len: nat)
    requires v.Valid() && len == v.GroupLen()
    ensures Servable(e, v) <==> if len > MAX_BATCH_ELEMENTS then SelectionFits(e) else EvaluationFits(e)
  {}

  /** The reduction of every requested output can be finished. */
  ghost predicate AllFinish<T, S, R>(op: Op<T, S>, last: Finisher<S, R>, value: Coord -> T, v: ReduceView,
                                     request: BatchRequest)
    requires v.Valid() && request.Valid(v.mapping.shape)
  {
    forall k :: 0 <= k < request.len ==> FinishesOutput(op, last, value, v, request, k)
  }

  ghost predicate FinishesOutput<T, S, R>(op: Op<T, S>, last: Finisher<S, R>, value: Coord -> T, v: ReduceView,
                                          request: BatchRequest, k: nat)
    requires v.Valid() && request.Valid(v.mapping.shape) && k < request.len
  {
    var c := request.Coords(v.mapping.shape)[k];
    InShape(c, v.mapping.shape) && GroupResult(op, last, value, v.Group(c)).Ok?
  }

  lemma FinishAt<T, S, R>(op: Op<T, S>, last: Finisher<S, R>, value: Coord -> T, v: ReduceView, request: BatchRequest,
                          k: nat, group: Slice)
    requires v.Valid() && request.Valid(v.mapping.shape) && k < request.len && PackedAt(v, request, k, group)
    ensures AllFinish(op, last, value, v, request) ==> GroupResult(op, last, value, group).Ok?
  {
    hide ReduceView.Group, ReduceView.Valid, BatchRequest.Coords, BatchRequest.Valid, Slice.Coords, GroupResult;
    if AllFinish(op, last, value, v, request) {
      assert FinishesOutput(op, last, value, v, request, k);
    }
  }

  lemma FinishesAt<T, S, R>(op: Op<T, S>, last: Finisher<S, R>, value: Coord -> T, v: ReduceView, request: BatchRequest,
                            from: nat, groups: seq<Slice>)
    requires v.Valid() && request.Valid(v.mapping.shape) && Packed(v, request, from, groups)
    ensures AllFinish(op, last, value, v, request) ==>
              forall j :: 0 <= j < |groups| ==> GroupResult(op, last, value, groups[j]).Ok?
  {
    hide ReduceView.Group, ReduceView.Valid, BatchRequest.Coords, BatchRequest.Valid, PackedAt, AllFinish, GroupResult;
    forall j | 0 <= j < |groups|
      ensures AllFinish(op, last, value, v, request) ==> GroupResult(op, last, value, groups[j]).Ok?
    {
      FinishAt(op, last, value, v, request, from + j, groups[j]);
    }
  }

  /** Output `i` of the request has this result. */
  ghost predicate SummaryAt<T, S, R>(op: Op<T, S>, last: Finisher<S, R>, value: Coord -> T, v: ReduceView,
                                     request: BatchRequest, i: nat, result: R)
    requires v.Valid() && request.Valid(v.mapping.shape) && i < request.len
  {
    && InShape(request.Coords(v.mapping.shape)[i], v.mapping.shape)
    && Ok(result) == GroupResult(op, last, value, v.Group(request.Coords(v.mapping.shape)[i]))
  }

  lemma GroupShape(v: ReduceView, request: BatchRequest, k: nat, group: Slice)
    requires v.Valid() && request.Valid(v.mapping.shape) && k < request.len && PackedAt(v, request, k, group)
    ensures group.Valid() && group.len > 0
    ensures group.shape == v.shape && group.len == v.GroupLen() && StrictAxes(group)
  {
    hide BatchRequest.Valid, BatchRequest.Coords, CoordinateMap.Offset, Decode, Size, ReduceView.OutShape;
    var c := request.Coords(v.mapping.shape)[k];
    var out := Decode(v.mapping.Offset(c), v.OutShape());
    assert group.axes == v.GroupAxes(out);
    assert Lens(v.GroupAxes(out)) == v.GroupLens();
  }

  /** Outputs `from..` of the request have these results. */
  ghost predicate Summarised<T, S, R>(op: Op<T, S>, last: Finisher<S, R>, value: Coord -> T, v: ReduceView,
                                      request: BatchRequest, from: nat, results: seq<R>)
    requires v.Valid() && request.Valid(v.mapping.shape) && from + |results| <= request.len
  {
    forall j :: 0 <= j < |results| ==> SummaryAt(op, last, value, v, request, from + j, results[j])
  }

  lemma NoneSummarised<T, S, R>(op: Op<T, S>, last: Finisher<S, R>, value: Coord -> T, v: ReduceView,
                                request: BatchRequest)
    requires v.Valid() && request.Valid(v.mapping.shape)
    ensures Summarised(op, last, value, v, request, 0, [])
  {
    hide ReduceView.Valid, BatchRequest.Valid, SummaryAt;
  }

  lemma SummarisedMore<T, S, R>(op: Op<T, S>, last: Finisher<S, R>, value: Coord -> T, v: ReduceView,
                                request: BatchRequest, a: seq<R>, b: seq<R>)
    requires v.Valid() && request.Valid(v.mapping.shape) && |a| + |b| <= request.len
    requires Summarised(op, last, value, v, request, 0, a) && Summarised(op, last, value, v, request, |a|, b)
    ensures Summarised(op, last, value, v, request, 0, a + b)
  {
    hide ReduceView.Valid, BatchRequest.Valid, SummaryAt;
    forall j | 0 <= j < |a + b| ensures SummaryAt(op, last, value, v, request, 0 + j, (a + b)[j]) {
      if j < |a| {
        assert SummaryAt(op, last, value, v, request, 0 + j, a[j]);
      } else {
        assert SummaryAt(op, last, value, v, request, |a| + (j - |a|), b[j - |a|]);
      }
    }
  }

  lemma SummarisedAll<T, S, R>(op: Op<T, S>, last: Finisher<S, R>, value: Coord -> T, v: ReduceView,
                               request: BatchRequest, out: seq<R>)
    requires v.Valid() && request.Valid(v.mapping.shape) && |out| == request.len
    requires Summarised(op, last, value, v, request, 0, out)
    ensures AllFinish(op, last, value, v, request)
    ensures forall i :: 0 <= i < request.len ==>
              InShape(request.Coords(v.mapping.shape)[i], v.mapping.shape)
              && Ok(out[i]) == GroupResult(op, last, value, v.Group(request.Coords(v.mapping.shape)[i]))
  {
    hide ReduceView.Valid, ReduceView.Group, BatchRequest.Valid, BatchRequest.Coords, GroupResult;
    forall i | 0 <= i < request.len
      ensures InShape(request.Coords(v.mapping.shape)[i], v.mapping.shape)
      ensures Ok(out[i]) == GroupResult(op, last, value, v.Group(request.Coords(v.mapping.shape)[i]))
    {
      assert SummaryAt(op, last, value, v, request, 0 + i, out[i]);
    }
  }

  lemma SummaryOf<T, S, R>(op: Op<T, S>, last: Finisher<S, R>, value: Coord -> T, v: ReduceView, request: BatchRequest,
                           k: nat, group: Slice, result: R)
    requires v.Valid() && request.Valid(v.mapping.shape) && k < request.len && PackedAt(v, request, k, group)
    requires Ok(result) == GroupResult(op, last, value, group)
    ensures Summarised(op, last, value, v, request, k, [result])
  {
    hide ReduceView.Group, ReduceView.Valid, BatchRequest.Coords, BatchRequest.Valid, Slice.Coords, GroupResult;
  }

  lemma SummariesAt<T, S, R>(op: Op<T, S>, last: Finisher<S, R>, value: Coord -> T, v: ReduceView,
                             request: BatchRequest, from: nat, groups: seq<Slice>, results: seq<R>)
    requires v.Valid() && request.Valid(v.mapping.shape) && Packed(v, request, from, groups) && |results| == |groups|
    requires forall j :: 0 <= j < |groups| ==> Ok(results[j]) == GroupResult(op, last, value, groups[j])
    ensures from + |groups| <= request.len && Summarised(op, last, value, v, request, from, results)
  {
    hide ReduceView.Group, ReduceView.Valid, BatchRequest.Coords, BatchRequest.Valid, Slice.Coords, GroupResult;
    forall j | 0 <= j < |groups| ensures SummaryAt(op, last, value, v, request, from + j, results[j]) {
      assert PackedAt(v, request, from + j, groups[j]);
    }
  }
}
