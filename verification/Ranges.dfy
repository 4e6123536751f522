/** Ranges as callers write them, and the selections sparse reads make of them. */
module Ranges {
  import opened Radix
  import opened Wrappers
  import opened Request
  import opened Schema
  import opened KeyScans
  import opened Transforms
  import opened Slices
  import opened SliceChunks
  import opened OrderedTraversal

  // ---------------------------------------------------------------------
  // Validation
  // ---------------------------------------------------------------------

  /** What range validation accepts on a dimension; selections may be empty. */
  predicate BoundFits(bound: AxisRange, dim: nat) {
    match bound
    case At(index) => index < dim
    case In(start, stop, step) => step > 0 && start <= stop <= dim
    case Of(indices) => forall i :: 0 <= i < |indices| ==> indices[i] < dim
  }

  /** Steps are machine integers. */
  predicate MachineRange(range: seq<AxisRange>) {
    forall i :: 0 <= i < |range| && range[i].In? ==> range[i].step <= U64_MAX
  }

  predicate RangeFits(shape: seq<nat>, range: seq<AxisRange>) {
    |range| == |shape| && forall i :: 0 <= i < |range| ==> BoundFits(range[i], shape[i])
  }

  function RangeLens(range: seq<AxisRange>): (lens: seq<nat>)
    ensures |lens| == |range| && forall i :: 0 <= i < |range| ==> lens[i] == BoundLen(range[i])
  {
    seq(|range|, i requires 0 <= i < |range| => BoundLen(range[i]))
  }

  /** An index a bound selects. */
  predicate Selects(bound: AxisRange, x: nat) {
    match bound
    case At(index) => x == index
    case In(start, stop, step) => step > 0 && start <= x < stop && (x - start) % step == 0
    case Of(indices) => x in indices
  }

  /** A coordinate a range selects. */
  predicate InRange(c: Coord, range: seq<AxisRange>) {
    |c| == |range| && forall i :: 0 <= i < |c| ==> Selects(range[i], c[i])
  }

  /** Axis by axis: the pinned index, the steps of an interval, or a listed index. */
  lemma InRangeIs(c: Coord, range: seq<AxisRange>)
    ensures InRange(c, range) <==> |c| == |range| && forall i :: 0 <= i < |c| ==>
              match range[i]
              case At(index) => c[i] == index
              case In(start, stop, step) => step > 0 && start <= c[i] < stop && (c[i] - start) % step == 0
              case Of(indices) => c[i] in indices
  {}

  /** The bounds of a range, one per axis, that stay inside it. */
  lemma RangeFitsIs(shape: seq<nat>, range: seq<AxisRange>)
    ensures RangeFits(shape, range) <==>
              |range| == |shape| && forall i :: 0 <= i < |range| ==>
                match range[i]
                case At(index) => index < shape[i]
                case In(start, stop, step) => step > 0 && start <= stop <= shape[i]
                case Of(indices) => forall k :: 0 <= k < |indices| ==> indices[k] < shape[i]
  {
    if |range| == |shape| {
      forall i | 0 <= i < |range|
        ensures BoundFits(range[i], shape[i]) <==>
                  match range[i]
                  case At(index) => index < shape[i]
                  case In(start, stop, step) => step > 0 && start <= stop <= shape[i]
                  case Of(indices) => forall k :: 0 <= k < |indices| ==> indices[k] < shape[i]
      {
      }
    }
  }

  /** `validate_range`: every bound inside its axis, and a countable number of coordinates. A range
      with an empty axis counts none, whatever the others would multiply to. */
  method ValidateRange(shape: seq<nat>, range: seq<AxisRange>) returns (r: Result<(seq<nat>, nat)>)
    ensures r.Ok? <==>
              && |range| == |shape| && Size(RangeLens(range)) <= U64_MAX
              && forall i :: 0 <= i < |range| ==>
                   match range[i]
                   case At(index) => index < shape[i]
                   case In(start, stop, step) => step > 0 && start <= stop <= shape[i]
                   case Of(indices) => forall k :: 0 <= k < |indices| ==> indices[k] < shape[i]
    ensures r.Ok? ==> RangeFits(shape, range)
    ensures r.Ok? ==> r.value == (RangeLens(range), Size(RangeLens(range)))
    ensures r.Err? ==> r.error == InvalidLayout
  {
    hide Size, BoundFits, BoundLen;
    RangeFitsIs(shape, range);
    if |range| != |shape| {
      return Err(InvalidLayout);
    }
    var lens: seq<nat> := [];
    for i := 0 to |range|
      invariant |lens| == i && forall k :: 0 <= k < i ==> BoundFits(range[k], shape[k]) && lens[k] == BoundLen(range[k])
    {
      if !BoundFits(range[i], shape[i]) {
        return Err(InvalidLayout);
      }
      lens := lens + [BoundLen(range[i])];
    }
    assert lens == RangeLens(range);
    if i :| 0 <= i < |lens| && lens[i] == 0 {
      ZeroSize(lens, i);
      return Ok((lens, 0));
    }
    var product := CheckedProduct(lens);
    if product.None? {
      return Err(InvalidLayout);
    }
    return Ok((lens, product.value));
  }

  // ---------------------------------------------------------------------
  // Sparse selections
  // ---------------------------------------------------------------------

  /** `sparse_range`: explicit selections become sorted sets. */
  function SparseBound(bound: AxisRange): AxisRange {
    match bound
    case At(index) => bound
    case In(_, _, _) => bound
    case Of(indices) => Of(SortDedup(indices))
  }

  function SparseRange(range: seq<AxisRange>): (r: seq<AxisRange>)
    ensures |r| == |range| && forall i :: 0 <= i < |r| ==> r[i] == SparseBound(range[i])
  {
    seq(|range|, i requires 0 <= i < |range| => SparseBound(range[i]))
  }

  /** Sorting a selection does not change what it selects. */
  lemma SparseBoundSelects(bound: AxisRange, dim: nat, x: nat)
    ensures Selects(SparseBound(bound), x) <==> Selects(bound, x)
    ensures BoundFits(SparseBound(bound), dim) <==> BoundFits(bound, dim)
  {
    if bound.Of? {
      hide SortDedup;
      var sorted := SortDedup(bound.indices);
      SortedMembers(bound.indices);
      if BoundFits(bound, dim) {
        forall i | 0 <= i < |sorted| ensures sorted[i] < dim {
          assert sorted[i] in sorted;
        }
      }
      if BoundFits(Of(sorted), dim) {
        forall i | 0 <= i < |bound.indices| ensures bound.indices[i] < dim {
          assert bound.indices[i] in sorted;
        }
      }
    }
  }

  /** The axis of an accepted bound is valid and counts what the bound counts. */
  lemma AxisOfBoundValid(bound: AxisRange, dim: nat)
    requires BoundFits(bound, dim) && (bound.In? ==> bound.step <= U64_MAX)
    ensures AxisOfBound(bound).Valid(dim) && AxisOfBound(bound).Len() == BoundLen(bound)
  {
    if bound.In? && BoundLen(bound) > 0 {
      CeilDivBound(bound.stop - bound.start, bound.step, BoundLen(bound) - 1);
    }
  }

  predicate OnAxis(axis: Axis, x: nat) {
    exists k :: 0 <= k < axis.Len() && axis.At(k) == x
  }

  /** The axis of an accepted bound holds exactly the selected indices. */
  lemma AxisHolds(bound: AxisRange, dim: nat, x: nat)
    requires BoundFits(bound, dim)
    ensures OnAxis(AxisOfBound(bound), x) <==> Selects(bound, x)
  {
    var axis := AxisOfBound(bound);
    match bound
    case At(index) =>
      assert axis.At(0) == index;
    case Of(indices) =>
      if x in indices {
        var k :| 0 <= k < |indices| && indices[k] == x;
        assert axis.At(k) == x;
      }
    case In(start, stop, step) =>
      if Selects(bound, x) {
        var k := (x - start) / step;
        assert x == start + step * k;
        CeilDivBound(stop - start, step, k);
        assert axis.At(k) == x;
      }
      if k :| 0 <= k < axis.Len() && axis.At(k) == x {
        CeilDivBound(stop - start, step, k);
        assert x - start == step * k;
        StepMultiple(k, step);
      }
  }

  lemma StepMultiple(k: nat, step: nat)
    requires step > 0
    ensures (step * k) % step == 0
  {
    DivUnique(k, 0, step);
  }

  /** A selection holds exactly the coordinates whose every index is on its axis. */
  lemma SelectionHolds(axes: seq<Axis>, c: Coord)
    ensures c in Cartesian(axes).Coords() <==> |c| == |axes| && forall i :: 0 <= i < |c| ==> OnAxis(axes[i], c[i])
  {
    hide Size, Decode, Flat, Axis.At;
    var lens := Lens(axes);
    if c in Cartesian(axes).Coords() {
      var k :| 0 <= k < Cartesian(axes).Len() && Cartesian(axes).Coords()[k] == c;
      EmptySize(lens);
      DecodeInShape(k, lens);
      forall i | 0 <= i < |c| ensures OnAxis(axes[i], c[i]) {
        assert c[i] == axes[i].At(Decode(k, lens)[i]);
      }
    }
    if |c| == |axes| && forall i :: 0 <= i < |c| ==> OnAxis(axes[i], c[i]) {
      var d: Coord := seq(|c|, i requires 0 <= i < |c| => IndexOn(axes[i], c[i]));
      assert InShape(d, lens);
      assert Pick(axes, d) == c;
      CoordinateOf(axes, d);
      assert Cartesian(axes).Coords()[Flat(d, lens)] == c;
    }
  }

  ghost function IndexOn(axis: Axis, x: nat): (k: nat)
    requires OnAxis(axis, x)
    ensures k < axis.Len() && axis.At(k) == x
  {
    var k :| 0 <= k < axis.Len() && axis.At(k) == x;
    k
  }

  /** The axis of a sparse bound is strictly increasing. */
  lemma SparseAxisStrict(bound: AxisRange, dim: nat)
    requires BoundFits(bound, dim)
    ensures StrictAxis(AxisOfBound(SparseBound(bound)))
  {
    match bound
    case At(_) =>
    case Of(indices) =>
      SortedMembers(indices);
    case In(start, stop, step) =>
      var axis := AxisOfBound(bound);
      forall i, j | 0 <= i < j < axis.Len() ensures axis.At(i) < axis.At(j) {
        MulMonotone(i + 1, j, step);
      }
  }

  /** The natural axis order. */
  function RowOrder(rank: nat): (order: seq<nat>)
    ensures |order| == rank && forall i :: 0 <= i < rank ==> order[i] == i
  {
    seq(rank, i requires 0 <= i < rank => i)
  }

  /** What a sparse read accepts of its caller. */
  predicate SparseAccepts(shape: seq<nat>, sparse: bool, range: seq<AxisRange>, order: seq<nat>) {
    && order == RowOrder(|shape|) && sparse && shape != [] && Positive(shape)
    && RangeFits(shape, range) && Size(RangeLens(SparseRange(range))) <= U64_MAX
  }

  /** `sparse_slice`: the selection of an accepted range is sorted and free of repetitions on every
      axis, and holds exactly the coordinates the caller's range selects. */
  method SparseSlice(shape: seq<nat>, sparse: bool, range: seq<AxisRange>, order: seq<nat>) returns (r: Result<Slice>)
    requires MachineRange(range)
    ensures r.Ok? <==>
              && |order| == |shape| && (forall i :: 0 <= i < |order| ==> order[i] == i)
              && sparse && shape != [] && Positive(shape)
              && RangeFits(shape, range) && Size(RangeLens(SparseRange(range))) <= U64_MAX
    ensures r.Ok? <==> SparseAccepts(shape, sparse, range, order)
    ensures r.Ok? ==> r.value.Valid() && r.value.shape == shape && StrictAxes(r.value)
    ensures r.Ok? ==> r.value.axes == AxesOfRange(SparseRange(range))
    ensures r.Ok? ==> forall c :: c in r.value.Coords() <==> |c| == |range| && forall i :: 0 <= i < |c| ==>
              match range[i]
              case At(index) => c[i] == index
              case In(start, stop, step) => step > 0 && start <= c[i] < stop && (c[i] - start) % step == 0
              case Of(indices) => c[i] in indices
  {
    hide Size, InRange, BoundFits, BoundLen, SparseBound, AxisOfBound, Axis.Valid, Axis.Len, StrictAxis, Slice.Coords,
         Selects, OnAxis;
    SparseRangeFits(shape, range);
    if order != RowOrder(|shape|) {
      return Err(Unsupported);
    }
    if !sparse {
      return Err(Unsupported);
    }
    if shape == [] || exists i :: 0 <= i < |shape| && shape[i] == 0 {
      return Err(InvalidSchema);
    }
    var sorted := SparseRange(range);
    RangeFitsIs(shape, sorted);
    var counted := ValidateRange(shape, sorted);
    if counted.Err? {
      return Err(counted.error);
    }
    var axes := AxesOfRange(sorted);
    SparseAxes(shape, range);
    var built := NewSlice(shape, axes);
    SparseSelection(shape, range, built.value);
    SelectionIs(range, built.value);
    return built;
  }

  lemma SelectionIs(range: seq<AxisRange>, slice: Slice)
    requires forall c :: c in slice.Coords() <==> InRange(c, range)
    ensures forall c :: c in slice.Coords() <==> |c| == |range| && forall i :: 0 <= i < |c| ==>
              match range[i]
              case At(index) => c[i] == index
              case In(start, stop, step) => step > 0 && start <= c[i] < stop && (c[i] - start) % step == 0
              case Of(indices) => c[i] in indices
  {
    hide InRange, Slice.Coords;
    forall c
      ensures c in slice.Coords() <==> |c| == |range| && forall i :: 0 <= i < |c| ==>
                match range[i]
                case At(index) => c[i] == index
                case In(start, stop, step) => step > 0 && start <= c[i] < stop && (c[i] - start) % step == 0
                case Of(indices) => c[i] in indices
    {
      InRangeIs(c, range);
    }
  }

  lemma SparseRangeFits(shape: seq<nat>, range: seq<AxisRange>)
    ensures RangeFits(shape, SparseRange(range)) <==> RangeFits(shape, range)
  {
    hide BoundFits, SparseBound, Selects;
    if |range| == |shape| {
      forall i | 0 <= i < |range| ensures BoundFits(SparseRange(range)[i], shape[i]) <==> BoundFits(range[i], shape[i]) {
        SparseBoundSelects(range[i], shape[i], 0);
      }
      if RangeFits(shape, SparseRange(range)) {
        assert forall i :: 0 <= i < |range| ==> BoundFits(SparseRange(range)[i], shape[i]);
      }
    }
  }

  lemma SparseAxes(shape: seq<nat>, range: seq<AxisRange>)
    requires RangeFits(shape, SparseRange(range)) && MachineRange(range)
    ensures AxesValid(AxesOfRange(SparseRange(range)), shape)
    ensures Lens(AxesOfRange(SparseRange(range))) == RangeLens(SparseRange(range))
  {
    hide BoundFits, AxisOfBound, BoundLen, Axis.Valid, Axis.Len;
    var sorted := SparseRange(range);
    forall i | 0 <= i < |sorted|
      ensures AxisOfBound(sorted[i]).Valid(shape[i]) && AxisOfBound(sorted[i]).Len() == BoundLen(sorted[i])
    {
      AxisOfBoundValid(sorted[i], shape[i]);
    }
  }

  lemma SparseSelection(shape: seq<nat>, range: seq<AxisRange>, slice: Slice)
    requires RangeFits(shape, range) && slice.axes == AxesOfRange(SparseRange(range))
    ensures StrictAxes(slice) && forall c :: c in slice.Coords() <==> InRange(c, range)
  {
    hide BoundFits, SparseBound, AxisOfBound, BoundLen, Axis.Valid, Axis.Len, StrictAxis, Selects, OnAxis,
         Cartesian.Coords;
    forall i | 0 <= i < |range| ensures StrictAxis(slice.axes[i]) {
      SparseAxisStrict(range[i], shape[i]);
    }
    forall c: Coord ensures c in slice.Coords() <==> InRange(c, range) {
      SelectionHolds(slice.axes, c);
      if |c| == |range| {
        forall i | 0 <= i < |c| ensures OnAxis(slice.axes[i], c[i]) <==> Selects(range[i], c[i]) {
          SparseBoundSelects(range[i], shape[i], c[i]);
          AxisHolds(SparseBound(range[i]), shape[i], c[i]);
        }
      }
    }
  }

  // ---------------------------------------------------------------------
  // Ranges as slices of a map
  // ---------------------------------------------------------------------

  /** A validated range without empty axes is an acceptable slice of as many elements. */
  lemma {:induction false} RangeSlices(shape: seq<nat>, range: seq<AxisRange>)
    requires |range| == |shape|
    ensures SliceAccepts(range, shape) <==> RangeFits(shape, range) && Positive(RangeLens(range))
    ensures SliceAccepts(range, shape) ==> Size(SliceShape(range)) == Size(RangeLens(range))
    ensures |SliceShape(range)| <= |range|
    decreases |range|
  {
    hide Size, AxisRange.Extent, AxisRange.Accepts, BoundFits, BoundLen;
    if range == [] {
      assert SliceShape(range) == RangeLens(range) == [];
    } else {
      hide SliceAccepts, RangeFits, Positive;
      var n := |range| - 1;
      var front, last := range[..n], range[n];
      RangeSlices(shape[..n], front);
      assert range == front + [last] && shape == shape[..n] + [shape[n]];
      AcceptsSnoc(front, shape[..n], last, shape[n]);
      assert RangeLens(range) == RangeLens(front) + [BoundLen(last)];
      PositiveConcat(RangeLens(front), [BoundLen(last)]);
      RangeFitsSnoc(shape[..n], front, shape[n], last);
      BoundAccepts(last, shape[n]);
      SizeConcat(SliceShape(front), last.Extent());
      SizeConcat(RangeLens(front), [BoundLen(last)]);
    }
  }

  lemma RangeFitsSnoc(shape: seq<nat>, range: seq<AxisRange>, dim: nat, bound: AxisRange)
    requires |range| == |shape|
    ensures RangeFits(shape + [dim], range + [bound]) <==> RangeFits(shape, range) && BoundFits(bound, dim)
  {
    hide BoundFits;
    var all, dims := range + [bound], shape + [dim];
    if RangeFits(dims, all) {
      forall i | 0 <= i < |range| ensures BoundFits(range[i], shape[i]) {
        assert BoundFits(all[i], dims[i]);
      }
      assert BoundFits(all[|range|], dims[|range|]);
    }
  }

  lemma BoundAccepts(bound: AxisRange, dim: nat)
    ensures bound.Accepts(dim) <==> BoundFits(bound, dim) && Positive([BoundLen(bound)])
    ensures bound.Accepts(dim) ==> Size(bound.Extent()) == Size([BoundLen(bound)])
    ensures |bound.Extent()| <= 1
  {
    assert [BoundLen(bound)][0] == BoundLen(bound);
    if bound.In? && bound.step > 0 && bound.start <= bound.stop {
      CeilDivBound(bound.stop - bound.start, bound.step, 0);
    }
    if bound.At? {
      assert Size([1]) == 1 * Size([]);
    }
  }
}
