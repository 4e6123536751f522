/** The seven geometric transforms of a coordinate map.

    Each transform is proved against its geometric meaning: a function from new
    logical coordinates to source ones under which the flat offset does not change. */
module Transforms {
  import opened Radix
  import opened Wrappers
  import opened Request
  import opened Mapping

  // ---------------------------------------------------------------------
  // Geometric index maps built axis by axis
  // ---------------------------------------------------------------------

  /** How one axis of the new shape relates to one axis of the source shape. */
  datatype Step =
    | Fixed(index: nat)                    // source axis pinned, no new axis
    | Affine(start: nat, stride: nat)      // start + stride * x
    | Picked(indices: seq<nat>)            // indices[x]
    | Reversed(dim: nat)                   // dim - 1 - x
    | Collapsed                            // every new coordinate reads coordinate 0
    | Fresh                                // new axis without a source one
  {
    predicate Consumes() {
      !Fixed?
    }

    predicate Yields() {
      !Fresh?
    }

    function At(x: nat): int {
      match this
      case Fixed(index) => index
      case Affine(start, stride) => start + stride * x
      case Picked(indices) => if x < |indices| then indices[x] else -1
      case Reversed(dim) => dim - 1 - x
      case Collapsed => 0
      case Fresh => -1
    }
  }

  function Kept(plan: seq<Step>): nat {
    if plan == [] then 0
    else Kept(plan[..|plan| - 1]) + if plan[|plan| - 1].Consumes() then 1 else 0
  }

  /** The source coordinate read by a view coordinate. */
  function Phi(plan: seq<Step>, c: Coord): seq<int>
    requires |c| == Kept(plan)
  {
    if plan == [] then []
    else
      var step := plan[|plan| - 1];
      var x := if step.Consumes() then c[|c| - 1] else 0;
      var front := if step.Consumes() then c[..|c| - 1] else c;
      Phi(plan[..|plan| - 1], front) + if step.Yields() then [step.At(x)] else []
  }

  /** `view` reads exactly what `source` reads, through the index map of `plan`. */
  ghost predicate Reads(view: CoordinateMap, source: CoordinateMap, plan: seq<Step>)
    requires view.Valid() && source.Valid()
  {
    && |view.shape| == Kept(plan)
    && forall c: Coord :: InShape(c, view.shape) ==> ReadsAt(view, source, plan, c)
  }

  ghost predicate ReadsAt(view: CoordinateMap, source: CoordinateMap, plan: seq<Step>, c: Coord)
    requires view.Valid() && source.Valid() && InShape(c, view.shape) && |view.shape| == Kept(plan)
  {
    IntInShape(Phi(plan, c), source.shape) && view.Offset(c) == source.Offset(AsCoord(Phi(plan, c)))
  }

  function Append(m: CoordinateMap, axis: AxisContrib, dim: nat): CoordinateMap {
    CoordinateMap(m.base, m.axes + [axis], m.shape + [dim])
  }

  function Shift(m: CoordinateMap, delta: int): CoordinateMap {
    m.(base := m.base + delta)
  }

  function Prefix(m: CoordinateMap, i: nat): CoordinateMap
    requires i <= |m.axes| && i <= |m.shape|
  {
    CoordinateMap(m.base, m.axes[..i], m.shape[..i])
  }

  lemma OffsetSnoc(m: CoordinateMap, axis: AxisContrib, dim: nat, c: Coord, x: nat)
    requires m.Valid() && axis.Fits(dim) && InShape(c, m.shape) && x < dim
    ensures Append(m, axis, dim).Valid() && InShape(c + [x], Append(m, axis, dim).shape)
    ensures Append(m, axis, dim).Offset(c + [x]) == m.Offset(c) + axis.Contribution(x)
  {
    var v := Append(m, axis, dim).Contributions(c + [x]);
    assert v == m.Contributions(c) + [axis.Contribution(x)];
    SumConcat(m.Contributions(c), [axis.Contribution(x)]);
  }

  lemma OffsetShift(m: CoordinateMap, delta: int, c: Coord)
    requires m.Valid() && Shift(m, delta).Valid() && InShape(c, m.shape)
    ensures Shift(m, delta).Offset(c) == m.Offset(c) + delta
  {
    assert Shift(m, delta).Contributions(c) == m.Contributions(c);
  }

  lemma KeptSnoc(plan: seq<Step>, step: Step)
    ensures Kept(plan + [step]) == Kept(plan) + if step.Consumes() then 1 else 0
  {
    assert (plan + [step])[..|plan|] == plan;
  }

  lemma PhiSnoc(plan: seq<Step>, step: Step, c: Coord, x: nat)
    requires |c| == Kept(plan) && step.Consumes() && step.Yields()
    ensures Kept(plan + [step]) == Kept(plan) + 1
    ensures Phi(plan + [step], c + [x]) == Phi(plan, c) + [step.At(x)]
  {
    KeptSnoc(plan, step);
    assert (plan + [step])[..|plan|] == plan;
    assert (c + [x])[..|c|] == c;
  }

  /** Pin a source axis: its contribution moves into the base offset. */
  lemma StepFixed(view: CoordinateMap, source: CoordinateMap, plan: seq<Step>, axis: AxisContrib, dim: nat, index: nat)
    requires view.Valid() && source.Valid() && Reads(view, source, plan)
    requires axis.Fits(dim) && index < dim
    requires InI128(view.base + axis.Contribution(index))
    ensures Append(source, axis, dim).Valid() && Shift(view, axis.Contribution(index)).Valid()
    ensures Reads(Shift(view, axis.Contribution(index)), Append(source, axis, dim), plan + [Fixed(index)])
  {
    hide Phi, Kept, AxisContrib.Contribution, CoordinateMap.Offset;
    var delta := axis.Contribution(index);
    KeptSnoc(plan, Fixed(index));
    forall c: Coord | InShape(c, view.shape)
      ensures ReadsAt(Shift(view, delta), Append(source, axis, dim), plan + [Fixed(index)], c)
    {
      assert ReadsAt(view, source, plan, c);
      PhiFixed(plan, index, c);
      OffsetSnoc(source, axis, dim, AsCoord(Phi(plan, c)), index);
      OffsetShift(view, delta, c);
      assert AsCoord(Phi(plan + [Fixed(index)], c)) == AsCoord(Phi(plan, c)) + [index];
    }
  }

  lemma PhiFixed(plan: seq<Step>, index: nat, c: Coord)
    requires |c| == Kept(plan)
    ensures Kept(plan + [Fixed(index)]) == Kept(plan)
    ensures Phi(plan + [Fixed(index)], c) == Phi(plan, c) + [index]
  {
    KeptSnoc(plan, Fixed(index));
    assert (plan + [Fixed(index)])[..|plan|] == plan;
  }

  /** Replace a source axis by a new axis reading it through `step`. */
  lemma StepMapped(view: CoordinateMap, source: CoordinateMap, plan: seq<Step>, step: Step,
                   axis: AxisContrib, dim: nat, axis': AxisContrib, dim': nat, delta: int)
    requires view.Valid() && source.Valid() && Reads(view, source, plan)
    requires step.Consumes() && step.Yields()
    requires axis.Fits(dim) && axis'.Fits(dim') && InI128(view.base + delta)
    requires forall x: nat :: x < dim' ==>
               0 <= step.At(x) < dim && axis'.Contribution(x) + delta == axis.Contribution(step.At(x))
    ensures Append(source, axis, dim).Valid() && Append(Shift(view, delta), axis', dim').Valid()
    ensures Reads(Append(Shift(view, delta), axis', dim'), Append(source, axis, dim), plan + [step])
  {
    hide Step.At, Phi, Kept, AxisContrib.Contribution, CoordinateMap.Offset;
    var next := Append(Shift(view, delta), axis', dim');
    KeptSnoc(plan, step);
    forall c: Coord | InShape(c, next.shape)
      ensures ReadsAt(next, Append(source, axis, dim), plan + [step], c)
    {
      var front, x := c[..|c| - 1], c[|c| - 1];
      assert c == front + [x] && InShape(front, view.shape) && x < dim';
      assert ReadsAt(view, source, plan, front);
      PhiSnoc(plan, step, front, x);
      OffsetShift(view, delta, front);
      OffsetSnoc(Shift(view, delta), axis', dim', front, x);
      OffsetSnoc(source, axis, dim, AsCoord(Phi(plan, front)), step.At(x));
      assert AsCoord(Phi(plan + [step], c)) == AsCoord(Phi(plan, front)) + [step.At(x)];
    }
  }

  /** Add a new axis that contributes nothing. */
  lemma PhiFresh(plan: seq<Step>, c: Coord, x: nat)
    requires |c| == Kept(plan)
    ensures Kept(plan + [Fresh]) == Kept(plan) + 1
    ensures Phi(plan + [Fresh], c + [x]) == Phi(plan, c)
  {
    KeptSnoc(plan, Fresh);
    assert (plan + [Fresh])[..|plan|] == plan;
    assert (c + [x])[..|c|] == c;
    assert Phi(plan, c) + [] == Phi(plan, c);
  }

  lemma StepFresh(view: CoordinateMap, source: CoordinateMap, plan: seq<Step>, axis: AxisContrib, dim: nat)
    requires view.Valid() && source.Valid() && Reads(view, source, plan)
    requires axis.Fits(dim) && forall x: nat :: x < dim ==> axis.Contribution(x) == 0
    ensures Append(view, axis, dim).Valid()
    ensures Reads(Append(view, axis, dim), source, plan + [Fresh])
  {
    hide Phi, Kept, CoordinateMap.Offset;
    var next := Append(view, axis, dim);
    KeptSnoc(plan, Fresh);
    forall c: Coord | InShape(c, next.shape) ensures ReadsAt(next, source, plan + [Fresh], c) {
      var front, x := c[..|c| - 1], c[|c| - 1];
      assert c == front + [x] && InShape(front, view.shape) && x < dim;
      assert ReadsAt(view, source, plan, front);
      OffsetSnoc(view, axis, dim, front, x);
      PhiFresh(plan, front, x);
    }
  }

  lemma ReadsEmpty(base: int)
    requires InI128(base)
    ensures Reads(CoordinateMap(base, [], []), CoordinateMap(base, [], []), [])
  {
    var m := CoordinateMap(base, [], []);
    forall c: Coord | InShape(c, m.shape) ensures ReadsAt(m, m, [], c) {
      assert AsCoord(Phi([], c)) == c;
    }
  }

  /** Reading through in-range coordinates stays in range. */
  lemma ReadsInRange(view: CoordinateMap, source: CoordinateMap, plan: seq<Step>, size: nat)
    requires view.Valid() && source.Valid() && Reads(view, source, plan) && source.InRange(size)
    ensures view.InRange(size)
  {
    forall c: Coord | InShape(c, view.shape) ensures 0 <= view.Offset(c) < size {
      assert ReadsAt(view, source, plan, c);
    }
  }

  lemma PrefixSnoc(m: CoordinateMap, i: nat)
    requires m.Valid() && i < |m.axes|
    ensures Prefix(m, i).Valid() && Prefix(m, i + 1) == Append(Prefix(m, i), m.axes[i], m.shape[i])
  {
    assert m.axes[..i + 1] == m.axes[..i] + [m.axes[i]];
    assert m.shape[..i + 1] == m.shape[..i] + [m.shape[i]];
  }

  lemma PrefixFull(m: CoordinateMap)
    requires m.Valid()
    ensures Prefix(m, 0) == CoordinateMap(m.base, [], []) && Prefix(m, |m.axes|) == m
  {
    assert m.axes[..|m.axes|] == m.axes && m.shape[..|m.axes|] == m.shape;
  }

  // ---------------------------------------------------------------------
  // Slicing
  // ---------------------------------------------------------------------

  datatype AxisRange =
    | At(index: nat)
    | In(start: nat, stop: nat, step: nat)
    | Of(indices: seq<nat>)
  {
    /** What slicing accepts on a dimension; empty selections are rejected. */
    predicate Accepts(dim: nat) {
      match this
      case At(index) => index < dim
      case In(start, stop, step) => step > 0 && start < stop <= dim
      case Of(indices) => indices != [] && forall i :: 0 <= i < |indices| ==> indices[i] < dim
    }

    function Plan(): Step {
      match this
      case At(index) => Fixed(index)
      case In(start, _, step) => Affine(start, step)
      case Of(indices) => Picked(indices)
    }

    /** The dimension of the sliced axis, when one remains. */
    function Extent(): seq<nat> {
      match this
      case At(_) => []
      case In(start, stop, step) => [if step == 0 || stop <= start then 0 else CeilDiv(stop - start, step)]
      case Of(indices) => [|indices|]
    }
  }

  function SlicePlan(range: seq<AxisRange>): (p: seq<Step>)
    ensures |p| == |range|
    ensures forall i :: 0 <= i < |p| ==> p[i] == range[i].Plan()
  {
    seq(|range|, i requires 0 <= i < |range| => range[i].Plan())
  }

  function SliceShape(range: seq<AxisRange>): seq<nat> {
    if range == [] then [] else SliceShape(range[..|range| - 1]) + range[|range| - 1].Extent()
  }

  predicate SliceAccepts(range: seq<AxisRange>, shape: seq<nat>) {
    |range| == |shape| && forall i :: 0 <= i < |range| ==> range[i].Accepts(shape[i])
  }

  /** How many indices a bound selects. */
  function BoundLen(bound: AxisRange): nat {
    match bound
    case At(_) => 1
    case In(start, stop, step) => if step == 0 || stop < start then 0 else CeilDiv(stop - start, step)
    case Of(indices) => |indices|
  }

  /** The selection of one axis. */
  function AxisOfBound(bound: AxisRange): Axis {
    match bound
    case At(index) => Span(index, 1, 1)
    case In(start, _, step) => Span(start, step, BoundLen(bound))
    case Of(indices) => Axis.Selected(indices)
  }

  function AxesOfRange(range: seq<AxisRange>): (axes: seq<Axis>)
    ensures |axes| == |range| && forall i :: 0 <= i < |axes| ==> axes[i] == AxisOfBound(range[i])
  {
    seq(|range|, i requires 0 <= i < |range| => AxisOfBound(range[i]))
  }

  /** What a bound selects, index by index and in order. */
  lemma BoundSelects(bound: AxisRange, k: nat)
    ensures bound.At? ==> AxisOfBound(bound).Len() == 1 && AxisOfBound(bound).At(0) == bound.index
    ensures bound.In? && bound.step > 0 && bound.start <= bound.stop ==>
              && (k < AxisOfBound(bound).Len() <==> bound.start + bound.step * k < bound.stop)
              && (k < AxisOfBound(bound).Len() ==> AxisOfBound(bound).At(k) == bound.start + bound.step * k)
    ensures bound.Of? ==> AxisOfBound(bound).Len() == |bound.indices|
    ensures bound.Of? && k < |bound.indices| ==> AxisOfBound(bound).At(k) == bound.indices[k]
  {
    if bound.In? && bound.step > 0 && bound.start <= bound.stop {
      CeilDivBound(bound.stop - bound.start, bound.step, k);
    }
  }

  /** The bounds before `i` that are not pinned. */
  ghost function OpenBefore(range: seq<AxisRange>, i: nat): set<nat>
    requires i <= |range|
  {
    set k: nat | k < i && !range[k].At?
  }

  lemma OpenNext(range: seq<AxisRange>, n: nat)
    requires n < |range|
    ensures |OpenBefore(range, n + 1)| == |OpenBefore(range, n)| + if range[n].At? then 0 else 1
  {
    var before, after := OpenBefore(range, n), OpenBefore(range, n + 1);
    if range[n].At? {
      assert after == before;
    } else {
      assert after == before + {n};
    }
  }

  lemma ShapeNext(range: seq<AxisRange>, n: nat)
    requires n < |range|
    ensures SliceShape(range[..n + 1]) == SliceShape(range[..n]) + range[n].Extent()
  {
    assert range[..n + 1][..n] == range[..n];
  }

  lemma {:induction false} OpenLength(range: seq<AxisRange>, n: nat)
    requires n <= |range|
    ensures |SliceShape(range[..n])| == |OpenBefore(range, n)|
  {
    hide SliceShape, OpenBefore;
    if n == 0 {
      OpenNone(range);
    } else {
      OpenLength(range, n - 1);
      OpenNext(range, n - 1);
      ShapeNext(range, n - 1);
    }
  }

  lemma OpenNone(range: seq<AxisRange>)
    ensures SliceShape(range[..0]) == [] && OpenBefore(range, 0) == {}
  {
  }

  lemma {:induction false} ShapePrefix(range: seq<AxisRange>, i: nat, n: nat)
    requires i < n <= |range|
    ensures SliceShape(range[..i]) + range[i].Extent() <= SliceShape(range[..n])
    decreases n
  {
    hide SliceShape, AxisRange.Extent;
    ShapeNext(range, n - 1);
    if i < n - 1 {
      ShapePrefix(range, i, n - 1);
    }
  }

  /** The shape of a slice: one axis for every bound that is not pinned, in order, as long as what it selects. */
  lemma SliceShapeIs(range: seq<AxisRange>, i: nat)
    requires i < |range|
    ensures |SliceShape(range)| == |set k: nat | k < |range| && !range[k].At?|
    ensures !range[i].At? ==>
              var slot := |set k: nat | k < i && !range[k].At?|;
              slot < |SliceShape(range)| && SliceShape(range)[slot] == BoundLen(range[i])
  {
    hide SliceShape;
    assert range[..|range|] == range;
    OpenLength(range, |range|);
    OpenLength(range, i);
    ShapePrefix(range, i, |range|);
    assert OpenBefore(range, i) == set k: nat | k < i && !range[k].At?;
    if !range[i].At? {
      assert (SliceShape(range[..i]) + range[i].Extent())[|OpenBefore(range, i)|] == BoundLen(range[i]);
    }
  }

  /** The indices of a selection that a view coordinate stands for: a pinned axis has only index 0. */
  function Expanded(range: seq<AxisRange>, c: Coord): (d: Coord)
    requires |c| == |SliceShape(range)|
    ensures |d| == |range|
  {
    if range == [] then []
    else
      var n := |range| - 1;
      if range[n].At? then Expanded(range[..n], c) + [0] else Expanded(range[..n], c[..|c| - 1]) + [c[|c| - 1]]
  }

  lemma AxesSnoc(range: seq<AxisRange>, bound: AxisRange)
    ensures AxesOfRange(range + [bound]) == AxesOfRange(range) + [AxisOfBound(bound)]
    ensures Lens(AxesOfRange(range + [bound])) == Lens(AxesOfRange(range)) + [AxisOfBound(bound).Len()]
    ensures SlicePlan(range + [bound]) == SlicePlan(range) + [bound.Plan()]
    ensures SliceShape(range + [bound]) == SliceShape(range) + bound.Extent()
  {
    assert (range + [bound])[..|range|] == range;
  }

  lemma ExtentLen(bound: AxisRange)
    ensures if bound.At? then bound.Extent() == [] && AxisOfBound(bound).Len() == 1
            else bound.Extent() == [AxisOfBound(bound).Len()]
  {
    if bound.In? && bound.step > 0 {
      CeilDivBound(0, bound.step, 0);
    }
  }

  lemma FlatSnoc(c: Coord, x: nat, shape: seq<nat>, dim: nat)
    requires |c| == |shape|
    ensures Flat(c + [x], shape + [dim]) == Flat(c, shape) * dim + x && Size(shape + [dim]) == Size(shape) * dim
  {
    assert [x][1..] == [] && [dim][1..] == [];
    assert Size([dim]) == dim && Flat([x], [dim]) == x;
    FlatConcat(c, [x], shape, [dim]);
    SizeConcat(shape, [dim]);
  }

  lemma ExpandedSnoc(front: seq<AxisRange>, last: AxisRange, c: Coord)
    requires InShape(c, SliceShape(front + [last]))
    ensures last.At? ==> InShape(c, SliceShape(front)) && Expanded(front + [last], c) == Expanded(front, c) + [0]
    ensures !last.At? ==>
              && |c| > 0 && InShape(c[..|c| - 1], SliceShape(front)) && c[|c| - 1] < AxisOfBound(last).Len()
              && Expanded(front + [last], c) == Expanded(front, c[..|c| - 1]) + [c[|c| - 1]]
  {
    hide AxisOfBound;
    AxesSnoc(front, last);
    ExtentLen(last);
    assert (front + [last])[..|front|] == front;
    if !last.At? {
      assert |c| == |SliceShape(front)| + 1;
    }
  }

  /** A view coordinate and the indices it stands for have the same row-major position. */
  lemma {:induction false} ExpandedFlat(range: seq<AxisRange>, c: Coord)
    requires InShape(c, SliceShape(range))
    ensures InShape(Expanded(range, c), Lens(AxesOfRange(range)))
    ensures Flat(Expanded(range, c), Lens(AxesOfRange(range))) == Flat(c, SliceShape(range))
    ensures Size(Lens(AxesOfRange(range))) == Size(SliceShape(range))
    decreases |range|
  {
    hide *;
    if range == [] {
      EmptyRange();
    } else {
      var n := |range| - 1;
      var front, last := range[..n], range[n];
      assert range == front + [last];
      AxesSnoc(front, last);
      ExtentLen(last);
      ExpandedSnoc(front, last, c);
      var lens := Lens(AxesOfRange(front));
      if last.At? {
        ShapeRank(c, SliceShape(front));
        ExpandedFlat(front, c);
        FlatSnoc(Expanded(front, c), 0, lens, 1);
        SnocInside(Expanded(front, c), 0, lens, 1);
        assert SliceShape(front) + [] == SliceShape(front);
      } else {
        var rest, x := c[..|c| - 1], c[|c| - 1];
        assert c == rest + [x];
        ExpandedFlat(front, rest);
        ShapeRank(rest, SliceShape(front));
        FlatSnoc(rest, x, SliceShape(front), AxisOfBound(last).Len());
        FlatSnoc(Expanded(front, rest), x, lens, AxisOfBound(last).Len());
        SnocInside(Expanded(front, rest), x, lens, AxisOfBound(last).Len());
      }
    }
  }

  lemma EmptyRange()
    ensures SliceShape([]) == [] && Lens(AxesOfRange([])) == [] && SlicePlan([]) == [] && AxesOfRange([]) == []
    ensures InShape([], []) && Expanded([], []) == [] && Kept([]) == 0 && Phi([], []) == [] && Pick([], []) == []
    ensures forall c :: InShape(c, []) ==> c == []
  {}

  lemma SnocInside(d: Coord, x: nat, lens: seq<nat>, len: nat)
    requires InShape(d, lens) && x < len
    ensures InShape(d + [x], lens + [len])
  {}

  lemma ShapeRank(c: Coord, shape: seq<nat>)
    requires InShape(c, shape)
    ensures |c| == |shape|
  {}

  /** Picking through one more axis. */
  lemma PickSnoc(axes: seq<Axis>, axis: Axis, d: Coord, x: nat)
    requires InShape(d, Lens(axes)) && x < axis.Len()
    ensures Lens(axes + [axis]) == Lens(axes) + [axis.Len()] && InShape(d + [x], Lens(axes + [axis]))
    ensures Pick(axes + [axis], d + [x]) == Pick(axes, d) + [axis.At(x)]
  {
    hide Axis.At;
    assert Lens(axes + [axis]) == Lens(axes) + [axis.Len()];
  }

  /** The source coordinate a sliced view reads is the selected one. */
  lemma {:induction false} ExpandedPick(range: seq<AxisRange>, c: Coord)
    requires InShape(c, SliceShape(range)) && InShape(Expanded(range, c), Lens(AxesOfRange(range)))
    ensures Kept(SlicePlan(range)) == |c|
    ensures Phi(SlicePlan(range), c) == Pick(AxesOfRange(range), Expanded(range, c))
    decreases |range|
  {
    hide *;
    if range == [] {
      EmptyRange();
    } else {
      var n := |range| - 1;
      var front, last := range[..n], range[n];
      assert range == front + [last];
      AxesSnoc(front, last);
      ExpandedSnoc(front, last, c);
      KeptSnoc(SlicePlan(front), last.Plan());
      if last.At? {
        ShapeRank(c, SliceShape(front));
        ExpandedFlat(front, c);
        ExpandedPick(front, c);
        PhiFixed(SlicePlan(front), last.index, c);
        PinnedPick(last);
        PickSnoc(AxesOfRange(front), AxisOfBound(last), Expanded(front, c), 0);
      } else {
        var rest, x := c[..|c| - 1], c[|c| - 1];
        assert c == rest + [x];
        ShapeRank(rest, SliceShape(front));
        ExpandedFlat(front, rest);
        ExpandedPick(front, rest);
        MappedPick(last, x);
        PhiSnoc(SlicePlan(front), last.Plan(), rest, x);
        PickSnoc(AxesOfRange(front), AxisOfBound(last), Expanded(front, rest), x);
      }
    }
  }

  lemma PinnedPick(bound: AxisRange)
    requires bound.At?
    ensures bound.Plan() == Fixed(bound.index) && !bound.Plan().Consumes()
    ensures AxisOfBound(bound).Len() == 1 && AxisOfBound(bound).At(0) == bound.index
  {}

  lemma MappedPick(bound: AxisRange, x: nat)
    requires !bound.At? && x < AxisOfBound(bound).Len()
    ensures bound.Plan().Consumes() && bound.Plan().Yields()
    ensures bound.Plan().At(x) == AxisOfBound(bound).At(x)
  {}

  /** In row-major order, the view reads exactly the selected coordinates. */
  lemma SliceSelects(view: CoordinateMap, m: CoordinateMap, range: seq<AxisRange>, k: nat)
    requires view.Valid() && m.Valid() && Reads(view, m, SlicePlan(range))
    requires view.shape == SliceShape(range) && Positive(view.shape) && k < Size(view.shape)
    ensures InShape(Decode(k, view.shape), view.shape)
    ensures Cartesian(AxesOfRange(range)).Len() == Size(view.shape)
    ensures InShape(Cartesian(AxesOfRange(range)).Coordinate(k), m.shape)
    ensures view.Offset(Decode(k, view.shape)) == m.Offset(Cartesian(AxesOfRange(range)).Coordinate(k))
  {
    hide Size, Flat, Decode, Phi, Kept, CoordinateMap.Offset, Pick, SliceShape;
    var c := Decode(k, view.shape);
    FlatOfDecodeInside(k, view.shape);
    ExpandedFlat(range, c);
    ExpandedPick(range, c);
    CoordinateOf(AxesOfRange(range), Expanded(range, c));
    assert ReadsAt(view, m, SlicePlan(range), c);
    assert AsCoord(Phi(SlicePlan(range), c)) == Pick(AxesOfRange(range), Expanded(range, c));
  }

  method SliceBoundAt(current: AxisContrib, dim: nat, index: nat) returns (r: Result<int>)
    requires current.Fits(dim)
    ensures r.Ok? ==> index < dim && InI128(r.value) && r.value == current.Contribution(index)
    ensures index < dim && r.Err? ==> r.error == MappingOverflow
    ensures index < dim && InI128(current.Contribution(index)) ==> r.Ok?
  {
    if index >= dim {
      return Err(InvalidLayout);
    }
    match current {
      case Stride(s) =>
        if !InI128(index * s) {
          return Err(MappingOverflow);
        }
        return Ok(index * s);
      case Broadcast(c) =>
        return Ok(c);
      case Gathered(g) =>
        return Ok(g.Get(index).value);
    }
  }

  lemma AffineContribution(start: int, step: int, x: int, s: int)
    ensures x * (s * step) + start * s == (start + step * x) * s
  {
    MulShuffle(s, x, step, s * step);
    assert x * (s * step) == (step * x) * s;
  }

  /** The last selected index of a stepped interval stays below its stop. */
  lemma SteppedInside(start: nat, stop: nat, step: nat, x: nat)
    requires step > 0 && start < stop && x < CeilDiv(stop - start, step)
    ensures start + step * x < stop
  {
    CeilDivBound(stop - start, step, x);
  }

  /** The stride of a stepped interval stays representable. */
  predicate StepScales(current: AxisContrib, bound: AxisRange) {
    bound.In? && current.Stride? ==> InI128(current.stride * bound.step)
  }

  method SliceBoundIn(current: AxisContrib, dim: nat, start: nat, stop: nat, step: nat)
    returns (r: Result<(int, AxisContrib, nat)>)
    requires current.Fits(dim)
    ensures r.Ok? ==> step > 0 && start <= stop <= dim && [r.value.2] == In(start, stop, step).Extent()
    ensures r.Ok? ==> InI128(r.value.0) && r.value.1.Fits(r.value.2) && (r.value.2 > 0 <==> start < stop)
    ensures r.Ok? ==> forall x: nat :: x < r.value.2 ==>
              start + step * x < dim && r.value.1.Contribution(x) + r.value.0 == current.Contribution(start + step * x)
    ensures r.Ok? ==> forall size :: current.Bounded(size) ==> r.value.1.Bounded(size)
    ensures r.Err? && In(start, stop, step).Accepts(dim) ==> r.error == MappingOverflow
    ensures r.Ok? ==> StepScales(current, In(start, stop, step))
    ensures r.Ok? && In(start, stop, step).Accepts(dim) ==> r.value.0 == if current.Stride? then current.Contribution(start) else 0
    ensures In(start, stop, step).Accepts(dim) && StepScales(current, In(start, stop, step)) && InI128(current.Contribution(start)) ==> r.Ok?
  {
    if step == 0 || start > stop || stop > dim {
      return Err(InvalidLayout);
    }
    var extent := if start == stop then 0 else CeilDiv(stop - start, step);
    CeilDivBound(stop - start, step, 0);
    forall x: nat | x < extent ensures start + step * x < stop {
      SteppedInside(start, stop, step, x);
    }
    match current {
      case Stride(s) =>
        if !InI128(start * s) || !InI128(s * step) {
          return Err(MappingOverflow);
        }
        forall x: nat | x < extent ensures x * (s * step) + start * s == (start + step * x) * s {
          AffineContribution(start, step, x, s);
        }
        return Ok((start * s, Stride(s * step), extent));
      case Broadcast(c) =>
        return Ok((0, Broadcast(c), extent));
      case Gathered(g) =>
        if extent > 0 {
          SteppedInside(start, stop, step, extent - 1);
          GatherSlice(g, start, step, extent);
        }
        // A valid descriptor cannot fail here: the bounds were checked above.
        return Ok((0, Gathered(g.Slice(start, step, extent).value), extent));
    }
  }

  method SliceBoundOf(current: AxisContrib, dim: nat, indices: seq<nat>) returns (r: Result<AxisContrib>)
    requires current.Fits(dim) && |indices| <= U64_MAX
    ensures r.Ok? ==> forall i :: 0 <= i < |indices| ==> indices[i] < dim
    ensures r.Ok? ==> r.value.Fits(|indices|)
    ensures r.Ok? ==> forall x: nat :: x < |indices| ==> r.value.Contribution(x) == current.Contribution(indices[x])
    ensures r.Ok? && current.Broadcast? ==> r.value == current
    ensures r.Ok? && !current.Broadcast? ==>
              r.value.Gathered? && |r.value.gather.table| == |indices|
              && forall k :: 0 <= k < |indices| ==> r.value.gather.table[k] == current.Contribution(indices[k])
    ensures r.Err? && Of(indices).Accepts(dim) ==> r.error == MappingOverflow
    ensures Of(indices).Accepts(dim) && (forall k :: 0 <= k < |indices| ==> InI128(current.Contribution(indices[k]))) ==> r.Ok?
  {
    if exists i :: 0 <= i < |indices| && indices[i] >= dim {
      return Err(InvalidLayout);
    }
    if current.Broadcast? {
      return Ok(current);
    }
    var offsets: seq<int> := [];
    for i := 0 to |indices|
      invariant |offsets| == i
      invariant forall k :: 0 <= k < i ==> InI128(offsets[k]) && offsets[k] == current.Contribution(indices[k])
    {
      var entry := SliceBoundAt(current, dim, indices[i]);
      if entry.Err? {
        return Err(entry.error);
      }
      offsets := offsets + [entry.value];
    }
    return Ok(Gathered(FromTable(offsets)));
  }

  /** The view built from the first `i` axes reads the first `i` source axes. */
  ghost predicate Slicing(view: CoordinateMap, m: CoordinateMap, range: seq<AxisRange>, i: nat)
    requires m.Valid() && i <= |range| == |m.shape|
  {
    && view.Valid()
    && Prefix(m, i).Valid()
    && Reads(view, Prefix(m, i), SlicePlan(range[..i]))
    && view.shape == SliceShape(range[..i])
    && (Positive(view.shape) <==> SliceAccepts(range[..i], m.shape[..i]))
  }

  lemma SlicingStart(m: CoordinateMap, range: seq<AxisRange>)
    requires m.Valid() && |range| == |m.shape|
    ensures Slicing(CoordinateMap(m.base, [], []), m, range, 0)
  {
    ReadsEmpty(m.base);
    PrefixFull(m);
    assert SlicePlan(range[..0]) == [];
  }

  lemma SlicingNext(view: CoordinateMap, next: CoordinateMap, m: CoordinateMap, range: seq<AxisRange>, i: nat)
    requires m.Valid() && i < |range| == |m.shape|
    requires Slicing(view, m, range, i)
    requires next.Valid() && Prefix(m, i + 1).Valid()
    requires Reads(next, Prefix(m, i + 1), SlicePlan(range[..i]) + [range[i].Plan()])
    requires next.shape == view.shape + range[i].Extent()
    requires range[i].Accepts(m.shape[i]) <==> Positive(range[i].Extent())
    ensures Slicing(next, m, range, i + 1)
  {
    hide Reads;
    assert range[..i + 1] == range[..i] + [range[i]];
    assert m.shape[..i + 1] == m.shape[..i] + [m.shape[i]];
    assert SlicePlan(range[..i + 1]) == SlicePlan(range[..i]) + [range[i].Plan()];
    AcceptsSnoc(range[..i], m.shape[..i], range[i], m.shape[i]);
    PositiveConcat(view.shape, range[i].Extent());
  }

  /** For bounds inside the dimension, acceptance is a nonempty extent. */
  lemma ExtentPositive(bound: AxisRange, dim: nat)
    requires bound.At? ==> bound.index < dim
    requires bound.In? ==> bound.step > 0 && bound.start <= bound.stop <= dim
    requires bound.Of? ==> forall i :: 0 <= i < |bound.indices| ==> bound.indices[i] < dim
    ensures bound.Accepts(dim) <==> Positive(bound.Extent())
  {
    if bound.In? {
      CeilDivBound(bound.stop - bound.start, bound.step, 0);
    }
    if bound.Extent() != [] {
      assert Positive(bound.Extent()) <==> bound.Extent()[0] > 0;
    }
  }

  lemma AcceptsSnoc(range: seq<AxisRange>, shape: seq<nat>, bound: AxisRange, dim: nat)
    requires |range| == |shape|
    ensures SliceAccepts(range + [bound], shape + [dim]) <==> SliceAccepts(range, shape) && bound.Accepts(dim)
  {
    var all, dims := range + [bound], shape + [dim];
    if SliceAccepts(all, dims) {
      forall i | 0 <= i < |range| ensures range[i].Accepts(shape[i]) {
        assert all[i].Accepts(dims[i]);
      }
      assert all[|range|].Accepts(dims[|range|]);
    }
  }

  lemma PositiveConcat(a: seq<nat>, b: seq<nat>)
    ensures Positive(a + b) <==> Positive(a) && Positive(b)
  {
    if Positive(a + b) {
      assert forall i :: 0 <= i < |a| ==> a[i] == (a + b)[i];
      assert forall i :: 0 <= i < |b| ==> b[i] == (a + b)[|a| + i];
    }
  }

  /** No stepped interval scales a stride out of checked arithmetic. */
  predicate StepsScale(m: CoordinateMap, range: seq<AxisRange>)
    requires |range| == |m.axes|
  {
    forall i :: 0 <= i < |range| ==> StepScales(m.axes[i], range[i])
  }

  lemma ContributionFits(m: CoordinateMap, size: nat, i: nat, x: nat)
    requires Tame(m, size) && i < |m.shape| && x < m.shape[i]
    ensures i < |m.axes| && m.axes[i].Fits(m.shape[i])
    ensures Below(m.axes[i].Contribution(x), size) && InI128(m.axes[i].Contribution(x))
  {
    ContributionBound(m, size, i, x);
  }

  /** Shifting a near base by one contribution of a tame map stays near. */
  lemma ShiftTame(m: CoordinateMap, size: nat, i: nat, x: nat, base: int, k: nat)
    requires Tame(m, size) && i < |m.shape| && x < m.shape[i]
    requires Near(base, k, size) && k <= 2 * |m.shape|
    ensures i < |m.axes| && m.axes[i].Fits(m.shape[i]) && InI128(m.axes[i].Contribution(x))
    ensures Near(base + m.axes[i].Contribution(x), k + 1, size) && InI128(base + m.axes[i].Contribution(x))
    ensures Near(base, k + 1, size) && InI128(base)
  {
    hide Near, Below;
    ContributionFits(m, size, i, x);
    NearStep(base, m.axes[i].Contribution(x), k, size);
    NearFits(base + m.axes[i].Contribution(x), k + 1, size);
    NearWider(base, k, k + 1, size);
    NearFits(base, k, size);
  }

  lemma IndicesFit(m: CoordinateMap, size: nat, i: nat, indices: seq<nat>)
    requires Tame(m, size) && i < |m.shape| && forall k :: 0 <= k < |indices| ==> indices[k] < m.shape[i]
    ensures i < |m.axes| && m.axes[i].Fits(m.shape[i])
    ensures forall k :: 0 <= k < |indices| ==> InI128(m.axes[i].Contribution(indices[k]))
  {
    forall k | 0 <= k < |indices| ensures InI128(m.axes[i].Contribution(indices[k])) {
      ContributionFits(m, size, i, indices[k]);
    }
  }

  /** `slice`: the sliced view reads the selected coordinates of its source. On a tame map it fails
      exactly when a bound is outside its axis, a selection is empty, or a step scales a stride out
      of checked arithmetic. */
  method Slice(m: CoordinateMap, range: seq<AxisRange>, ghost size: nat) returns (r: Result<CoordinateMap>)
    requires m.Valid()
    requires forall i :: 0 <= i < |range| && range[i].Of? ==> |range[i].indices| <= U64_MAX
    ensures r.Ok? ==> SliceAccepts(range, m.shape)
    ensures r.Ok? ==> r.value.Valid() && r.value.shape == SliceShape(range) && Positive(r.value.shape)
    ensures r.Ok? ==> Reads(r.value, m, SlicePlan(range))
    ensures r.Ok? ==> Cartesian(AxesOfRange(range)).Len() == Size(r.value.shape)
    ensures r.Ok? ==> forall k: nat :: k < Size(r.value.shape) ==>
              && InShape(Decode(k, r.value.shape), r.value.shape)
              && InShape(Cartesian(AxesOfRange(range)).Coordinate(k), m.shape)
              && r.value.Offset(Decode(k, r.value.shape)) == m.Offset(Cartesian(AxesOfRange(range)).Coordinate(k))
    ensures r.Ok? && m.Good(size) ==> r.value.Good(size)
    ensures r.Err? && SliceAccepts(range, m.shape) ==> r.error == MappingOverflow
    ensures Tame(m, size) ==> (r.Ok? <==> SliceAccepts(range, m.shape) && StepsScale(m, range))
  {
    hide Slicing, Reads, CoordinateMap.InRange, Near, StepScales, Tame, SliceAccepts, StepsScale;
    AcceptsRank(range, m.shape);
    if |range| != |m.shape| {
      return Err(InvalidLayout);
    }
    var view := CoordinateMap(m.base, [], []);
    SlicingStart(m, range);
    if Tame(m, size) {
      TameBase(m, size);
    }
    for i := 0 to |range|
      invariant Slicing(view, m, range, i)
      invariant m.Good(size) ==> view.Bounded(size)
      invariant Tame(m, size) && SliceAccepts(range, m.shape) ==> Near(view.base, |m.shape| + 1 + i, size)
      invariant forall k :: 0 <= k < i ==> StepScales(m.axes[k], range[k])
    {
      AxisOfSlice(m, range, i);
      var step := SliceAxis(m, range, i, view, size);
      if step.Err? {
        return Err(step.error);
      }
      view := step.value;
    }
    SlicingDone(view, m, range, size);
    if 0 in view.shape {
      return Err(InvalidLayout);
    }
    SizePositive(view.shape);
    forall k: nat | k < Size(view.shape)
      ensures InShape(Decode(k, view.shape), view.shape) && Cartesian(AxesOfRange(range)).Len() == Size(view.shape)
      ensures InShape(Cartesian(AxesOfRange(range)).Coordinate(k), m.shape)
      ensures view.Offset(Decode(k, view.shape)) == m.Offset(Cartesian(AxesOfRange(range)).Coordinate(k))
    {
      SliceSelects(view, m, range, k);
    }
    SliceSelects(view, m, range, 0);
    return Ok(view);
  }

  /** One row of the greatest width, and its first index written with the greatest step. */
  function WideRow(): (shape: seq<nat>)
    ensures Positive(shape) && Size(shape) <= U64_MAX
  {
    WideRowSize();
    [1, U64_MAX]
  }

  lemma WideRowSize()
    ensures Size([1, U64_MAX]) == U64_MAX
  {
    assert [1, U64_MAX][1..] == [U64_MAX] && Size([U64_MAX]) == U64_MAX * Size([]);
  }

  function WideStep(): seq<AxisRange> {
    [In(0, 1, U64_MAX), In(0, U64_MAX, 1)]
  }

  /** An acceptable slice of a tame map that fails: the unused step of a one-element interval is
      still multiplied by the stride. */
  lemma SliceCanFail()
    ensures Tame(Identity(WideRow()), Size(WideRow())) && SliceAccepts(WideStep(), WideRow())
    ensures !StepsScale(Identity(WideRow()), WideStep())
  {
    WideRowSize();
    IdentityGood(WideRow());
    assert WideRow()[1..] == [U64_MAX] && Size([U64_MAX]) == U64_MAX * Size([]);
    assert Strides(WideRow())[0] == U64_MAX;
    assert !StepScales(Identity(WideRow()).axes[0], WideStep()[0]);
  }

  lemma AcceptsRank(range: seq<AxisRange>, shape: seq<nat>)
    ensures SliceAccepts(range, shape) ==> |range| == |shape|
  {}

  lemma AxisOfSlice(m: CoordinateMap, range: seq<AxisRange>, i: nat)
    requires i < |range| == |m.shape| == |m.axes|
    ensures SliceAccepts(range, m.shape) ==> range[i].Accepts(m.shape[i])
    ensures StepsScale(m, range) ==> StepScales(m.axes[i], range[i])
  {}

  lemma SlicingDone(view: CoordinateMap, m: CoordinateMap, range: seq<AxisRange>, size: nat)
    requires m.Valid() && |range| == |m.shape| && Slicing(view, m, range, |range|)
    requires m.Good(size) ==> view.Bounded(size)
    requires forall k :: 0 <= k < |range| ==> StepScales(m.axes[k], range[k])
    ensures view.Valid() && view.shape == SliceShape(range) && Reads(view, m, SlicePlan(range))
    ensures StepsScale(m, range) && (0 !in view.shape <==> SliceAccepts(range, m.shape))
    ensures 0 !in view.shape ==> Positive(view.shape)
    ensures 0 !in view.shape && m.Good(size) ==> view.Good(size)
  {
    hide Slicing, Reads, CoordinateMap.InRange, CoordinateMap.Bounded, SliceShape, SliceAccepts, StepScales,
         AxisContrib.Fits;
    SlicingEnd(view, m, range);
    NoZeros(view.shape);
    if m.Good(size) {
      ReadsInRange(view, m, SlicePlan(range), size);
    }
  }

  lemma SlicingEnd(view: CoordinateMap, m: CoordinateMap, range: seq<AxisRange>)
    requires m.Valid() && |range| == |m.shape| && Slicing(view, m, range, |range|)
    ensures view.Valid() && view.shape == SliceShape(range) && Reads(view, m, SlicePlan(range))
    ensures Positive(view.shape) <==> SliceAccepts(range, m.shape)
  {
    hide Reads, SliceShape, SliceAccepts;
    PrefixFull(m);
    assert range[..|range|] == range && m.shape[..|range|] == m.shape;
  }

  lemma NoZeros(shape: seq<nat>)
    ensures 0 !in shape <==> Positive(shape)
  {}

  lemma TameBase(m: CoordinateMap, size: nat)
    requires Tame(m, size)
    ensures m.Good(size) && Near(m.base, |m.shape| + 1, size)
  {
    BaseNear(m, size);
  }

  /** What slicing one axis makes of the view built so far. */
  ghost predicate AxisSliced(m: CoordinateMap, range: seq<AxisRange>, i: nat, view: CoordinateMap, size: nat,
                             r: Result<CoordinateMap>)
    requires m.Valid() && i < |range| == |m.shape|
  {
    && (r.Ok? ==> Slicing(r.value, m, range, i + 1))
    && (r.Ok? && m.Good(size) && view.Bounded(size) ==> r.value.Bounded(size))
    && (r.Err? && range[i].Accepts(m.shape[i]) ==> r.error == MappingOverflow)
    && (r.Ok? ==> StepScales(m.axes[i], range[i]))
    && (Tame(m, size) && range[i].Accepts(m.shape[i]) && Near(view.base, |m.shape| + 1 + i, size) ==>
          (r.Ok? <==> StepScales(m.axes[i], range[i])) && (r.Ok? ==> Near(r.value.base, |m.shape| + 2 + i, size)))
  }

  method SliceAxisAt(m: CoordinateMap, range: seq<AxisRange>, i: nat, view: CoordinateMap, ghost size: nat)
    returns (r: Result<CoordinateMap>)
    requires m.Valid() && i < |range| == |m.shape| && range[i].At? && Slicing(view, m, range, i)
    ensures AxisSliced(m, range, i, view, size, r)
  {
    hide Reads, CoordinateMap.InRange, CoordinateMap.Offset, Phi, Kept, SliceAccepts, SliceShape, Near, Tame,
         AxisContrib.Contribution;
    var current, dim, index := m.axes[i], m.shape[i], range[i].index;
    ghost var plan := SlicePlan(range[..i]);
    PrefixSnoc(m, i);
    if Tame(m, size) && index < dim && Near(view.base, |m.shape| + 1 + i, size) {
      ShiftTame(m, size, i, index, view.base, |m.shape| + 1 + i);
    }
    var delta := SliceBoundAt(current, dim, index);
    if delta.Err? {
      return Err(delta.error);
    }
    if !InI128(view.base + delta.value) {
      return Err(MappingOverflow);
    }
    StepFixed(view, Prefix(m, i), plan, current, dim, index);
    r := Ok(Shift(view, delta.value));
    ExtentPositive(range[i], dim);
    SlicingNext(view, r.value, m, range, i);
  }

  method SliceAxisIn(m: CoordinateMap, range: seq<AxisRange>, i: nat, view: CoordinateMap, ghost size: nat)
    returns (r: Result<CoordinateMap>)
    requires m.Valid() && i < |range| == |m.shape| && range[i].In? && Slicing(view, m, range, i)
    ensures AxisSliced(m, range, i, view, size, r)
  {
    hide Reads, CoordinateMap.InRange, CoordinateMap.Offset, Phi, Kept, SliceAccepts, SliceShape, Near, Tame,
         AxisContrib.Contribution;
    var current, dim := m.axes[i], m.shape[i];
    var In(start, stop, step) := range[i];
    ghost var plan := SlicePlan(range[..i]);
    PrefixSnoc(m, i);
    if Tame(m, size) && range[i].Accepts(dim) && Near(view.base, |m.shape| + 1 + i, size) {
      ShiftTame(m, size, i, start, view.base, |m.shape| + 1 + i);
    }
    var cut := SliceBoundIn(current, dim, start, stop, step);
    if cut.Err? {
      return Err(cut.error);
    }
    var (delta, axis, extent) := cut.value;
    if !InI128(view.base + delta) {
      return Err(MappingOverflow);
    }
    StepMapped(view, Prefix(m, i), plan, range[i].Plan(), current, dim, axis, extent, delta);
    r := Ok(Append(Shift(view, delta), axis, extent));
    ExtentPositive(range[i], dim);
    SlicingNext(view, r.value, m, range, i);
  }

  method SliceAxisOf(m: CoordinateMap, range: seq<AxisRange>, i: nat, view: CoordinateMap, ghost size: nat)
    returns (r: Result<CoordinateMap>)
    requires m.Valid() && i < |range| == |m.shape| && range[i].Of? && |range[i].indices| <= U64_MAX
    requires Slicing(view, m, range, i)
    ensures AxisSliced(m, range, i, view, size, r)
  {
    hide Reads, CoordinateMap.InRange, CoordinateMap.Offset, Phi, Kept, SliceAccepts, SliceShape, Near, Tame,
         AxisContrib.Contribution;
    var current, dim, indices := m.axes[i], m.shape[i], range[i].indices;
    ghost var plan := SlicePlan(range[..i]);
    PrefixSnoc(m, i);
    if Tame(m, size) && range[i].Accepts(dim) && Near(view.base, |m.shape| + 1 + i, size) {
      IndicesFit(m, size, i, indices);
      NearWider(view.base, |m.shape| + 1 + i, |m.shape| + 2 + i, size);
    }
    var picked := SliceBoundOf(current, dim, indices);
    if picked.Err? {
      return Err(picked.error);
    }
    StepMapped(view, Prefix(m, i), plan, range[i].Plan(), current, dim, picked.value, |indices|, 0);
    if m.Good(size) {
      forall k | 0 <= k < |indices| ensures Below(current.Contribution(indices[k]), size) {
        ContributionBound(m, size, i, indices[k]);
      }
    }
    r := Ok(Append(Shift(view, 0), picked.value, |indices|));
    ExtentPositive(range[i], dim);
    SlicingNext(view, r.value, m, range, i);
  }

  /** One axis of a slice, appended to the view built so far. */
  method SliceAxis(m: CoordinateMap, range: seq<AxisRange>, i: nat, view: CoordinateMap, ghost size: nat)
    returns (r: Result<CoordinateMap>)
    requires m.Valid() && i < |range| == |m.shape| && Slicing(view, m, range, i)
    requires range[i].Of? ==> |range[i].indices| <= U64_MAX
    ensures AxisSliced(m, range, i, view, size, r)
  {
    hide *;
    match range[i] {
      case At(_) => r := SliceAxisAt(m, range, i, view, size);
      case In(_, _, _) => r := SliceAxisIn(m, range, i, view, size);
      case Of(_) => r := SliceAxisOf(m, range, i, view, size);
    }
  }
}
