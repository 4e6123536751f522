/** Flip, transpose, reshape, broadcast, squeeze and unsqueeze of a coordinate map,
    and what every chain of transforms keeps. */
module Reshaping {
  import opened Radix
  import opened Wrappers
  import opened Request
  import opened Mapping
  import opened Transforms

  // ---------------------------------------------------------------------
  // Plans with one view axis per source axis
  // ---------------------------------------------------------------------

  lemma {:induction false} PhiPointwise(plan: seq<Step>, c: Coord)
    requires |c| == |plan| && forall i :: 0 <= i < |plan| ==> plan[i].Consumes() && plan[i].Yields()
    ensures Kept(plan) == |plan|
    ensures |Phi(plan, c)| == |plan|
    ensures forall i :: 0 <= i < |plan| ==> Phi(plan, c)[i] == plan[i].At(c[i])
  {
    if plan != [] {
      PhiPointwise(plan[..|plan| - 1], c[..|c| - 1]);
    }
  }

  function Same(): Step {
    Affine(0, 1)
  }

  // ---------------------------------------------------------------------
  // Flip
  // ---------------------------------------------------------------------

  function FlipPlan(shape: seq<nat>, axis: nat): (p: seq<Step>)
    ensures |p| == |shape|
    ensures forall i :: 0 <= i < |p| ==> p[i] == if i == axis then Reversed(shape[i]) else Same()
  {
    seq(|shape|, i requires 0 <= i < |shape| => if i == axis then Reversed(shape[i]) else Same())
  }

  /** The stride is not the least representable one. */
  predicate StrideNegates(current: AxisContrib) {
    current.Stride? ==> InI128(-current.stride)
  }

  /** The reversed contribution of an axis and the shift of the base offset it needs. */
  method FlipContrib(current: AxisContrib, dim: nat) returns (r: Result<(int, AxisContrib)>)
    requires current.Fits(dim) && dim > 0
    ensures r.Ok? ==> InI128(r.value.0) && r.value.1.Fits(dim)
    ensures r.Ok? ==> forall x: nat :: x < dim ==>
              r.value.1.Contribution(x) + r.value.0 == current.Contribution(dim - 1 - x)
    ensures r.Ok? ==> forall size :: current.Bounded(size) ==> r.value.1.Bounded(size)
    ensures r.Err? ==> r.error == MappingOverflow
    ensures r.Ok? ==> StrideNegates(current) && r.value.0 == if current.Stride? then current.Contribution(dim - 1) else 0
    ensures StrideNegates(current) && InI128(current.Contribution(dim - 1)) ==> r.Ok?
  {
    match current {
      case Stride(s) =>
        if !InI128((dim - 1) * s) || !InI128(-s) {
          return Err(MappingOverflow);
        }
        FlipStride(current, Stride(-s), dim);
        return Ok(((dim - 1) * s, Stride(-s)));
      case Broadcast(c) =>
        return Ok((0, Broadcast(c)));
      case Gathered(g) =>
        GatherFlip(g);
        return Ok((0, Gathered(g.Flipped())));
    }
  }

  lemma FlipStride(current: AxisContrib, flipped: AxisContrib, dim: nat)
    requires current.Stride? && flipped == Stride(-current.stride)
    ensures forall x: nat :: x < dim ==>
              flipped.Contribution(x) + (dim - 1) * current.stride == current.Contribution(dim - 1 - x)
  {
    forall x: nat | x < dim
      ensures flipped.Contribution(x) + (dim - 1) * current.stride == current.Contribution(dim - 1 - x)
    {
      assert (dim - 1 - x) * current.stride == (dim - 1) * current.stride - x * current.stride;
    }
  }

  method Flip(m: CoordinateMap, axis: nat, ghost size: nat) returns (r: Result<CoordinateMap>)
    requires m.Valid() && Positive(m.shape)
    ensures axis >= |m.shape| ==> r == Err(InvalidLayout)
    ensures axis < |m.shape| && r.Err? ==> r.error == MappingOverflow
    ensures r.Ok? ==> r.value.Valid() && r.value.shape == m.shape && Reads(r.value, m, FlipPlan(m.shape, axis))
    ensures r.Ok? ==> forall c: Coord :: InShape(c, m.shape) ==>
              && axis < |m.shape| && InShape(c[axis := m.shape[axis] - 1 - c[axis]], m.shape)
              && r.value.Offset(c) == m.Offset(c[axis := m.shape[axis] - 1 - c[axis]])
    ensures r.Ok? && m.Good(size) ==> r.value.Good(size)
    ensures Tame(m, size) ==> (r.Ok? <==> axis < |m.shape| && StrideNegates(m.axes[axis]))
  {
    hide Near, Tame, Reads, CoordinateMap.InRange, StrideNegates;
    if axis >= |m.shape| {
      return Err(InvalidLayout);
    }
    if Tame(m, size) {
      FlipTame(m, size, axis);
    }
    var flipped := FlipContrib(m.axes[axis], m.shape[axis]);
    if flipped.Err? {
      return Err(flipped.error);
    }
    var (delta, contrib) := flipped.value;
    if !InI128(m.base + delta) {
      return Err(MappingOverflow);
    }
    var view := CoordinateMap(m.base + delta, m.axes[axis := contrib], m.shape);
    FlipReads(m, view, axis, delta, contrib);
    forall c: Coord | InShape(c, m.shape)
      ensures InShape(c[axis := m.shape[axis] - 1 - c[axis]], m.shape)
      ensures view.Offset(c) == m.Offset(c[axis := m.shape[axis] - 1 - c[axis]])
    {
      FlipMirrors(view, m, axis, c);
    }
    if m.Good(size) {
      ReadsInRange(view, m, FlipPlan(m.shape, axis), size);
    }
    return Ok(view);
  }

  /** A row of 2^63 elements whose leading stride is the least representable one. The identity map of
      this shape has leading stride 2^63. Flipping axis 0 negates it, and slicing the one index of
      axis 0 twice with step 2^32 scales it to -2^127. */
  function SteepRow(): CoordinateMap {
    CoordinateMap(0, [Stride(-I128_BOUND), Stride(1)], [1, 0x8000_0000_0000_0000])
  }

  /** A reachable map whose existing axis cannot be flipped, and the stride that leads to it. */
  lemma FlipCanFail()
    ensures Tame(SteepRow(), Size(SteepRow().shape)) && !StrideNegates(SteepRow().axes[0])
    ensures Strides(SteepRow().shape)[0] * 0x1_0000_0000 * 0x1_0000_0000 == I128_BOUND
  {
    var m := SteepRow();
    RowSize(m.shape[1]);
    forall c: Coord | InShape(c, m.shape) ensures m.Offset(c) == c[1] {
      assert c[0] < m.shape[0];
      assert m.Contributions(c) == [0, c[1]];
      SumPair(0, c[1]);
    }
  }

  lemma RowSize(n: nat)
    ensures Size([1, n]) == n && Strides([1, n]) == [n, 1]
  {
    assert [1, n][1..] == [n] && [n][1..] == [];
    assert Size([n]) == n * Size([]);
  }

  lemma SumPair(a: int, b: int)
    ensures Sum([a, b]) == a + b
  {
    assert [a, b][1..] == [b] && Sum([b]) == b + Sum([b][1..]);
  }

  lemma FlipTame(m: CoordinateMap, size: nat, axis: nat)
    requires Tame(m, size) && axis < |m.shape|
    ensures InI128(m.base) && m.Good(size)
    ensures InI128(m.axes[axis].Contribution(m.shape[axis] - 1))
    ensures InI128(m.base + m.axes[axis].Contribution(m.shape[axis] - 1))
  {
    BaseNear(m, size);
    ShiftTame(m, size, axis, m.shape[axis] - 1, m.base, |m.shape| + 1);
  }

  lemma FlipReads(m: CoordinateMap, view: CoordinateMap, axis: nat, delta: int, contrib: AxisContrib)
    requires m.Valid() && axis < |m.shape| && contrib.Fits(m.shape[axis]) && InI128(m.base + delta)
    requires view == CoordinateMap(m.base + delta, m.axes[axis := contrib], m.shape)
    requires forall x: nat :: x < m.shape[axis] ==>
               contrib.Contribution(x) + delta == m.axes[axis].Contribution(m.shape[axis] - 1 - x)
    ensures view.Valid() && Reads(view, m, FlipPlan(m.shape, axis))
  {
    hide Phi, Kept, Sum, CoordinateMap.Offset, FlipPlan;
    PhiPointwise(FlipPlan(m.shape, axis), m.shape);
    forall c: Coord | InShape(c, m.shape) ensures ReadsAt(view, m, FlipPlan(m.shape, axis), c) {
      FlipPhi(m.shape, axis, c);
      FlipOffset(m, view, axis, contrib, c, c[axis := m.shape[axis] - 1 - c[axis]]);
    }
  }

  lemma FlipMirrors(view: CoordinateMap, m: CoordinateMap, axis: nat, c: Coord)
    requires view.Valid() && m.Valid() && view.shape == m.shape && axis < |m.shape| && InShape(c, m.shape)
    requires Reads(view, m, FlipPlan(m.shape, axis))
    ensures InShape(c[axis := m.shape[axis] - 1 - c[axis]], m.shape)
    ensures view.Offset(c) == m.Offset(c[axis := m.shape[axis] - 1 - c[axis]])
  {
    hide Phi, Kept, CoordinateMap.Offset, FlipPlan;
    FlipPhi(m.shape, axis, c);
    assert ReadsAt(view, m, FlipPlan(m.shape, axis), c);
    assert AsCoord(Phi(FlipPlan(m.shape, axis), c)) == c[axis := m.shape[axis] - 1 - c[axis]];
  }

  lemma FlipPhi(shape: seq<nat>, axis: nat, c: Coord)
    requires axis < |shape| && InShape(c, shape)
    ensures Kept(FlipPlan(shape, axis)) == |shape|
    ensures InShape(c[axis := shape[axis] - 1 - c[axis]], shape)
    ensures Phi(FlipPlan(shape, axis), c) == c[axis := shape[axis] - 1 - c[axis]]
  {
    PhiPointwise(FlipPlan(shape, axis), c);
  }

  lemma FlipOffset(m: CoordinateMap, view: CoordinateMap, axis: nat, contrib: AxisContrib, c: Coord, d: Coord)
    requires m.Valid() && view.Valid() && axis < |m.shape| && InShape(c, m.shape) && InShape(d, m.shape)
    requires view.axes == m.axes[axis := contrib] && view.shape == m.shape
    requires contrib.Fits(m.shape[axis]) && d == c[axis := d[axis]]
    requires contrib.Contribution(c[axis]) + view.base == m.axes[axis].Contribution(d[axis]) + m.base
    ensures view.Offset(c) == m.Offset(d)
  {
    SumUpdate(m.Contributions(d), axis, contrib.Contribution(c[axis]));
    assert view.Contributions(c) == m.Contributions(d)[axis := contrib.Contribution(c[axis])];
  }

  // ---------------------------------------------------------------------
  // Transpose
  // ---------------------------------------------------------------------

  predicate IsPermutation(p: seq<nat>) {
    && (forall i :: 0 <= i < |p| ==> p[i] < |p|)
    && (forall i, j :: 0 <= i < j < |p| ==> p[i] != p[j])
  }

  function Permuted<T>(p: seq<nat>, v: seq<T>): (r: seq<T>)
    requires |p| == |v| && forall i :: 0 <= i < |p| ==> p[i] < |p|
    ensures |r| == |v|
    ensures forall i :: 0 <= i < |r| ==> r[i] == v[p[i]]
  {
    seq(|p|, i requires 0 <= i < |p| => v[p[i]])
  }

  function Without(v: seq<int>, k: nat): seq<int>
    requires k < |v|
  {
    v[..k] + v[k + 1..]
  }

  /** Reordering does not change a sum. */
  lemma {:induction false} SumPermuted(p: seq<nat>, v: seq<int>)
    requires |p| == |v| && IsPermutation(p)
    ensures Sum(Permuted(p, v)) == Sum(v)
    decreases |v|
  {
    if v != [] {
      var n := |v| - 1;
      var k := p[n];
      var q: seq<nat> := seq(n, i requires 0 <= i < n => if p[i] > k then p[i] - 1 else p[i]);
      var w := Without(v, k);
      assert IsPermutation(q);
      SumPermuted(q, w);
      SumSplit(v, k);
      SumConcat(v[..k], v[k + 1..]);
      assert Permuted(p, v)[..n] == Permuted(q, w);
      SumSplit(Permuted(p, v), n);
      assert Permuted(p, v)[n + 1..] == [];
    }
  }

  lemma {:induction false} PermutationOnto(p: seq<nat>, j: nat)
    requires IsPermutation(p) && j < |p|
    ensures exists i :: 0 <= i < |p| && p[i] == j
    decreases |p|
  {
    var n := |p| - 1;
    var k := p[n];
    if k != j {
      var q: seq<nat> := seq(n, i requires 0 <= i < n => if p[i] > k then p[i] - 1 else p[i]);
      PermutationOnto(q, if j > k then j - 1 else j);
      var i :| 0 <= i < n && q[i] == if j > k then j - 1 else j;
      assert p[i] == j;
    }
  }

  ghost function InverseAt(p: seq<nat>, j: nat): (i: nat)
    requires IsPermutation(p) && j < |p|
    ensures i < |p| && p[i] == j
  {
    PermutationOnto(p, j);
    var i :| 0 <= i < |p| && p[i] == j;
    i
  }

  /** The source coordinate of a transposed coordinate. */
  ghost function Unpermuted(p: seq<nat>, c: Coord): (d: Coord)
    requires IsPermutation(p) && |c| == |p|
    ensures |d| == |c| && Permuted(p, d) == c
  {
    var d := seq(|p|, j requires 0 <= j < |p| => c[InverseAt(p, j)]);
    assert forall i :: 0 <= i < |p| ==> InverseAt(p, p[i]) == i;
    d
  }

  /** The transposed view reads the source at the unpermuted coordinate. */
  ghost predicate Transposes(view: CoordinateMap, m: CoordinateMap, p: seq<nat>)
    requires view.Valid() && m.Valid()
  {
    && IsPermutation(p) && |p| == |m.shape|
    && view.shape == Permuted(p, m.shape)
    && forall c: Coord :: InShape(c, view.shape) ==>
         InShape(Unpermuted(p, c), m.shape) && view.Offset(c) == m.Offset(Unpermuted(p, c))
  }

  method Transpose(m: CoordinateMap, permutation: Option<seq<nat>>, ghost size: nat) returns (r: Result<CoordinateMap>)
    requires m.Valid() && Positive(m.shape)
    ensures r.Ok? <==> (permutation.Some? ==> |permutation.value| == |m.shape| && IsPermutation(permutation.value))
    ensures r.Err? ==> r.error == InvalidLayout
    ensures r.Ok? ==> r.value.Valid()
    ensures r.Ok? && permutation.Some? ==> Transposes(r.value, m, permutation.value)
    ensures r.Ok? && permutation.None? ==> Transposes(r.value, m, Backwards(|m.shape|))
    ensures r.Ok? && m.Good(size) ==> r.value.Good(size)
  {
    var p := if permutation.Some? then permutation.value else Backwards(|m.shape|);
    r := PermuteAxes(m, p);
    if r.Ok? {
      TransposeReads(r.value, m, p);
      if m.Good(size) {
        TransposeGood(r.value, m, p, size);
      }
    }
  }

  /** Reorder the axes, rejecting anything that is not a permutation. */
  method PermuteAxes(m: CoordinateMap, p: seq<nat>) returns (r: Result<CoordinateMap>)
    requires m.Valid()
    ensures r.Ok? <==> |p| == |m.shape| && IsPermutation(p)
    ensures r.Ok? ==> r.value == CoordinateMap(m.base, Permuted(p, m.axes), Permuted(p, m.shape))
    ensures r.Err? ==> r.error == InvalidLayout
  {
    if |p| != |m.axes| {
      return Err(InvalidLayout);
    }
    var seen := seq(|m.axes|, _ => false);
    var axes, shape := [], [];
    for i := 0 to |p|
      invariant |seen| == |m.axes| && |axes| == |shape| == i
      invariant forall k :: 0 <= k < i ==> p[k] < |p| && axes[k] == m.axes[p[k]] && shape[k] == m.shape[p[k]]
      invariant forall k, l :: 0 <= k < l < i ==> p[k] != p[l]
      invariant forall j :: 0 <= j < |seen| ==> (seen[j] <==> j in p[..i])
    {
      if p[i] >= |m.axes| || seen[p[i]] {
        return Err(InvalidLayout);
      }
      assert p[..i + 1] == p[..i] + [p[i]];
      seen := seen[p[i] := true];
      axes := axes + [m.axes[p[i]]];
      shape := shape + [m.shape[p[i]]];
    }
    assert axes == Permuted(p, m.axes) && shape == Permuted(p, m.shape);
    return Ok(CoordinateMap(m.base, axes, shape));
  }

  lemma TransposeGood(view: CoordinateMap, m: CoordinateMap, p: seq<nat>, size: nat)
    requires m.Good(size) && |p| == |m.shape| && IsPermutation(p)
    requires view == CoordinateMap(m.base, Permuted(p, m.axes), Permuted(p, m.shape))
    requires view.Valid() && Transposes(view, m, p)
    ensures view.Good(size)
  {
    forall c: Coord | InShape(c, view.shape) ensures 0 <= view.Offset(c) < size {
      assert view.Offset(c) == m.Offset(Unpermuted(p, c));
    }
  }

  function Backwards(n: nat): (p: seq<nat>)
    ensures |p| == n && IsPermutation(p)
    ensures forall i :: 0 <= i < n ==> p[i] == n - 1 - i
  {
    seq(n, i requires 0 <= i < n => n - 1 - i)
  }

  lemma TransposeReads(view: CoordinateMap, m: CoordinateMap, p: seq<nat>)
    requires m.Valid() && |p| == |m.shape| && IsPermutation(p)
    requires view == CoordinateMap(m.base, Permuted(p, m.axes), Permuted(p, m.shape))
    ensures view.Valid() && Transposes(view, m, p)
  {
    forall c: Coord | InShape(c, view.shape)
      ensures InShape(Unpermuted(p, c), m.shape) && view.Offset(c) == m.Offset(Unpermuted(p, c))
    {
      var d := Unpermuted(p, c);
      forall j | 0 <= j < |d| ensures d[j] < m.shape[j] {
        PermutationOnto(p, j);
        var i :| 0 <= i < |p| && p[i] == j;
        assert c[i] == Permuted(p, d)[i] == d[j];
      }
      assert view.Contributions(c) == Permuted(p, m.Contributions(d)) by {
        forall i | 0 <= i < |p| ensures view.Contributions(c)[i] == m.Contributions(d)[p[i]] {
          assert c[i] == Permuted(p, d)[i] == d[p[i]];
        }
      }
      SumPermuted(p, m.Contributions(d));
    }
  }

  // ---------------------------------------------------------------------
  // Reshape
  // ---------------------------------------------------------------------

  /** The map addresses a row-major run: exactly what reshaping supports. */
  predicate Contiguous(m: CoordinateMap) {
    && m.shape != [] && Positive(m.shape) && Size(m.shape) <= U64_MAX
    && m.axes == IdentityAxes(m.shape)
  }

  lemma ContiguousOffset(m: CoordinateMap, c: Coord)
    requires m.Valid() && Contiguous(m) && InShape(c, m.shape)
    ensures m.Offset(c) == m.base + Flat(c, m.shape)
  {
    IdentityOffset(m.shape, c);
    assert Identity(m.shape).Contributions(c) == m.Contributions(c);
  }

  /** Reshaping keeps the row-major position of every element. */
  ghost predicate Reshapes(view: CoordinateMap, m: CoordinateMap)
    requires view.Valid() && m.Valid() && Positive(m.shape)
  {
    forall c: Coord :: InShape(c, view.shape) ==>
      && InShape(Decode(Flat(c, view.shape), m.shape), m.shape)
      && Flat(Decode(Flat(c, view.shape), m.shape), m.shape) == Flat(c, view.shape)
      && view.Offset(c) == m.Offset(Decode(Flat(c, view.shape), m.shape))
  }

  method Reshape(m: CoordinateMap, shape: seq<nat>, ghost size: nat) returns (r: Result<CoordinateMap>)
    requires m.Valid() && Positive(m.shape)
    ensures r.Ok? <==> Contiguous(m) && shape != [] && Size(shape) == Size(m.shape)
    ensures r.Ok? ==> r.value.Valid() && r.value.shape == shape && Contiguous(r.value) && Reshapes(r.value, m)
    ensures r.Ok? && m.Good(size) ==> r.value.Good(size)
  {
    SizePositive(m.shape);
    if Size(m.shape) > U64_MAX || Size(shape) > U64_MAX {
      return Err(InvalidSchema);
    }
    if Size(shape) != Size(m.shape) {
      return Err(InvalidLayout);
    }
    if !Contiguous(m) {
      return Err(Unsupported);
    }
    EmptySize(shape);
    if shape == [] {
      return Err(InvalidSchema);
    }
    StridesBound(shape);
    var view := CoordinateMap(m.base, IdentityAxes(shape), shape);
    forall c: Coord | InShape(c, shape)
      ensures InShape(Decode(Flat(c, shape), m.shape), m.shape)
      ensures Flat(Decode(Flat(c, shape), m.shape), m.shape) == Flat(c, shape)
      ensures view.Offset(c) == m.Offset(Decode(Flat(c, shape), m.shape))
    {
      FlatBound(c, shape);
      FlatOfDecodeInside(Flat(c, shape), m.shape);
      ContiguousOffset(m, Decode(Flat(c, shape), m.shape));
      ContiguousOffset(view, c);
    }
    return Ok(view);
  }

  // ---------------------------------------------------------------------
  // Building a view axis by axis
  // ---------------------------------------------------------------------

  /** The view built so far reads the first `i` source axes through `plan`. */
  ghost predicate Building(view: CoordinateMap, m: CoordinateMap, plan: seq<Step>, i: nat, size: nat)
    requires m.Valid() && i <= |m.shape|
  {
    && view.Valid() && Prefix(m, i).Valid() && Positive(view.shape)
    && Reads(view, Prefix(m, i), plan)
    && (m.Good(size) ==> view.Bounded(size))
  }

  lemma BuildStart(m: CoordinateMap, size: nat)
    requires m.Valid()
    ensures Building(CoordinateMap(m.base, [], []), m, [], 0, size)
  {
    ReadsEmpty(m.base);
    PrefixFull(m);
  }

  lemma BuildDone(view: CoordinateMap, m: CoordinateMap, plan: seq<Step>, size: nat)
    requires m.Valid() && Building(view, m, plan, |m.shape|, size)
    ensures view.Valid() && Positive(view.shape) && Reads(view, m, plan)
    ensures m.Good(size) ==> view.Good(size)
  {
    PrefixFull(m);
    if m.Good(size) {
      ReadsInRange(view, m, plan, size);
    }
  }

  lemma BuildKept(view: CoordinateMap, m: CoordinateMap, plan: seq<Step>, i: nat, size: nat)
    requires m.Valid() && i < |m.shape| && m.shape[i] > 0 && Building(view, m, plan, i, size)
    ensures Building(Append(view, m.axes[i], m.shape[i]), m, plan + [Same()], i + 1, size)
  {
    hide Reads, CoordinateMap.InRange;
    PrefixSnoc(m, i);
    StepMapped(view, Prefix(m, i), plan, Same(), m.axes[i], m.shape[i], m.axes[i], m.shape[i], 0);
    assert Shift(view, 0) == view;
  }

  lemma BuildPinned(view: CoordinateMap, m: CoordinateMap, plan: seq<Step>, i: nat, size: nat)
    requires m.Valid() && i < |m.shape| && m.shape[i] > 0 && Building(view, m, plan, i, size)
    requires InI128(view.base + m.axes[i].Contribution(0))
    ensures Building(Shift(view, m.axes[i].Contribution(0)), m, plan + [Fixed(0)], i + 1, size)
  {
    hide Reads, CoordinateMap.InRange;
    PrefixSnoc(m, i);
    StepFixed(view, Prefix(m, i), plan, m.axes[i], m.shape[i], 0);
  }

  lemma BuildFresh(view: CoordinateMap, m: CoordinateMap, plan: seq<Step>, i: nat, axis: AxisContrib, dim: nat,
                   size: nat)
    requires m.Valid() && i <= |m.shape| && dim > 0 && Building(view, m, plan, i, size)
    requires axis.Fits(dim) && (m.Good(size) ==> axis.Bounded(size))
    requires forall x: nat :: x < dim ==> axis.Contribution(x) == 0
    ensures Building(Append(view, axis, dim), m, plan + [Fresh], i, size)
  {
    hide Reads, CoordinateMap.InRange;
    StepFresh(view, Prefix(m, i), plan, axis, dim);
  }

  lemma BuildCollapsed(view: CoordinateMap, m: CoordinateMap, plan: seq<Step>, i: nat, dim: nat, size: nat)
    requires m.Valid() && i < |m.shape| && m.shape[i] > 0 && dim > 0 && Building(view, m, plan, i, size)
    requires InI128(m.axes[i].Contribution(0))
    ensures Building(Append(view, Broadcast(m.axes[i].Contribution(0)), dim), m, plan + [Collapsed], i + 1, size)
  {
    hide Reads, CoordinateMap.InRange;
    PrefixSnoc(m, i);
    StepMapped(view, Prefix(m, i), plan, Collapsed, m.axes[i], m.shape[i],
               Broadcast(m.axes[i].Contribution(0)), dim, 0);
    assert Shift(view, 0) == view;
    if m.Good(size) {
      ContributionBound(m, size, i, 0);
    }
  }

  // ---------------------------------------------------------------------
  // Squeeze, unsqueeze and broadcast
  // ---------------------------------------------------------------------

  predicate Distinct(axes: seq<nat>) {
    forall i, j :: 0 <= i < j < |axes| ==> axes[i] != axes[j]
  }

  /** Marks the listed axes, rejecting out-of-range or repeated ones. */
  method MarkAxes(axes: seq<nat>, rank: nat) returns (r: Result<seq<bool>>)
    ensures r.Ok? <==> (forall k :: 0 <= k < |axes| ==> axes[k] < rank) && Distinct(axes)
    ensures r.Ok? ==> |r.value| == rank && forall j :: 0 <= j < rank ==> (r.value[j] <==> j in axes)
    ensures r.Err? ==> r.error == InvalidLayout
  {
    var marked := seq(rank, _ => false);
    for i := 0 to |axes|
      invariant |marked| == rank
      invariant forall k :: 0 <= k < i ==> axes[k] < rank
      invariant forall k, l :: 0 <= k < l < i ==> axes[k] != axes[l]
      invariant forall j :: 0 <= j < rank ==> (marked[j] <==> j in axes[..i])
    {
      if axes[i] >= rank || marked[axes[i]] {
        return Err(InvalidLayout);
      }
      assert axes[..i + 1] == axes[..i] + [axes[i]];
      marked := marked[axes[i] := true];
    }
    assert axes[..|axes|] == axes;
    return Ok(marked);
  }

  /** Squeezed axes are pinned at zero, the others are kept. */
  function SqueezePlan(rank: nat, axes: seq<nat>): (p: seq<Step>)
    ensures |p| == rank
    ensures forall i :: 0 <= i < rank ==> p[i] == if i in axes then Fixed(0) else Same()
  {
    seq(rank, i requires 0 <= i < rank => if i in axes then Fixed(0) else Same())
  }

  /** The items on axes that are not listed. */
  function Dropped<T>(items: seq<T>, axes: seq<nat>): seq<T> {
    if items == [] then []
    else
      var k := |items| - 1;
      Dropped(items[..k], axes) + if k in axes then [] else [items[k]]
  }

  lemma DroppedSnoc<T>(items: seq<T>, item: T, axes: seq<nat>)
    ensures Dropped(items + [item], axes) == if |items| in axes then Dropped(items, axes) else Dropped(items, axes) + [item]
  {
    assert (items + [item])[..|items|] == items;
    assert Dropped(items, axes) + [] == Dropped(items, axes);
  }

  /** How many listed axes come before one. */
  ghost function ListedBefore(axes: seq<nat>, i: nat): nat {
    |set k | k in axes && k < i|
  }

  lemma ListedNext(axes: seq<nat>, i: nat)
    ensures ListedBefore(axes, i + 1) == ListedBefore(axes, i) + if i in axes then 1 else 0
    ensures ListedBefore(axes, 0) == 0
  {
    var now, next := set k | k in axes && k < i, set k | k in axes && k < i + 1;
    assert next == if i in axes then now + {i} else now;
    assert (set k: nat | k in axes && k < 0) == {};
  }

  /** An item that is kept moves down by the listed axes before it. */
  lemma {:induction false} DroppedAt<T>(items: seq<T>, axes: seq<nat>, i: nat)
    requires i < |items|
    ensures |Dropped(items, axes)| + ListedBefore(axes, |items|) == |items|
    ensures i !in axes ==>
              && 0 <= i - ListedBefore(axes, i) < |Dropped(items, axes)|
              && Dropped(items, axes)[i - ListedBefore(axes, i)] == items[i]
    decreases |items|
  {
    hide ListedBefore;
    var k := |items| - 1;
    ListedNext(axes, k);
    if k > 0 {
      DroppedAt(items[..k], axes, if i < k then i else 0);
    }
  }

  /** A squeezed coordinate reads its source at zero on the listed axes. */
  lemma {:induction false} SqueezePhi(d: Coord, axes: seq<nat>)
    requires forall i :: 0 <= i < |d| && i in axes ==> d[i] == 0
    ensures Kept(SqueezePlan(|d|, axes)) == |Dropped(d, axes)|
    ensures Phi(SqueezePlan(|d|, axes), Dropped(d, axes)) == d
    decreases |d|
  {
    hide Phi, Kept, Dropped;
    if d == [] {
      NothingSqueezed(axes);
    } else {
      var k := |d| - 1;
      var front, x := d[..k], d[k];
      SqueezePhi(front, axes);
      assert d == front + [x];
      DroppedSnoc(front, x, axes);
      var plan := SqueezePlan(k, axes);
      if k in axes {
        assert SqueezePlan(|d|, axes) == plan + [Fixed(0)];
        PhiFixed(plan, 0, Dropped(front, axes));
      } else {
        assert SqueezePlan(|d|, axes) == plan + [Same()];
        PhiSnoc(plan, Same(), Dropped(front, axes), x);
      }
    }
  }

  lemma NothingSqueezed(axes: seq<nat>)
    ensures SqueezePlan(0, axes) == [] && Dropped<nat>([], axes) == [] && Kept([]) == 0 && Phi([], []) == []
  {}

  lemma {:induction false} DroppedInside(d: Coord, shape: seq<nat>, axes: seq<nat>)
    requires InShape(d, shape)
    ensures InShape(Dropped(d, axes), Dropped(shape, axes))
    decreases |d|
  {
    if d != [] {
      DroppedInside(d[..|d| - 1], shape[..|d| - 1], axes);
    }
  }

  lemma SqueezeReads(view: CoordinateMap, m: CoordinateMap, axes: seq<nat>, d: Coord)
    requires view.Valid() && m.Valid() && view.shape == Dropped(m.shape, axes) && SqueezeAccepts(m.shape, axes)
    requires Reads(view, m, SqueezePlan(|m.shape|, axes)) && InShape(d, m.shape)
    ensures InShape(Dropped(d, axes), view.shape) && view.Offset(Dropped(d, axes)) == m.Offset(d)
  {
    hide Phi, Kept, CoordinateMap.Offset, Dropped;
    forall i | 0 <= i < |d| && i in axes ensures d[i] == 0 {
      var k :| 0 <= k < |axes| && axes[k] == i;
      assert m.shape[axes[k]] == 1;
    }
    SqueezePhi(d, axes);
    DroppedInside(d, m.shape, axes);
    assert ReadsAt(view, m, SqueezePlan(|m.shape|, axes), Dropped(d, axes));
    assert AsCoord(Phi(SqueezePlan(|m.shape|, axes), Dropped(d, axes))) == d;
  }

  lemma DroppedNext<T>(items: seq<T>, i: nat, axes: seq<nat>)
    requires i <= |items|
    ensures Dropped(items[..0], axes) == []
    ensures i < |items| ==> Dropped(items[..i + 1], axes) == Dropped(items[..i], axes) + if i in axes then [] else [items[i]]
  {
    if i < |items| {
      assert items[..i + 1][..i] == items[..i];
    }
  }

  lemma SqueezeAll(view: CoordinateMap, m: CoordinateMap, axes: seq<nat>)
    requires view.Valid() && m.Valid() && view.shape == Dropped(m.shape, axes) && SqueezeAccepts(m.shape, axes)
    requires Reads(view, m, SqueezePlan(|m.shape|, axes))
    ensures forall d: Coord :: InShape(d, m.shape) ==>
              InShape(Dropped(d, axes), view.shape) && view.Offset(Dropped(d, axes)) == m.Offset(d)
  {
    forall d: Coord | InShape(d, m.shape)
      ensures InShape(Dropped(d, axes), view.shape) && view.Offset(Dropped(d, axes)) == m.Offset(d)
    {
      SqueezeReads(view, m, axes, d);
    }
  }

  predicate SqueezeAccepts(shape: seq<nat>, axes: seq<nat>) {
    && axes != [] && |axes| != |shape| && Distinct(axes)
    && forall k :: 0 <= k < |axes| ==> axes[k] < |shape| && shape[axes[k]] == 1
  }

  method CheckSqueeze(shape: seq<nat>, axes: seq<nat>) returns (r: Result<seq<bool>>)
    ensures r.Ok? <==> SqueezeAccepts(shape, axes)
    ensures r.Ok? ==> |r.value| == |shape| && forall j :: 0 <= j < |shape| ==> (r.value[j] <==> j in axes)
  {
    if axes == [] || |axes| == |shape| {
      return Err(InvalidLayout);
    }
    r := MarkAxes(axes, |shape|);
    if r.Ok? && exists k :: 0 <= k < |axes| && shape[axes[k]] != 1 {
      return Err(InvalidLayout);
    }
  }

  method Squeeze(m: CoordinateMap, axes: seq<nat>, ghost size: nat) returns (r: Result<CoordinateMap>)
    requires m.Valid() && Positive(m.shape)
    ensures r.Ok? ==> SqueezeAccepts(m.shape, axes)
    ensures r.Ok? ==> r.value.Valid() && r.value.shape == Dropped(m.shape, axes) && Positive(r.value.shape)
    ensures r.Ok? ==> Reads(r.value, m, SqueezePlan(|m.shape|, axes))
    ensures r.Ok? ==> forall d: Coord :: InShape(d, m.shape) ==>
              InShape(Dropped(d, axes), r.value.shape) && r.value.Offset(Dropped(d, axes)) == m.Offset(d)
    ensures r.Ok? && m.Good(size) ==> r.value.Good(size)
    ensures r.Err? && SqueezeAccepts(m.shape, axes) ==> r.error == MappingOverflow
    ensures Tame(m, size) ==> (r.Ok? <==> SqueezeAccepts(m.shape, axes))
  {
    hide Building, SqueezeAccepts, CoordinateMap.InRange, CoordinateMap.Offset, Reads, Kept, Phi, Near, Tame,
         AxisContrib.Contribution, Dropped;
    var marked := CheckSqueeze(m.shape, axes);
    if marked.Err? {
      return Err(InvalidLayout);
    }
    var view := CoordinateMap(m.base, [], []);
    ghost var plan := SqueezePlan(|m.shape|, axes);
    BuildStart(m, size);
    if Tame(m, size) {
      TameBase(m, size);
    }
    assert plan[..0] == [];
    DroppedNext(m.shape, 0, axes);
    for i := 0 to |m.shape|
      invariant Building(view, m, plan[..i], i, size)
      invariant view.shape == Dropped(m.shape[..i], axes)
      invariant Tame(m, size) ==> Near(view.base, |m.shape| + 1 + i, size)
    {
      if Tame(m, size) {
        ShiftTame(m, size, i, 0, view.base, |m.shape| + 1 + i);
      }
      assert plan[..i + 1] == plan[..i] + [plan[i]];
      DroppedNext(m.shape, i, axes);
      if marked.value[i] {
        var delta := SliceBoundAt(m.axes[i], m.shape[i], 0);
        if delta.Err? || !InI128(view.base + delta.value) {
          return Err(MappingOverflow);
        }
        BuildPinned(view, m, plan[..i], i, size);
        view := Shift(view, delta.value);
      } else {
        BuildKept(view, m, plan[..i], i, size);
        view := Append(view, m.axes[i], m.shape[i]);
      }
    }
    assert plan[..|m.shape|] == plan && m.shape[..|m.shape|] == m.shape;
    BuildDone(view, m, plan, size);
    SqueezeAll(view, m, axes);
    return Ok(view);
  }

  // ---------------------------------------------------------------------
  // Unsqueeze
  // ---------------------------------------------------------------------

  /** Singleton axes appear before each listed axis. */
  function UnsqueezePlan(rank: nat, axes: seq<nat>): seq<Step> {
    if rank == 0 then []
    else UnsqueezePlan(rank - 1, axes) + (if rank - 1 in axes then [Fresh] else []) + [Same()]
  }

  /** The items with a filler before each listed one. */
  function Inserted<T>(items: seq<T>, axes: seq<nat>, filler: T): seq<T> {
    if items == [] then []
    else
      var k := |items| - 1;
      Inserted(items[..k], axes, filler) + (if k in axes then [filler] else []) + [items[k]]
  }

  lemma {:induction false} InsertedPositive(shape: seq<nat>, axes: seq<nat>)
    requires Positive(shape)
    ensures Positive(Inserted(shape, axes, 1))
    decreases |shape|
  {
    if shape != [] {
      InsertedPositive(shape[..|shape| - 1], axes);
    }
  }

  /** An item moves up by the listed axes up to it, and a listed one has a filler before it. */
  lemma {:induction false} InsertedAt<T>(items: seq<T>, axes: seq<nat>, filler: T, i: nat)
    requires i < |items|
    ensures |Inserted(items, axes, filler)| == |items| + ListedBefore(axes, |items|)
    ensures var at := i + ListedBefore(axes, i + 1);
            && at < |Inserted(items, axes, filler)| && Inserted(items, axes, filler)[at] == items[i]
            && (i in axes ==> at > 0 && Inserted(items, axes, filler)[at - 1] == filler)
    decreases |items|
  {
    hide ListedBefore;
    var k := |items| - 1;
    ListedNext(axes, k);
    if k > 0 {
      InsertedAt(items[..k], axes, filler, if i < k then i else 0);
    }
  }

  /** An unsqueezed coordinate reads its source without the new axes. */
  lemma {:induction false} UnsqueezePhi(d: Coord, axes: seq<nat>)
    ensures Kept(UnsqueezePlan(|d|, axes)) == |Inserted(d, axes, 0)|
    ensures Phi(UnsqueezePlan(|d|, axes), Inserted(d, axes, 0)) == d
    decreases |d|
  {
    hide Phi, Kept;
    if d == [] {
      NothingSqueezed(axes);
    } else {
      var k := |d| - 1;
      UnsqueezePhi(d[..k], axes);
      var plan, c := UnsqueezePlan(k, axes), Inserted(d[..k], axes, 0);
      if k in axes {
        PhiFresh(plan, c, 0);
        PhiSnoc(plan + [Fresh], Same(), c + [0], d[k]);
      } else {
        PhiSnoc(plan, Same(), c, d[k]);
        assert plan + [] + [Same()] == plan + [Same()] && c + [] + [d[k]] == c + [d[k]];
      }
    }
  }

  lemma {:induction false} InsertedInside(d: Coord, shape: seq<nat>, axes: seq<nat>)
    requires InShape(d, shape)
    ensures InShape(Inserted(d, axes, 0), Inserted(shape, axes, 1))
    decreases |d|
  {
    if d != [] {
      InsertedInside(d[..|d| - 1], shape[..|d| - 1], axes);
    }
  }

  lemma UnsqueezeReads(view: CoordinateMap, m: CoordinateMap, axes: seq<nat>, d: Coord)
    requires view.Valid() && m.Valid() && view.shape == Inserted(m.shape, axes, 1)
    requires Reads(view, m, UnsqueezePlan(|m.shape|, axes)) && InShape(d, m.shape)
    ensures InShape(Inserted(d, axes, 0), view.shape) && view.Offset(Inserted(d, axes, 0)) == m.Offset(d)
  {
    hide Phi, Kept, CoordinateMap.Offset, Inserted, UnsqueezePlan;
    UnsqueezePhi(d, axes);
    InsertedInside(d, m.shape, axes);
    assert ReadsAt(view, m, UnsqueezePlan(|m.shape|, axes), Inserted(d, axes, 0));
    assert AsCoord(Phi(UnsqueezePlan(|m.shape|, axes), Inserted(d, axes, 0))) == d;
  }

  predicate UnsqueezeAccepts(shape: seq<nat>, axes: seq<nat>) {
    axes != [] && Distinct(axes) && Size(shape) <= U64_MAX && forall k :: 0 <= k < |axes| ==> axes[k] < |shape|
  }

  lemma {:induction false} UnsqueezeSize(shape: seq<nat>, axes: seq<nat>)
    ensures Size(Inserted(shape, axes, 1)) == Size(shape)
    decreases |shape|
  {
    if shape != [] {
      var k := |shape| - 1;
      var front := Inserted(shape[..k], axes, 1);
      UnsqueezeSize(shape[..k], axes);
      var one := if k in axes then [1] else [];
      assert shape == shape[..k] + [shape[k]];
      SizeConcat(shape[..k], [shape[k]]);
      SizeConcat(front + one, [shape[k]]);
      SizeConcat(front, one);
    }
  }

  method Unsqueeze(m: CoordinateMap, axes: seq<nat>, ghost size: nat) returns (r: Result<CoordinateMap>)
    requires m.Valid() && Positive(m.shape)
    ensures r.Ok? <==>
              axes != [] && Distinct(axes) && Size(m.shape) <= U64_MAX && forall k :: 0 <= k < |axes| ==> axes[k] < |m.shape|
    ensures r.Ok? ==> r.value.Valid() && r.value.shape == Inserted(m.shape, axes, 1) && Positive(r.value.shape)
    ensures r.Ok? ==> Reads(r.value, m, UnsqueezePlan(|m.shape|, axes))
    ensures r.Ok? ==> forall d: Coord :: InShape(d, m.shape) ==>
              InShape(Inserted(d, axes, 0), r.value.shape) && r.value.Offset(Inserted(d, axes, 0)) == m.Offset(d)
    ensures r.Ok? && m.Good(size) ==> r.value.Good(size)
  {
    hide Building, CoordinateMap.InRange, UnsqueezePlan, Inserted, Size, Kept, Phi;
    if axes == [] {
      return Err(InvalidLayout);
    }
    var marked := MarkAxes(axes, |m.shape|);
    if marked.Err? {
      return Err(InvalidLayout);
    }
    UnsqueezeSize(m.shape, axes);
    if Size(m.shape) > U64_MAX {
      return Err(InvalidSchema);
    }
    var target := Inserted(m.shape, axes, 1);
    InsertedPositive(m.shape, axes);
    var strides := Strides(target);
    StridesBound(target);
    var view := CoordinateMap(m.base, [], []);
    BuildStart(m, size);
    UnsqueezeNone(axes);
    for i := 0 to |m.shape|
      invariant Building(view, m, UnsqueezePlan(i, axes), i, size)
      invariant view.shape == Inserted(m.shape[..i], axes, 1)
    {
      ghost var plan := UnsqueezePlan(i, axes);
      UnsqueezePrefix(m.shape, axes, i);
      UnsqueezeNext(m.shape, axes, i);
      if marked.value[i] {
        var single := Stride(strides[|view.shape|]);
        BuildFresh(view, m, plan, i, single, 1, size);
        view := Append(view, single, 1);
        plan := plan + [Fresh];
      }
      BuildKept(view, m, plan, i, size);
      view := Append(view, m.axes[i], m.shape[i]);
    }
    assert m.shape[..|m.shape|] == m.shape;
    BuildDone(view, m, UnsqueezePlan(|m.shape|, axes), size);
    forall d: Coord | InShape(d, m.shape)
      ensures InShape(Inserted(d, axes, 0), view.shape) && view.Offset(Inserted(d, axes, 0)) == m.Offset(d)
    {
      UnsqueezeReads(view, m, axes, d);
    }
    return Ok(view);
  }

  lemma UnsqueezeNone(axes: seq<nat>)
    ensures UnsqueezePlan(0, axes) == [] && Inserted<nat>([], axes, 1) == []
  {}

  lemma UnsqueezeNext(shape: seq<nat>, axes: seq<nat>, i: nat)
    requires i < |shape|
    ensures UnsqueezePlan(i + 1, axes)
         == (if i in axes then UnsqueezePlan(i, axes) + [Fresh] else UnsqueezePlan(i, axes)) + [Same()]
    ensures Inserted(shape[..i + 1], axes, 1)
         == (if i in axes then Inserted(shape[..i], axes, 1) + [1] else Inserted(shape[..i], axes, 1)) + [shape[i]]
  {
    assert shape[..i + 1][..i] == shape[..i];
    assert UnsqueezePlan(i, axes) + [] == UnsqueezePlan(i, axes);
    assert Inserted(shape[..i], axes, 1) + [] == Inserted(shape[..i], axes, 1);
  }

  /** The next inserted axis is a position of the target shape. */
  lemma {:induction false} UnsqueezePrefix(shape: seq<nat>, axes: seq<nat>, i: nat)
    requires i < |shape|
    ensures |Inserted(shape[..i], axes, 1)| < |Inserted(shape, axes, 1)|
    decreases |shape|
  {
    var k := |shape| - 1;
    if i < k {
      UnsqueezePrefix(shape[..k], axes, i);
      assert shape[..k][..i] == shape[..i];
    }
  }

  // ---------------------------------------------------------------------
  // Broadcast
  // ---------------------------------------------------------------------

  /** New leading axes, then old axes kept or stretched from dimension one. */
  function BroadcastPlan(shape: seq<nat>, target: seq<nat>): (p: seq<Step>)
    requires |shape| <= |target|
    ensures |p| == |target|
    ensures forall i :: 0 <= i < |target| ==>
              var lead := |target| - |shape|;
              p[i] == if i < lead then Fresh else if shape[i - lead] == 1 then Collapsed else Same()
  {
    var lead := |target| - |shape|;
    seq(|target|, i requires 0 <= i < |target| =>
      if i < lead then Fresh else if shape[i - lead] == 1 then Collapsed else Same())
  }

  lemma {:induction false} BroadcastPhi(shape: seq<nat>, target: seq<nat>, c: Coord, d: Coord, n: nat)
    requires |shape| <= |target| == |c| && |d| == |shape| && n <= |c|
    requires forall i :: 0 <= i < |d| ==> d[i] == if shape[i] == 1 then 0 else c[|target| - |shape| + i]
    ensures Kept(BroadcastPlan(shape, target)[..n]) == n
    ensures Phi(BroadcastPlan(shape, target)[..n], c[..n]) == d[..Max(0, n - (|target| - |shape|))]
    decreases n
  {
    hide Phi, Kept;
    var plan, lead := BroadcastPlan(shape, target), |target| - |shape|;
    if n == 0 {
      NothingSqueezed([]);
      assert plan[..0] == [] && c[..0] == [] && d[..0] == [];
    } else {
      BroadcastPhi(shape, target, c, d, n - 1);
      var k := n - 1;
      assert plan[..n] == plan[..k] + [plan[k]] && c[..n] == c[..k] + [c[k]];
      if k < lead {
        PhiFresh(plan[..k], c[..k], c[k]);
      } else {
        PhiSnoc(plan[..k], plan[k], c[..k], c[k]);
        assert d[..n - lead] == d[..k - lead] + [d[k - lead]];
      }
    }
  }

  /** Stretched axes read coordinate zero, the others their own, and the new leading axes nothing. */
  lemma BroadcastReads(view: CoordinateMap, m: CoordinateMap, target: seq<nat>, c: Coord, d: Coord)
    requires view.Valid() && m.Valid() && view.shape == target && |m.shape| <= |target|
    requires Reads(view, m, BroadcastPlan(m.shape, target)) && InShape(c, target) && |d| == |m.shape|
    requires forall i :: 0 <= i < |d| ==> d[i] == if m.shape[i] == 1 then 0 else c[|target| - |m.shape| + i]
    ensures InShape(d, m.shape) && view.Offset(c) == m.Offset(d)
  {
    hide Phi, Kept, CoordinateMap.Offset, BroadcastPlan;
    var plan := BroadcastPlan(m.shape, target);
    BroadcastPhi(m.shape, target, c, d, |target|);
    assert plan[..|target|] == plan && c[..|target|] == c && d[..|d|] == d;
    assert ReadsAt(view, m, plan, c);
    assert AsCoord(Phi(plan, c)) == d;
  }

  lemma BroadcastAll(view: CoordinateMap, m: CoordinateMap, target: seq<nat>)
    requires view.Valid() && m.Valid() && view.shape == target && |m.shape| <= |target|
    requires Reads(view, m, BroadcastPlan(m.shape, target))
    ensures forall c: Coord, d: Coord ::
              InShape(c, target) && |d| == |m.shape|
              && (forall i :: 0 <= i < |d| ==> d[i] == if m.shape[i] == 1 then 0 else c[|target| - |m.shape| + i]) ==>
                InShape(d, m.shape) && view.Offset(c) == m.Offset(d)
  {
    hide Reads, CoordinateMap.Offset;
    forall c: Coord, d: Coord | InShape(c, target) && |d| == |m.shape|
                                && (forall i :: 0 <= i < |d| ==> d[i] == if m.shape[i] == 1 then 0 else c[|target| - |m.shape| + i])
      ensures InShape(d, m.shape) && view.Offset(c) == m.Offset(d)
    {
      BroadcastReads(view, m, target, c, d);
    }
  }

  predicate BroadcastAccepts(shape: seq<nat>, target: seq<nat>) {
    && target != [] && Positive(target) && Size(target) <= U64_MAX
    && |shape| <= |target|
    && forall i :: 0 <= i < |shape| ==>
         shape[i] == 1 || shape[i] == target[|target| - |shape| + i]
  }

  method BroadcastTo(m: CoordinateMap, target: seq<nat>, ghost size: nat) returns (r: Result<CoordinateMap>)
    requires m.Valid() && Positive(m.shape)
    ensures r.Ok? <==>
              && target != [] && Positive(target) && Size(target) <= U64_MAX && |m.shape| <= |target|
              && forall i :: 0 <= i < |m.shape| ==> m.shape[i] == 1 || m.shape[i] == target[|target| - |m.shape| + i]
    ensures r.Ok? ==> r.value.Valid() && r.value.shape == target
    ensures r.Ok? ==> Reads(r.value, m, BroadcastPlan(m.shape, target))
    ensures r.Ok? ==> forall c: Coord, d: Coord ::
              InShape(c, target) && |d| == |m.shape|
              && (forall i :: 0 <= i < |d| ==> d[i] == if m.shape[i] == 1 then 0 else c[|target| - |m.shape| + i]) ==>
                InShape(d, m.shape) && r.value.Offset(c) == m.Offset(d)
    ensures r.Ok? && m.Good(size) ==> r.value.Good(size)
  {
    hide Building, CoordinateMap.InRange, CoordinateMap.Offset, Reads, Size, Kept, Phi;
    if target == [] || 0 in target || Size(target) > U64_MAX {
      return Err(InvalidSchema);
    }
    if |target| < |m.shape| {
      return Err(InvalidLayout);
    }
    var lead := |target| - |m.shape|;
    var view := CoordinateMap(m.base, [], []);
    ghost var plan := BroadcastPlan(m.shape, target);
    BuildStart(m, size);
    assert plan[..0] == [];
    for i := 0 to lead
      invariant Building(view, m, plan[..i], 0, size)
      invariant view.shape == target[..i]
    {
      assert plan[..i + 1] == plan[..i] + [plan[i]];
      assert target[..i + 1] == target[..i] + [target[i]];
      BuildFreshZero(view, m, plan[..i], target[i], size);
      view := Append(view, Broadcast(0), target[i]);
    }
    for i := 0 to |m.shape|
      invariant Building(view, m, plan[..lead + i], i, size)
      invariant view.shape == target[..lead + i]
      invariant forall k :: 0 <= k < i ==> m.shape[k] == 1 || m.shape[k] == target[lead + k]
    {
      var dim, wanted := m.shape[i], target[lead + i];
      if dim != 1 && dim != wanted {
        return Err(InvalidLayout);
      }
      assert plan[..lead + i + 1] == plan[..lead + i] + [plan[lead + i]];
      assert target[..lead + i + 1] == target[..lead + i] + [wanted];
      if dim == 1 {
        var constant := match m.axes[i]
          case Stride(_) => 0
          case Broadcast(c) => c
          case Gathered(g) => g.Get(0).value;
        BuildCollapsed(view, m, plan[..lead + i], i, wanted, size);
        view := Append(view, Broadcast(constant), wanted);
      } else {
        BuildKept(view, m, plan[..lead + i], i, size);
        view := Append(view, m.axes[i], wanted);
      }
    }
    assert plan[..|target|] == plan && target[..|target|] == target;
    BuildDone(view, m, plan, size);
    BroadcastAll(view, m, target);
    return Ok(view);
  }

  lemma BuildFreshZero(view: CoordinateMap, m: CoordinateMap, plan: seq<Step>, dim: nat, size: nat)
    requires m.Valid() && dim > 0 && Building(view, m, plan, 0, size)
    ensures Building(Append(view, Broadcast(0), dim), m, plan + [Fresh], 0, size)
  {
    if m.Good(size) {
      var zero := Zeros(|m.shape|);
      ZerosInShape(m.shape);
      assert 0 <= m.Offset(zero) < size;
    }
    BuildFresh(view, m, plan, 0, Broadcast(0), dim, size);
  }

  // ---------------------------------------------------------------------
  // Chains of transforms
  // ---------------------------------------------------------------------

  datatype Transform =
    | ReshapeTo(shape: seq<nat>)
    | BroadcastShape(shape: seq<nat>)
    | SliceRange(range: seq<AxisRange>)
    | TransposeAxes(permutation: Option<seq<nat>>)
    | FlipAxis(axis: nat)
    | SqueezeAxes(axes: seq<nat>)
    | UnsqueezeAxes(axes: seq<nat>)

  ghost predicate Mirrored(m: CoordinateMap, axis: nat, view: CoordinateMap)
    requires m.Valid() && view.Valid()
  {
    view.shape == m.shape && forall c: Coord :: InShape(c, m.shape) ==>
      && axis < |m.shape| && InShape(c[axis := m.shape[axis] - 1 - c[axis]], m.shape)
      && view.Offset(c) == m.Offset(c[axis := m.shape[axis] - 1 - c[axis]])
  }

  /** What a transform makes of a map: its shape, and which coordinate of the source each coordinate reads. */
  ghost predicate Transformed(m: CoordinateMap, t: Transform, view: CoordinateMap)
    requires m.Valid() && Positive(m.shape) && view.Valid()
  {
    match t
    case ReshapeTo(shape) => view.shape == shape && Reshapes(view, m)
    case BroadcastShape(target) =>
      view.shape == target && forall c: Coord, d: Coord ::
        InShape(c, target) && |d| == |m.shape| <= |target|
        && (forall i :: 0 <= i < |d| ==> d[i] == if m.shape[i] == 1 then 0 else c[|target| - |m.shape| + i]) ==>
          InShape(d, m.shape) && view.Offset(c) == m.Offset(d)
    case SliceRange(range) =>
      view.shape == SliceShape(range) && Positive(view.shape) && forall k: nat :: k < Size(view.shape) ==>
        && k < Cartesian(AxesOfRange(range)).Len()
        && InShape(Decode(k, view.shape), view.shape)
        && InShape(Cartesian(AxesOfRange(range)).Coordinate(k), m.shape)
        && view.Offset(Decode(k, view.shape)) == m.Offset(Cartesian(AxesOfRange(range)).Coordinate(k))
    case TransposeAxes(permutation) =>
      Transposes(view, m, if permutation.Some? then permutation.value else Backwards(|m.shape|))
    case FlipAxis(axis) => Mirrored(m, axis, view)
    case SqueezeAxes(axes) =>
      view.shape == Dropped(m.shape, axes) && forall d: Coord :: InShape(d, m.shape) ==>
        InShape(Dropped(d, axes), view.shape) && view.Offset(Dropped(d, axes)) == m.Offset(d)
    case UnsqueezeAxes(axes) =>
      UnsqueezeAccepts(m.shape, axes)
      && view.shape == Inserted(m.shape, axes, 1) && forall d: Coord :: InShape(d, m.shape) ==>
        InShape(Inserted(d, axes, 0), view.shape) && view.Offset(Inserted(d, axes, 0)) == m.Offset(d)
  }

  /** The transforms a reachable map admits. */
  predicate Admits(m: CoordinateMap, t: Transform)
    requires m.Valid()
  {
    match t
    case ReshapeTo(shape) => Contiguous(m) && shape != [] && Size(shape) == Size(m.shape)
    case BroadcastShape(shape) => BroadcastAccepts(m.shape, shape)
    case SliceRange(range) => SliceAccepts(range, m.shape) && StepsScale(m, range)
    case TransposeAxes(permutation) =>
      permutation.Some? ==> |permutation.value| == |m.shape| && IsPermutation(permutation.value)
    case FlipAxis(axis) => axis < |m.shape| && StrideNegates(m.axes[axis])
    case SqueezeAxes(axes) => SqueezeAccepts(m.shape, axes)
    case UnsqueezeAxes(axes) => UnsqueezeAccepts(m.shape, axes)
  }

  method ApplyTransform(m: CoordinateMap, t: Transform, ghost size: nat) returns (r: Result<CoordinateMap>)
    requires m.Valid() && Positive(m.shape)
    requires t.SliceRange? ==> forall i :: 0 <= i < |t.range| && t.range[i].Of? ==> |t.range[i].indices| <= U64_MAX
    ensures r.Ok? ==> r.value.Valid() && Positive(r.value.shape) && Transformed(m, t, r.value)
    ensures r.Ok? && m.Good(size) ==> r.value.Good(size)
    ensures Tame(m, size) ==> (r.Ok? <==> Admits(m, t))
  {
    hide CoordinateMap.Offset, CoordinateMap.InRange, CoordinateMap.Bounded, Size, Decode, Reads, InShape, Dropped,
         Inserted, Reshapes, SliceShape, SliceAccepts, StepsScale,
         StrideNegates, SqueezeAccepts, Cartesian.Len, Cartesian.Coordinate, AxesOfRange;
    match t {
      case ReshapeTo(shape) => r := Reshape(m, shape, size);
      case BroadcastShape(shape) => r := BroadcastTo(m, shape, size);
      case SliceRange(range) => r := Slice(m, range, size);
      case TransposeAxes(permutation) => r := Transpose(m, permutation, size);
      case FlipAxis(axis) => r := Flip(m, axis, size);
      case SqueezeAxes(axes) => r := Squeeze(m, axes, size);
      case UnsqueezeAxes(axes) => r := Unsqueeze(m, axes, size);
    }
  }

  /** Maps that follow from one another by the transforms of a chain. */
  ghost predicate Follows(maps: seq<CoordinateMap>, chain: seq<Transform>, size: nat) {
    && 0 < |maps| <= |chain| + 1
    && (forall k :: 0 <= k < |maps| ==> maps[k].Good(size))
    && forall k :: 0 <= k < |maps| - 1 ==> Transformed(maps[k], chain[k], maps[k + 1])
  }

  /** A chain applies its transforms one after another to the identity; every map it reaches sends every
      in-shape coordinate into the base, so that `Resolve` can never fail on it. It stops at the first
      transform that the map before it does not admit. */
  method ApplyChain(shape: seq<nat>, chain: seq<Transform>)
    returns (r: Result<CoordinateMap>, ghost maps: seq<CoordinateMap>)
    requires Positive(shape) && Size(shape) <= U64_MAX
    requires forall k :: 0 <= k < |chain| && chain[k].SliceRange? ==>
               forall i :: 0 <= i < |chain[k].range| && chain[k].range[i].Of? ==> |chain[k].range[i].indices| <= U64_MAX
    ensures Follows(maps, chain, Size(shape)) && maps[0] == Identity(shape)
    ensures r.Ok? ==> r.value.Good(Size(shape))
    ensures r.Ok? ==> |maps| == |chain| + 1 && maps[|chain|] == r.value
    ensures r.Err? ==> |maps| <= |chain|
                       && (Tame(maps[|maps| - 1], Size(shape)) ==> !Admits(maps[|maps| - 1], chain[|maps| - 1]))
  {
    hide Transformed, Admits, Size, CoordinateMap.InRange, CoordinateMap.Bounded;
    var m := Identity(shape);
    maps := [m];
    IdentityGood(shape);
    for i := 0 to |chain|
      invariant |maps| == i + 1 && maps[i] == m && maps[0] == Identity(shape)
      invariant Follows(maps, chain, Size(shape))
    {
      var next := ApplyTransform(m, chain[i], Size(shape));
      if next.Err? {
        return next, maps;
      }
      m := next.value;
      maps := maps + [m];
    }
    return Ok(m), maps;
  }
}
