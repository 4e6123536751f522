/** Coordinate mapping shared by geometric views and aggregate outputs.

    A map sends a logical coordinate to a flat base offset: a base offset plus one
    independent contribution per axis. */
module Mapping {
  import opened Radix
  import opened Wrappers
  import opened Request

  // ---------------------------------------------------------------------
  // Gather tables
  // ---------------------------------------------------------------------

  /** A shared table of offsets, read through a start, a step and a direction. */
  datatype Gather = Gather(table: seq<int>, start: nat, step: nat, reversed: bool, len: nat) {
    function Index(i: nat): int {
      if reversed then start - i * step else start + i * step
    }

    /** Checked access: nothing outside the descriptor or the table. */
    function Get(i: nat): Option<int> {
      if i < len && 0 <= Index(i) < |table| then Some(table[Index(i)]) else None
    }

    predicate Valid() {
      forall i :: 0 <= i < len ==> 0 <= Index(i) < |table|
    }

    function At(i: nat): int
      requires Valid() && i < len
    {
      table[Index(i)]
    }

    /** `slice`: every `step`-th entry from `from`, sharing the table. */
    function Slice(from: nat, skip: nat, count: nat): Result<Gather> {
      if count > 0 && (from >= len || Index(from) < 0) then Err(InvalidLayout)
      else if count > 1 && step * skip > U64_MAX then Err(InvalidLayout)
      else
        var first := if count == 0 then start else Index(from);
        Ok(Gather(table, first, if count <= 1 then 1 else step * skip, reversed, count))
    }

    function Flipped(): Gather
      requires Valid()
    {
      Gather(table, if len == 0 then start else Index(len - 1), step, !reversed, len)
    }
  }

  function FromTable(offsets: seq<int>): (g: Gather)
    ensures g.Valid() && g.len == |offsets|
    ensures forall i :: 0 <= i < |offsets| ==> g.At(i) == offsets[i]
  {
    Gather(offsets, 0, 1, false, |offsets|)
  }

  lemma GatherIndexStep(g: Gather, from: nat, skip: nat, k: nat, first: int, step: int)
    requires first == g.Index(from) && step == g.step * skip
    ensures (if g.reversed then first - k * step else first + k * step) == g.Index(from + skip * k)
  {
    assert (from + skip * k) * g.step == from * g.step + k * (g.step * skip);
  }

  /** A slice of a table reads the selected entries, and cannot overflow its stride. */
  lemma GatherSlice(g: Gather, from: nat, skip: nat, count: nat)
    requires g.Valid() && |g.table| <= U64_MAX && skip > 0
    requires count > 0 ==> from + skip * (count - 1) < g.len
    ensures g.Slice(from, skip, count).Ok?
    ensures var s := g.Slice(from, skip, count).value;
            s.Valid() && s.len == count && forall k :: 0 <= k < count ==>
              0 <= from + skip * k < g.len && s.At(k) == g.At(from + skip * k)
  {
    if count > 1 {
      MulMonotone(1, count - 1, skip);
      GatherIndexStep(g, from, skip, 1, g.Index(from), g.step * skip);
    }
    var s := g.Slice(from, skip, count).value;
    forall k | 0 <= k < count
      ensures 0 <= from + skip * k < g.len && s.Index(k) == g.Index(from + skip * k)
    {
      MulMonotone(k, count - 1, skip);
      MulMonotone(0, k, skip);
      if count > 1 {
        GatherIndexStep(g, from, skip, k, g.Index(from), g.step * skip);
      }
    }
  }

  lemma GatherFlip(g: Gather)
    requires g.Valid()
    ensures g.Flipped().Valid() && g.Flipped().len == g.len
    ensures forall k :: 0 <= k < g.len ==> g.Flipped().At(k) == g.At(g.len - 1 - k)
  {
    var f := g.Flipped();
    forall k | 0 <= k < g.len ensures f.Index(k) == g.Index(g.len - 1 - k) {
      assert (g.len - 1 - k) * g.step == (g.len - 1) * g.step - k * g.step;
    }
  }

  // ---------------------------------------------------------------------
  // Maps
  // ---------------------------------------------------------------------

  datatype AxisContrib =
    | Stride(stride: int)
    | Gathered(gather: Gather)
    | Broadcast(constant: int)
  {
    /** The descriptor covers a dimension and holds representable values. */
    predicate Fits(dim: nat) {
      match this
      case Stride(s) => InI128(s)
      case Broadcast(c) => InI128(c)
      case Gathered(g) =>
        && g.Valid() && g.len == dim && |g.table| <= U64_MAX
        && forall i :: 0 <= i < |g.table| ==> InI128(g.table[i])
    }

    /** Constants recorded by gathers and broadcasts are differences of base offsets. */
    predicate Bounded(size: nat) {
      match this
      case Stride(_) => true
      case Broadcast(c) => Below(c, size)
      case Gathered(g) => forall k :: 0 <= k < |g.table| ==> Below(g.table[k], size)
    }

    function Contribution(x: nat): int
      requires Gathered? ==> gather.Valid() && x < gather.len
    {
      match this
      case Stride(s) => x * s
      case Broadcast(c) => c
      case Gathered(g) => g.At(x)
    }
  }

  /** Magnitude strictly below a bound. */
  predicate Below(x: int, b: int) {
    -b < x < b
  }

  function Sum(v: seq<int>): int {
    if v == [] then 0 else v[0] + Sum(v[1..])
  }

  datatype CoordinateMap = CoordinateMap(base: int, axes: seq<AxisContrib>, shape: seq<nat>) {
    predicate Valid() {
      && |axes| == |shape|
      && InI128(base)
      && forall i :: 0 <= i < |axes| ==> axes[i].Fits(shape[i])
    }

    function Contributions(c: Coord): (v: seq<int>)
      requires Valid() && InShape(c, shape)
      ensures |v| == |c|
      ensures forall i :: 0 <= i < |v| ==> v[i] == axes[i].Contribution(c[i])
    {
      seq(|c|, i requires 0 <= i < |c| => axes[i].Contribution(c[i]))
    }

    /** The flat base offset of a logical coordinate. */
    function Offset(c: Coord): int
      requires Valid() && InShape(c, shape)
    {
      base + Sum(Contributions(c))
    }

    /** Every in-shape coordinate lands inside a base of `size` elements. */
    ghost predicate InRange(size: nat)
      requires Valid()
    {
      forall c: Coord :: InShape(c, shape) ==> 0 <= Offset(c) < size
    }

    predicate Bounded(size: nat) {
      forall i :: 0 <= i < |axes| ==> axes[i].Bounded(size)
    }

    /** What every map reached from an identity map satisfies; see `Transforms`. */
    ghost predicate Good(size: nat) {
      Valid() && Positive(shape) && InRange(size) && Bounded(size)
    }
  }

  /** Ranks far beyond memory are excluded so that checked sums cannot overflow. */
  const MAX_RANK: nat := 0x1000_0000_0000_0000

  function Identity(shape: seq<nat>): (m: CoordinateMap)
    requires Positive(shape) && Size(shape) <= U64_MAX
  {
    CoordinateMap(0, IdentityAxes(shape), shape)
  }

  function IdentityAxes(shape: seq<nat>): (a: seq<AxisContrib>)
    ensures |a| == |shape|
    ensures forall i :: 0 <= i < |a| ==> a[i] == Stride(Strides(shape)[i])
  {
    seq(|shape|, i requires 0 <= i < |shape| => Stride(Strides(shape)[i]))
  }

  // ---------------------------------------------------------------------
  // Sums
  // ---------------------------------------------------------------------

  lemma {:induction false} SumConcat(a: seq<int>, b: seq<int>)
    ensures Sum(a + b) == Sum(a) + Sum(b)
  {
    if a == [] {
      assert a + b == b;
    } else {
      SumConcat(a[1..], b);
      assert (a + b)[1..] == a[1..] + b;
    }
  }

  lemma SumSnoc(v: seq<int>, k: nat)
    requires k < |v|
    ensures Sum(v[..k + 1]) == Sum(v[..k]) + v[k]
  {
    assert v[..k + 1] == v[..k] + [v[k]];
    SumConcat(v[..k], [v[k]]);
  }

  lemma SumSplit(v: seq<int>, k: nat)
    requires k < |v|
    ensures Sum(v) == Sum(v[..k]) + v[k] + Sum(v[k + 1..])
  {
    assert v == v[..k] + ([v[k]] + v[k + 1..]);
    SumConcat(v[..k], [v[k]] + v[k + 1..]);
    assert ([v[k]] + v[k + 1..])[1..] == v[k + 1..];
  }

  lemma SumUpdate(v: seq<int>, k: nat, x: int)
    requires k < |v|
    ensures Sum(v[k := x]) == Sum(v) + x - v[k]
  {
    SumSplit(v, k);
    SumSplit(v[k := x], k);
    assert v[k := x][..k] == v[..k] && v[k := x][k + 1..] == v[k + 1..];
  }

  lemma {:induction false} SumBound(v: seq<int>, b: int)
    requires b >= 0
    requires forall i :: 0 <= i < |v| ==> Below(v[i], b + 1)
    ensures -(|v| * b) <= Sum(v) <= |v| * b
  {
    if v != [] {
      SumBound(v[1..], b);
      assert |v| * b == |v[1..]| * b + b;
    }
  }

  // ---------------------------------------------------------------------
  // Offsets of good maps
  // ---------------------------------------------------------------------

  lemma ZerosInShape(shape: seq<nat>)
    requires Positive(shape)
    ensures InShape(Zeros(|shape|), shape)
  {}

  /** Changing one coordinate changes the offset by that axis' contribution alone. */
  lemma OffsetUpdate(m: CoordinateMap, c: Coord, k: nat, x: nat)
    requires m.Valid() && InShape(c, m.shape) && k < |c| && x < m.shape[k]
    ensures InShape(c[k := x], m.shape)
    ensures m.Offset(c[k := x]) == m.Offset(c) + m.axes[k].Contribution(x) - m.axes[k].Contribution(c[k])
  {
    var v := m.Contributions(c);
    SumUpdate(v, k, m.axes[k].Contribution(x));
    assert m.Contributions(c[k := x]) == v[k := m.axes[k].Contribution(x)];
  }

  lemma ContributionBound(m: CoordinateMap, size: nat, i: nat, x: nat)
    requires m.Good(size) && i < |m.shape| && x < m.shape[i]
    ensures Below(m.axes[i].Contribution(x), size)
  {
    if m.axes[i].Stride? {
      var zero := Zeros(|m.shape|);
      ZerosInShape(m.shape);
      OffsetUpdate(m, zero, i, x);
      assert 0 <= m.Offset(zero[i := x]) < size && 0 <= m.Offset(zero) < size;
    }
  }

  /** Partial sums of a good map's contributions stay far inside `i128`. */
  lemma PartialBound(m: CoordinateMap, size: nat, c: Coord, k: nat)
    requires m.Good(size) && size <= U64_MAX && |m.shape| <= MAX_RANK
    requires InShape(c, m.shape) && k <= |c|
    ensures InI128(m.base + Sum(m.Contributions(c)[..k]))
    ensures k < |c| ==> InI128(m.Contributions(c)[k])
  {
    var v := m.Contributions(c);
    forall i | 0 <= i < |v| ensures Below(v[i], size + 1) {
      ContributionBound(m, size, i, c[i]);
    }
    assert 0 <= m.Offset(c) < size;
    SumBound(v, size);
    SumBound(v[..k], size);
    MulMonotone(|v|, MAX_RANK, size);
    MulMonotone(k, MAX_RANK, size);
    assert MAX_RANK * size <= MAX_RANK * U64_MAX by { MulMonotone(size, U64_MAX, MAX_RANK); }
  }

  /** A good map small enough that no sum of contributions can overflow. */
  ghost predicate Tame(m: CoordinateMap, size: nat) {
    m.Good(size) && size <= U64_MAX && |m.shape| <= MAX_RANK
  }

  /** A base offset reached by `k` shifts smaller than the base. */
  predicate Near(base: int, k: nat, size: nat) {
    -(k * size) <= base <= k * size
  }

  lemma NearStep(base: int, delta: int, k: nat, size: nat)
    requires Near(base, k, size) && Below(delta, size)
    ensures Near(base + delta, k + 1, size)
  {
    assert (k + 1) * size == k * size + size;
  }

  lemma NearWider(base: int, k: nat, l: nat, size: nat)
    requires Near(base, k, size) && k <= l
    ensures Near(base, l, size)
  {
    MulMonotone(k, l, size);
  }

  lemma NearFits(base: int, k: nat, size: nat)
    requires Near(base, k, size) && k <= 2 * MAX_RANK + 1 && size <= U64_MAX
    ensures InI128(base)
  {
    MulMonotone(k, 2 * MAX_RANK + 1, size);
    MulMonotone(size, U64_MAX, 2 * MAX_RANK + 1);
  }

  lemma BaseNear(m: CoordinateMap, size: nat)
    requires m.Good(size)
    ensures Near(m.base, |m.shape| + 1, size)
  {
    var zero := Zeros(|m.shape|);
    ZerosInShape(m.shape);
    var v := m.Contributions(zero);
    forall i | 0 <= i < |v| ensures Below(v[i], size + 1) {
      ContributionBound(m, size, i, 0);
    }
    assert 0 <= m.Offset(zero) < size;
    SumBound(v, size);
    assert (|v| + 1) * size == |v| * size + size;
  }

  /** `flat_offset` in checked arithmetic. */
  method FlatOffset(m: CoordinateMap, c: Coord, ghost size: nat) returns (r: Result<int>)
    requires m.Valid()
    ensures |c| != |m.shape| ==> r == Err(InvalidCoord)
    ensures InShape(c, m.shape) && r.Ok? ==> r.value == m.Offset(c)
    ensures InShape(c, m.shape) && m.Good(size) && size <= U64_MAX && |m.shape| <= MAX_RANK ==> r.Ok?
  {
    if |c| != |m.axes| {
      return Err(InvalidCoord);
    }
    var k := m.base;
    var i := 0;
    while i < |c|
      invariant 0 <= i <= |c|
      invariant InShape(c, m.shape) ==> k == m.base + Sum(m.Contributions(c)[..i])
    {
      var delta: int;
      match m.axes[i] {
        case Stride(s) => delta := c[i] * s;
        case Broadcast(constant) => delta := constant;
        case Gathered(g) =>
          var entry := g.Get(c[i]);
          if entry.None? {
            return Err(InvalidCoord);
          }
          delta := entry.value;
      }
      if InShape(c, m.shape) {
        assert delta == m.Contributions(c)[i];
        SumSnoc(m.Contributions(c), i);
        if m.Good(size) && size <= U64_MAX && |m.shape| <= MAX_RANK {
          PartialBound(m, size, c, i);
          PartialBound(m, size, c, i + 1);
        }
      }
      if !InI128(delta) || !InI128(k + delta) {
        return Err(InvalidCoord);
      }
      k := k + delta;
      i := i + 1;
    }
    if InShape(c, m.shape) {
      assert m.Contributions(c)[..|c|] == m.Contributions(c);
    }
    return Ok(k);
  }

  /** `resolve_into`: the base coordinate holding a logical coordinate's value. */
  method Resolve(m: CoordinateMap, c: Coord, shape: seq<nat>, strides: seq<nat>) returns (r: Result<Coord>)
    requires m.Valid() && Positive(shape) && strides == Strides(shape) && Size(shape) <= U64_MAX
    ensures r.Ok? ==> InShape(c, m.shape) && 0 <= m.Offset(c) < Size(shape)
    ensures r.Ok? ==> r.value == Decode(m.Offset(c), shape)
    ensures InShape(c, m.shape) && m.Good(Size(shape)) && |m.shape| <= MAX_RANK ==> r.Ok?
  {
    if !InShape(c, m.shape) {
      return Err(InvalidCoord);
    }
    var flat := FlatOffset(m, c, Size(shape));
    if flat.Err? {
      return Err(flat.error);
    }
    if flat.value < 0 || flat.value > U64_MAX || flat.value >= Size(shape) {
      return Err(InvalidCoord);
    }
    StridesPositive(shape);
    var out: Coord := seq(|shape|, i requires 0 <= i < |shape| => flat.value / strides[i] % shape[i]);
    forall i | 0 <= i < |shape| ensures out[i] == Decode(flat.value, shape)[i] {
      DecodeAt(flat.value, shape, i);
    }
    assert out == Decode(flat.value, shape);
    return Ok(out);
  }

  lemma IdentityOffset(shape: seq<nat>, c: Coord)
    requires Positive(shape) && Size(shape) <= U64_MAX && InShape(c, shape)
    ensures Identity(shape).Valid() && Identity(shape).Offset(c) == Flat(c, shape)
  {
    var m := Identity(shape);
    StridesBound(shape);
    IdentitySum(shape, c, m.Contributions(c));
  }

  lemma {:induction false} IdentitySum(shape: seq<nat>, c: Coord, v: seq<int>)
    requires |c| == |shape| == |v|
    requires forall i :: 0 <= i < |v| ==> v[i] == c[i] * Strides(shape)[i]
    ensures Sum(v) == Flat(c, shape)
  {
    if shape != [] {
      assert forall i :: 0 <= i < |v| - 1 ==> v[1..][i] == v[i + 1] == c[1..][i] * Strides(shape[1..])[i];
      IdentitySum(shape[1..], c[1..], v[1..]);
    }
  }

  lemma StridesBound(shape: seq<nat>)
    requires Positive(shape)
    ensures forall i :: 0 <= i < |shape| ==> Strides(shape)[i] <= Size(shape)
  {
    forall i | 0 <= i < |shape| ensures Strides(shape)[i] <= Size(shape) {
      StridesAt(shape, i);
      SizePositive(shape[..i + 1]);
      assert shape[..i + 1] + shape[i + 1..] == shape;
      SizeConcat(shape[..i + 1], shape[i + 1..]);
      MulMonotone(1, Size(shape[..i + 1]), Size(shape[i + 1..]));
    }
  }

  /** The identity map is good: the starting point of every reachable map. */
  lemma IdentityGood(shape: seq<nat>)
    requires Positive(shape) && Size(shape) <= U64_MAX
    ensures Identity(shape).Good(Size(shape))
  {
    var m := Identity(shape);
    StridesBound(shape);
    forall c: Coord | InShape(c, shape) ensures 0 <= m.Offset(c) < Size(shape) {
      IdentityOffset(shape, c);
      FlatBound(c, shape);
    }
  }

  // ---------------------------------------------------------------------
  // Affine maps
  // ---------------------------------------------------------------------

  predicate IsAffine(m: CoordinateMap) {
    forall i :: 0 <= i < |m.axes| ==> !m.axes[i].Gathered?
  }

  function StrideOf(axis: AxisContrib): int {
    if axis.Stride? then axis.stride else 0
  }

  function AffineStrides(m: CoordinateMap): (s: seq<int>)
    ensures |s| == |m.axes|
    ensures forall i :: 0 <= i < |s| ==> s[i] == StrideOf(m.axes[i])
  {
    seq(|m.axes|, i requires 0 <= i < |m.axes| => StrideOf(m.axes[i]))
  }

  lemma {:induction false} SumDot(v: seq<int>, w: seq<int>, c: Coord, s: seq<int>)
    requires |v| == |w| == |c| == |s|
    requires forall i :: 0 <= i < |v| ==> v[i] == w[i] + c[i] * s[i]
    ensures Sum(v) == Sum(w) + Dot(c, s)
  {
    if v != [] {
      SumDot(v[1..], w[1..], c[1..], s[1..]);
    }
  }

  /** An affine map is its offset at zero plus a weighted sum. */
  lemma AffineOffset(m: CoordinateMap, c: Coord)
    requires m.Valid() && Positive(m.shape) && IsAffine(m) && InShape(c, m.shape)
    ensures InShape(Zeros(|m.shape|), m.shape)
    ensures m.Offset(c) == m.Offset(Zeros(|m.shape|)) + Dot(c, AffineStrides(m))
  {
    ZerosInShape(m.shape);
    SumDot(m.Contributions(c), m.Contributions(Zeros(|m.shape|)), c, AffineStrides(m));
  }

  /** `affine`: an offset and signed strides, unless a gather table is involved. */
  method Affine(m: CoordinateMap, ghost size: nat) returns (r: Result<Option<(int, seq<int>)>>)
    requires m.Valid() && Positive(m.shape)
    ensures r.Ok? ==> (r.value.Some? <==> IsAffine(m))
    ensures r.Ok? && r.value.Some? ==> r.value.value.1 == AffineStrides(m)
    ensures r.Ok? && r.value.Some? ==> forall c: Coord :: InShape(c, m.shape) ==>
              m.Offset(c) == r.value.value.0 + Dot(c, r.value.value.1)
    ensures m.Good(size) && size <= U64_MAX && |m.shape| <= MAX_RANK ==> r.Ok?
  {
    ZerosInShape(m.shape);
    ghost var zero := Zeros(|m.shape|);
    ghost var v := m.Contributions(zero);
    var offset, strides := m.base, [];
    for i := 0 to |m.axes|
      invariant |strides| == i && forall k :: 0 <= k < i ==> !m.axes[k].Gathered? && strides[k] == StrideOf(m.axes[k])
      invariant offset == m.base + Sum(v[..i])
    {
      SumSnoc(v, i);
      match m.axes[i] {
        case Stride(s) =>
          strides := strides + [s];
        case Broadcast(c) =>
          if m.Good(size) && size <= U64_MAX && |m.shape| <= MAX_RANK {
            PartialBound(m, size, zero, i + 1);
          }
          if !InI128(offset + c) {
            return Err(InvalidCoord);
          }
          offset := offset + c;
          strides := strides + [0];
        case Gathered(_) =>
          return Ok(None);
      }
    }
    assert v[..|v|] == v && strides == AffineStrides(m);
    forall c: Coord | InShape(c, m.shape) ensures m.Offset(c) == offset + Dot(c, strides) {
      AffineOffset(m, c);
    }
    return Ok(Some((offset, strides)));
  }

  /** The map is the identity of a base shape. */
  predicate IsIdentity(m: CoordinateMap, shape: seq<nat>) {
    m.base == 0 && m.shape == shape && m.axes == IdentityAxes(shape)
  }

  lemma IdentityIs(m: CoordinateMap, shape: seq<nat>, c: Coord)
    requires Positive(shape) && Size(shape) <= U64_MAX && IsIdentity(m, shape) && InShape(c, shape)
    ensures m.Valid() && m.Offset(c) == Flat(c, shape)
  {
    IdentityOffset(shape, c);
  }
}
