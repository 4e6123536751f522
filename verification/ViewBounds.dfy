/** Conservative storage bounds of a view, computed without enumerating it. */
module ViewBounds {
  import opened Radix
  import opened Wrappers
  import opened Request
  import opened Mapping
  import opened Transforms
  import opened Geometry

  // ---------------------------------------------------------------------
  // Offset bounds
  // ---------------------------------------------------------------------

  /** Tight extremes of one axis' contribution. */
  ghost predicate Extremes(axis: AxisContrib, dim: nat, lo: int, hi: int)
    requires axis.Fits(dim)
  {
    && (forall x: nat :: x < dim ==> lo <= axis.Contribution(x) <= hi)
    && (exists x: nat :: x < dim && axis.Contribution(x) == lo)
    && (exists x: nat :: x < dim && axis.Contribution(x) == hi)
  }

  lemma StrideExtremes(axis: AxisContrib, dim: nat, end: int)
    requires axis.Stride? && axis.Fits(dim) && dim > 0 && end == axis.stride * (dim - 1)
    ensures Extremes(axis, dim, Min(end, 0), Max(end, 0))
  {
    var s := axis.stride;
    forall x: nat | x < dim ensures Min(end, 0) <= axis.Contribution(x) <= Max(end, 0) {
      if s >= 0 {
        MulMonotone(x, dim - 1, s);
        MulMonotone(0, x, s);
      } else {
        MulMonotone(x, dim - 1, -s);
        MulMonotone(0, x, -s);
        assert x * -s == -(x * s) && (dim - 1) * -s == -(s * (dim - 1));
      }
    }
    assert axis.Contribution(0) == 0 && axis.Contribution(dim - 1) == end;
  }

  /** The least and the greatest entry of a gather table, and where they are. */
  method GatherExtremes(g: Gather) returns (lo: int, hi: int, ghost low: nat, ghost high: nat)
    requires g.Valid() && g.len > 0
    ensures low < g.len && high < g.len && g.At(low) == lo && g.At(high) == hi
    ensures forall k :: 0 <= k < g.len ==> lo <= g.At(k) <= hi
  {
    hide Gather.Index;
    lo, hi := g.At(0), g.At(0);
    low, high := 0, 0;
    for x := 1 to g.len
      invariant low < g.len && high < g.len
      invariant g.At(low) == lo && g.At(high) == hi
      invariant forall k :: 0 <= k < x ==> lo <= g.At(k) <= hi
    {
      var value := g.Get(x).value;
      if value < lo {
        lo, low := value, x;
      }
      if value > hi {
        hi, high := value, x;
      }
    }
  }

  method AxisExtremes(axis: AxisContrib, dim: nat) returns (r: Result<(int, int)>)
    requires axis.Fits(dim) && dim > 0
    ensures r.Ok? ==> Extremes(axis, dim, r.value.0, r.value.1)
    ensures r.Err? ==> axis.Stride? && !InI128(axis.stride * (dim - 1))
  {
    match axis {
      case Stride(s) =>
        var end := s * (dim - 1);
        if !InI128(end) {
          return Err(InvalidCoord);
        }
        StrideExtremes(axis, dim, end);
        return Ok((Min(end, 0), Max(end, 0)));
      case Broadcast(c) =>
        assert axis.Contribution(0) == c;
        return Ok((c, c));
      case Gathered(g) =>
        var lo, hi, low, high := GatherExtremes(g);
        assert axis.Contribution(low) == lo && axis.Contribution(high) == hi;
        return Ok((lo, hi));
    }
  }

  /** Offsets of the first `i` axes: enclosed by `lo` and `hi`, which are attained. */
  ghost predicate Enclosed(m: CoordinateMap, i: nat, lo: int, hi: int, low: Coord, high: Coord)
    requires m.Valid() && i <= |m.shape|
  {
    && Prefix(m, i).Valid()
    && InShape(low, m.shape[..i]) && Prefix(m, i).Offset(low) == lo
    && InShape(high, m.shape[..i]) && Prefix(m, i).Offset(high) == hi
    && forall c: Coord :: InShape(c, m.shape[..i]) ==> lo <= Prefix(m, i).Offset(c) <= hi
  }

  lemma EnclosedStart(m: CoordinateMap)
    requires m.Valid()
    ensures Enclosed(m, 0, m.base, m.base, [], [])
  {
    assert Prefix(m, 0).Contributions([]) == [];
    forall c: Coord | InShape(c, m.shape[..0]) ensures Prefix(m, 0).Offset(c) == m.base {
      assert c == [];
    }
  }

  lemma EnclosedNext(m: CoordinateMap, i: nat, lo: int, hi: int, low: Coord, high: Coord,
                     min: int, max: int, x: nat, y: nat)
    requires m.Valid() && i < |m.shape| && Enclosed(m, i, lo, hi, low, high)
    requires Extremes(m.axes[i], m.shape[i], min, max)
    requires x < m.shape[i] && m.axes[i].Contribution(x) == min
    requires y < m.shape[i] && m.axes[i].Contribution(y) == max
    ensures Enclosed(m, i + 1, lo + min, hi + max, low + [x], high + [y])
  {
    hide CoordinateMap.Offset, AxisContrib.Contribution;
    PrefixSnoc(m, i);
    OffsetSnoc(Prefix(m, i), m.axes[i], m.shape[i], low, x);
    OffsetSnoc(Prefix(m, i), m.axes[i], m.shape[i], high, y);
    var dims := m.shape[..i + 1];
    forall c: Coord | InShape(c, dims)
      ensures lo + min <= Prefix(m, i + 1).Offset(c) <= hi + max
    {
      assert c == c[..i] + [c[i]];
      assert c[i] < dims[i] == m.shape[i];
      assert InShape(c[..i], m.shape[..i]);
      OffsetSnoc(Prefix(m, i), m.axes[i], m.shape[i], c[..i], c[i]);
    }
  }

  /** Prefix offsets of a good map stay inside checked arithmetic. */
  lemma PrefixFits(m: CoordinateMap, size: nat, i: nat, c: Coord)
    requires m.Good(size) && size <= U64_MAX && |m.shape| <= MAX_RANK
    requires i <= |m.shape| && InShape(c, m.shape[..i]) && Prefix(m, i).Valid()
    ensures InI128(Prefix(m, i).Offset(c))
  {
    var d := c + Zeros(|m.shape| - i);
    assert InShape(d, m.shape) by {
      forall k | 0 <= k < |d| ensures d[k] < m.shape[k] {
        if k < i {
          assert c[k] < m.shape[..i][k];
        }
      }
    }
    PartialBound(m, size, d, i);
    assert Prefix(m, i).Contributions(c) == m.Contributions(d)[..i];
  }

  lemma StrideFits(m: CoordinateMap, size: nat, i: nat)
    requires m.Good(size) && size <= U64_MAX && i < |m.shape| && m.axes[i].Stride?
    ensures InI128(m.axes[i].stride * (m.shape[i] - 1))
  {
    ContributionBound(m, size, i, m.shape[i] - 1);
  }

  /** `flat_bounds`: the least and greatest offset of any in-shape coordinate. */
  method FlatBounds(m: CoordinateMap, ghost size: nat) returns (r: Result<Option<(nat, nat)>>)
    requires m.Valid()
    ensures !Positive(m.shape) ==> r == Ok(None)
    ensures r.Ok? && Positive(m.shape) ==> r.value.Some?
    ensures r.Ok? && r.value.Some? ==>
              exists low, high :: Enclosed(m, |m.shape|, r.value.value.0, r.value.value.1, low, high)
    ensures m.Good(size) && size <= U64_MAX && |m.shape| <= MAX_RANK ==> r.Ok?
  {
    hide CoordinateMap.Offset, CoordinateMap.Bounded, AxisContrib.Contribution;
    if 0 in m.shape {
      return Ok(None);
    }
    var lo, hi := m.base, m.base;
    ghost var low, high := [], [];
    EnclosedStart(m);
    for i := 0 to |m.axes|
      invariant Enclosed(m, i, lo, hi, low, high)
    {
      var extremes := AxisExtremes(m.axes[i], m.shape[i]);
      if extremes.Err? {
        if m.Good(size) && size <= U64_MAX {
          StrideFits(m, size, i);
        }
        return Err(extremes.error);
      }
      var (min, max) := extremes.value;
      ghost var x: nat :| x < m.shape[i] && m.axes[i].Contribution(x) == min;
      ghost var y: nat :| y < m.shape[i] && m.axes[i].Contribution(y) == max;
      EnclosedNext(m, i, lo, hi, low, high, min, max, x, y);
      if m.Good(size) && size <= U64_MAX && |m.shape| <= MAX_RANK {
        PrefixFits(m, size, i + 1, low + [x]);
        PrefixFits(m, size, i + 1, high + [y]);
      }
      if !InI128(lo + min) || !InI128(hi + max) {
        return Err(InvalidCoord);
      }
      lo, hi, low, high := lo + min, hi + max, low + [x], high + [y];
    }
    PrefixFull(m);
    assert m.shape[..|m.shape|] == m.shape;
    if m.Good(size) {
      assert 0 <= m.Offset(low) < size && 0 <= m.Offset(high) < size;
    }
    if lo < 0 || lo > U64_MAX || hi < 0 || hi > U64_MAX {
      return Err(InvalidCoord);
    }
    return Ok(Some((lo, hi)));
  }

  // ---------------------------------------------------------------------
  // Block bounds
  // ---------------------------------------------------------------------

  /** Digit bounds for all positions between `lo` and `hi`. */
  function DigitBounds(lo: nat, hi: nat, stride: nat, dim: nat): (nat, nat)
    requires stride > 0 && dim > 0
  {
    if lo / stride / dim == hi / stride / dim then (lo / stride % dim, hi / stride % dim) else (0, dim - 1)
  }

  lemma SameQuotient(a: nat, b: nat, d: nat)
    requires d > 0 && a / d == b / d && a <= b
    ensures a % d <= b % d
  {
    assert a == (a / d) * d + a % d;
    assert b == (b / d) * d + b % d;
  }

  lemma DigitInside(lo: nat, f: nat, hi: nat, stride: nat, dim: nat)
    requires stride > 0 && dim > 0 && lo <= f <= hi
    ensures DigitBounds(lo, hi, stride, dim).0 <= f / stride % dim <= DigitBounds(lo, hi, stride, dim).1
  {
    var a, b, c := lo / stride, f / stride, hi / stride;
    DivMonotone(lo, f, stride);
    DivMonotone(f, hi, stride);
    DivMonotone(a, b, dim);
    DivMonotone(b, c, dim);
    if a / dim == c / dim {
      SameQuotient(a, b, dim);
      SameQuotient(b, c, dim);
    }
  }

  /** Blocks a view can touch: a half-open interval of block ids. */
  ghost predicate Touches(m: CoordinateMap, g: Storage, first: nat, end: nat)
    requires m.Valid() && g.Valid()
  {
    forall c: Coord :: InShape(c, m.shape) && 0 <= m.Offset(c) < Size(g.shape) ==>
      first <= g.At(Decode(m.Offset(c), g.shape)).block < end
  }

  /** `logical_block_range`: no in-shape coordinate is stored outside the interval. */
  method LogicalBlockRange(m: CoordinateMap, g: Storage) returns (r: Result<(nat, nat)>)
    requires m.Valid() && g.Valid()
    ensures r.Ok? ==> Touches(m, g, r.value.0, r.value.1)
    ensures r.Ok? ==> r.value.1 <= g.BlockCount()
    ensures m.Good(Size(g.shape)) && |m.shape| <= MAX_RANK ==> r.Ok?
  {
    var bounds := FlatBounds(m, Size(g.shape));
    if bounds.Err? {
      return Err(bounds.error);
    }
    if bounds.value.None? {
      return Ok((0, 0));
    }
    var (lo, hi) := bounds.value.value;
    StridesPositive(g.shape);
    var lower, upper: Coord := [], [];
    for i := 0 to |g.shape|
      invariant |lower| == |upper| == i
      invariant forall k :: 0 <= k < i ==> (lower[k], upper[k]) == DigitBounds(lo, hi, g.strides[k], g.shape[k])
    {
      var digits := DigitBounds(lo, hi, g.strides[i], g.shape[i]);
      lower, upper := lower + [digits.0], upper + [digits.1];
    }
    RangeTouches(m, g, lo, hi, lower, upper);
    AtInside(g, upper);
    return Ok((g.At(lower).block, g.At(upper).block + 1));
  }

  lemma RangeTouches(m: CoordinateMap, g: Storage, lo: nat, hi: nat, lower: Coord, upper: Coord)
    requires m.Valid() && g.Valid() && |lower| == |upper| == |g.shape|
    requires exists low, high :: Enclosed(m, |m.shape|, lo, hi, low, high)
    requires forall i :: 0 <= i < |g.strides| ==> g.strides[i] > 0
    requires forall k :: 0 <= k < |lower| ==> (lower[k], upper[k]) == DigitBounds(lo, hi, g.strides[k], g.shape[k])
    ensures InShape(upper, g.shape)
    ensures Touches(m, g, g.At(lower).block, g.At(upper).block + 1)
  {
    PrefixFull(m);
    assert m.shape[..|m.shape|] == m.shape;
    forall c: Coord | InShape(c, m.shape) && 0 <= m.Offset(c) < Size(g.shape)
      ensures g.At(lower).block <= g.At(Decode(m.Offset(c), g.shape)).block <= g.At(upper).block
    {
      var f: nat := m.Offset(c);
      var d := Decode(f, g.shape);
      forall i | 0 <= i < |d| ensures lower[i] <= d[i] <= upper[i] {
        DecodeAt(f, g.shape, i);
        DigitInside(lo, f, hi, g.strides[i], g.shape[i]);
      }
      BlockMonotone(g, lower, d);
      BlockMonotone(g, d, upper);
    }
  }
}
