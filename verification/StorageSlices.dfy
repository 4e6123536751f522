/** Reading a coordinate map backwards: which logical coordinates land in a storage
    region, and which storage blocks a view can touch. */
module StorageSlices {
  import opened Radix
  import opened Wrappers
  import opened Request
  import opened Mapping
  import opened Geometry

  function SaturatingSub(a: nat, b: nat): nat {
    if a < b then 0 else a - b
  }

  /** Indices `x` with `origin + step * x` inside an interval. */
  function StepBounds(origin: nat, step: nat, interval: (nat, nat)): (nat, nat)
    requires step > 0
  {
    (CeilDiv(SaturatingSub(interval.0, origin), step), CeilDiv(SaturatingSub(interval.1, origin), step))
  }

  /** A separable forward slice: each logical axis advances along one base axis. */
  datatype StorageSlice = StorageSlice(origins: Coord, axes: seq<(nat, nat)>) {
    predicate Valid(rank: nat) {
      && |origins| == rank
      && (forall i :: 0 <= i < |axes| ==> axes[i].0 < rank && axes[i].1 > 0)
      && (forall i, j :: 0 <= i < j < |axes| ==> axes[i].0 != axes[j].0)
    }

    /** The base coordinate of a logical coordinate: origin plus step times index. */
    function Place(c: Coord): (d: Coord)
      requires Valid(|origins|) && |c| == |axes|
      ensures |d| == |origins|
      decreases |axes|
    {
      if axes == [] then origins
      else
        var k := |axes| - 1;
        assert 0 <= axes[k].1 * c[k];
        StorageSlice(origins, axes[..k]).Place(c[..k])[axes[k].0 := origins[axes[k].0] + axes[k].1 * c[k]]
    }

    predicate Covers(base: nat) {
      exists i :: 0 <= i < |axes| && axes[i].0 == base
    }

    /** The logical region landing in a base region; none when a fixed axis misses it. */
    function Bounds(region: Region): (r: Option<Region>)
      requires Valid(|region|)
      ensures r.Some? ==> |r.value| == |axes|
    {
      if exists b :: 0 <= b < |region| && !Covers(b) && !(region[b].0 <= origins[b] < region[b].1) then None
      else Some(seq(|axes|, i requires 0 <= i < |axes| =>
        var (base, step) := axes[i];
        StepBounds(origins[base], step, region[base])))
    }
  }

  function IdentitySlice(shape: seq<nat>): (s: StorageSlice)
    ensures s.Valid(|shape|) && |s.axes| == |shape|
  {
    StorageSlice(Zeros(|shape|), seq(|shape|, i requires 0 <= i < |shape| => (i, 1)))
  }

  lemma {:induction false} PlaceAt(s: StorageSlice, c: Coord, i: nat)
    requires s.Valid(|s.origins|) && |c| == |s.axes| && i < |c|
    ensures s.Place(c)[s.axes[i].0] == s.origins[s.axes[i].0] + s.axes[i].1 * c[i]
    decreases |c|
  {
    var k := |c| - 1;
    if i < k {
      PlaceAt(StorageSlice(s.origins, s.axes[..k]), c[..k], i);
    }
  }

  lemma {:induction false} PlaceFixed(s: StorageSlice, c: Coord, b: nat)
    requires s.Valid(|s.origins|) && |c| == |s.axes| && b < |s.origins| && !s.Covers(b)
    ensures s.Place(c)[b] == s.origins[b]
    decreases |c|
  {
    if c != [] {
      var front := StorageSlice(s.origins, s.axes[..|c| - 1]);
      assert forall i :: 0 <= i < |front.axes| ==> front.axes[i] == s.axes[i];
      PlaceFixed(front, c[..|c| - 1], b);
    }
  }

  /** One axis: rounded-up bounds select exactly the indices landing in the interval. */
  lemma StepBoundsExact(origin: nat, step: nat, x: nat, interval: (nat, nat))
    requires step > 0
    ensures interval.0 <= origin + step * x < interval.1 <==>
            StepBounds(origin, step, interval).0 <= x < StepBounds(origin, step, interval).1
  {
    CeilDivBound(SaturatingSub(interval.0, origin), step, x);
    CeilDivBound(SaturatingSub(interval.1, origin), step, x);
    MulMonotone(0, x, step);
  }

  lemma AxisLands(s: StorageSlice, region: Region, c: Coord, i: nat)
    requires s.Valid(|region|) && |c| == |s.axes| && i < |c|
    ensures var (b, step) := s.axes[i];
            region[b].0 <= s.Place(c)[b] < region[b].1 <==>
            StepBounds(s.origins[b], step, region[b]).0 <= c[i] < StepBounds(s.origins[b], step, region[b]).1
  {
    PlaceAt(s, c, i);
    var (b, step) := s.axes[i];
    StepBoundsExact(s.origins[b], step, c[i], region[b]);
  }

  lemma LandingBounded(s: StorageSlice, region: Region, c: Coord)
    requires s.Valid(|region|) && |c| == |s.axes| && InRegion(s.Place(c), region)
    ensures s.Bounds(region).Some? && InRegion(c, s.Bounds(region).value)
  {
    hide StepBounds, StorageSlice.Place;
    forall b | 0 <= b < |region| && !s.Covers(b) ensures region[b].0 <= s.origins[b] < region[b].1 {
      PlaceFixed(s, c, b);
    }
    forall i | 0 <= i < |c| ensures s.Bounds(region).value[i].0 <= c[i] < s.Bounds(region).value[i].1 {
      AxisLands(s, region, c, i);
    }
  }

  lemma BoundedLands(s: StorageSlice, region: Region, c: Coord)
    requires s.Valid(|region|) && |c| == |s.axes|
    requires s.Bounds(region).Some? && InRegion(c, s.Bounds(region).value)
    ensures InRegion(s.Place(c), region)
  {
    hide StepBounds, StorageSlice.Place;
    forall b | 0 <= b < |region| ensures region[b].0 <= s.Place(c)[b] < region[b].1 {
      if s.Covers(b) {
        var i :| 0 <= i < |s.axes| && s.axes[i].0 == b;
        assert s.Bounds(region).value[i] == StepBounds(s.origins[b], s.axes[i].1, region[b]);
        AxisLands(s, region, c, i);
      } else {
        PlaceFixed(s, c, b);
      }
    }
  }

  /** `StorageSlice::bounds` describes exactly the logical coordinates landing in a
      region; without bounds, none do. */
  lemma BoundsAreExact(s: StorageSlice, region: Region, c: Coord)
    requires s.Valid(|region|) && |c| == |s.axes|
    ensures InRegion(s.Place(c), region) <==>
            s.Bounds(region).Some? && InRegion(c, s.Bounds(region).value)
  {
    hide StorageSlice.Bounds, StorageSlice.Place;
    if InRegion(s.Place(c), region) {
      LandingBounded(s, region, c);
    } else if s.Bounds(region).Some? && InRegion(c, s.Bounds(region).value) {
      BoundedLands(s, region, c);
    }
  }

  // ---------------------------------------------------------------------
  // Finding the slice of a map
  // ---------------------------------------------------------------------

  predicate StaysInside(origin: nat, step: nat, dim: nat, baseDim: nat)
    requires dim > 0
  {
    origin + step * (dim - 1) < baseDim
  }

  /** The logical axis stride is a multiple of the base stride that stays inside the axis. */
  predicate Eligible(stride: nat, dim: nat, origin: nat, baseStride: nat, baseDim: nat)
    requires baseStride > 0 && dim > 0
  {
    stride % baseStride == 0 && StaysInside(origin, stride / baseStride, dim, baseDim)
  }

  /** The base axis a logical axis advances along: exact strides first, then the last match. */
  method FindBase(stride: nat, dim: nat, origins: Coord, used: seq<(nat, nat)>, shape: seq<nat>, strides: seq<nat>)
    returns (r: Option<nat>)
    requires dim > 0 && |origins| == |shape| == |strides| && forall b :: 0 <= b < |strides| ==> strides[b] > 0
    ensures r.Some? ==> r.value < |shape| && (forall i :: 0 <= i < |used| ==> used[i].0 != r.value)
    ensures r.Some? ==> Eligible(stride, dim, origins[r.value], strides[r.value], shape[r.value])
    ensures r.None? ==> forall b :: 0 <= b < |shape| && (forall i :: 0 <= i < |used| ==> used[i].0 != b) ==>
              !Eligible(stride, dim, origins[b], strides[b], shape[b])
  {
    for b := 0 to |shape| {
      if stride == strides[b]
        && (forall i :: 0 <= i < |used| ==> used[i].0 != b)
        && Eligible(stride, dim, origins[b], strides[b], shape[b])
      {
        return Some(b);
      }
    }
    var b := |shape|;
    while b > 0
      invariant 0 <= b <= |shape|
      invariant forall k :: b <= k < |shape| && (forall i :: 0 <= i < |used| ==> used[i].0 != k) ==>
                  !Eligible(stride, dim, origins[k], strides[k], shape[k])
    {
      b := b - 1;
      if (forall i :: 0 <= i < |used| ==> used[i].0 != b)
        && Eligible(stride, dim, origins[b], strides[b], shape[b])
      {
        return Some(b);
      }
    }
    return None;
  }

  /** The slice advances exactly as the map's strides do, inside the base shape. */
  ghost predicate Matches(s: StorageSlice, m: CoordinateMap, n: nat, shape: seq<nat>)
    requires m.Valid() && Positive(m.shape) && n <= |m.axes|
  {
    && s.Valid(|shape|) && |s.axes| == n
    && InShape(s.origins, shape)
    && forall i :: 0 <= i < n ==> MatchesAxis(s, m, i, shape)
  }

  predicate MatchesAxis(s: StorageSlice, m: CoordinateMap, i: nat, shape: seq<nat>)
    requires m.Valid() && Positive(m.shape) && i < |s.axes| <= |m.axes| && s.Valid(|shape|)
  {
    var (b, step) := s.axes[i];
    && m.axes[i] == Stride(step * Strides(shape)[b])
    && StaysInside(s.origins[b], step, m.shape[i], shape[b])
  }

  /** A mapping whose first axes are matched, but whose next axis is no upward stride or has no base axis left. */
  ghost predicate Stuck(found: StorageSlice, m: CoordinateMap, shape: seq<nat>)
    requires m.Valid() && Positive(m.shape) && Positive(shape)
  {
    var n := |found.axes|;
    StridesPositive(shape);
    && n < |m.axes| && Matches(found, m, n, shape)
    && (m.axes[n].Stride? && 0 < m.axes[n].stride <= U64_MAX ==>
          forall b :: 0 <= b < |shape| && (forall i :: 0 <= i < n ==> found.axes[i].0 != b) ==>
            !Eligible(m.axes[n].stride, m.shape[n], found.origins[b], Strides(shape)[b], shape[b]))
  }

  /** `storage_slice`: a separable description of the map, when it has one. */
  method FindSlice(m: CoordinateMap, shape: seq<nat>, strides: seq<nat>) returns (r: Result<Option<StorageSlice>>)
    requires m.Valid() && Positive(m.shape) && Positive(shape) && strides == Strides(shape) && Size(shape) <= U64_MAX
    ensures r.Ok? && r.value.Some? ==> Describes(r.value.value, m, shape)
    ensures r.Ok? && r.value.None? ==> exists found :: Stuck(found, m, shape)
    ensures m.Good(Size(shape)) && |m.shape| <= MAX_RANK ==> r.Ok?
  {
    hide Size, Decode, Strides, Describes, Matches, CoordinateMap.Offset, CoordinateMap.InRange,
         CoordinateMap.Bounded;
    ZerosInShape(m.shape);
    var origins := Resolve(m, Zeros(|m.shape|), shape, strides);
    if origins.Err? {
      return Err(origins.error);
    }
    DecodeInShape(m.Offset(Zeros(|m.shape|)), shape);
    StridesPositive(shape);
    var axes: seq<(nat, nat)> := [];
    MatchesNone(m, shape, origins.value);
    for i := 0 to |m.axes|
      invariant |axes| == i && Matches(StorageSlice(origins.value, axes), m, i, shape)
    {
      if !m.axes[i].Stride? || m.axes[i].stride <= 0 || m.axes[i].stride > U64_MAX {
        assert Stuck(StorageSlice(origins.value, axes), m, shape);
        return Ok(None);
      }
      var stride: nat := m.axes[i].stride;
      var base := FindBase(stride, m.shape[i], origins.value, axes, shape, strides);
      if base.None? {
        assert Stuck(StorageSlice(origins.value, axes), m, shape);
        return Ok(None);
      }
      var b := base.value;
      var step := stride / strides[b];
      ExactStep(stride, strides[b]);
      MatchesNext(StorageSlice(origins.value, axes), m, i, shape, b, step);
      axes := axes + [(b, step)];
    }
    SliceDescribes(StorageSlice(origins.value, axes), m, shape);
    return Ok(Some(StorageSlice(origins.value, axes)));
  }

  lemma ExactStep(stride: nat, base: nat)
    requires 0 < base && 0 < stride && stride % base == 0
    ensures stride == stride / base * base && stride / base > 0
  {}

  lemma MatchesNone(m: CoordinateMap, shape: seq<nat>, origins: Coord)
    requires m.Valid() && Positive(m.shape) && InShape(origins, shape)
    ensures Matches(StorageSlice(origins, []), m, 0, shape)
  {}

  lemma MatchesNext(s: StorageSlice, m: CoordinateMap, n: nat, shape: seq<nat>, b: nat, step: nat)
    requires m.Valid() && Positive(m.shape) && n < |m.axes| && Matches(s, m, n, shape)
    requires b < |shape| && step > 0 && forall i :: 0 <= i < n ==> s.axes[i].0 != b
    requires m.axes[n] == Stride(step * Strides(shape)[b])
    requires StaysInside(s.origins[b], step, m.shape[n], shape[b])
    ensures Matches(StorageSlice(s.origins, s.axes + [(b, step)]), m, n + 1, shape)
  {
    hide StaysInside, Strides, Size;
    var t := StorageSlice(s.origins, s.axes + [(b, step)]);
    forall i | 0 <= i < n + 1 ensures MatchesAxis(t, m, i, shape) {
      if i < n {
        assert MatchesAxis(s, m, i, shape) && t.axes[i] == s.axes[i];
      }
    }
  }

  lemma {:induction false} PlaceInside(s: StorageSlice, m: CoordinateMap, n: nat, shape: seq<nat>, c: Coord)
    requires m.Valid() && Positive(m.shape) && n <= |m.axes| && Matches(s, m, n, shape)
    requires |c| == n && InShape(c, m.shape[..n])
    ensures InShape(s.Place(c), shape)
  {
    hide Strides, Size, StorageSlice.Place;
    forall b | 0 <= b < |shape| ensures s.Place(c)[b] < shape[b] {
      if s.Covers(b) {
        var i :| 0 <= i < n && s.axes[i].0 == b;
        assert MatchesAxis(s, m, i, shape);
        assert c[i] < m.shape[i];
        PlaceAt(s, c, i);
        MulMonotone(c[i], m.shape[i] - 1, s.axes[i].1);
      } else {
        PlaceFixed(s, c, b);
      }
    }
  }

  lemma PlaceUpdate(s: StorageSlice, c: Coord, b: nat, step: nat, x: nat, d: nat, shape: seq<nat>)
    requires s.Valid(|shape|) && |c| == |s.axes| && b < |shape| && !s.Covers(b) && d == step * x
    ensures Flat(s.Place(c)[b := s.origins[b] + d], shape)
         == Flat(s.Place(c), shape) + x * (step * Strides(shape)[b])
  {
    hide StorageSlice.Place, Strides, Flat, Size;
    PlaceFixed(s, c, b);
    FlatUpdate(s.Place(c), shape, b, s.origins[b] + d, d);
    MulRotate(step, Strides(shape)[b], x, d);
  }

  /** Placing along the matched axes adds exactly the map's contributions. */
  lemma {:induction false} PlaceFlat(s: StorageSlice, m: CoordinateMap, n: nat, shape: seq<nat>, c: Coord)
    requires m.Valid() && Positive(m.shape) && n <= |m.axes| && Matches(s, m, n, shape)
    requires InShape(c, m.shape)
    ensures Flat(s.Place(c[..n]), shape) == Flat(s.origins, shape) + Sum(m.Contributions(c)[..n])
    decreases n
  {
    hide Strides, Size, StaysInside, Flat;
    if n > 0 {
      var k := n - 1;
      var front := StorageSlice(s.origins, s.axes[..k]);
      MatchesFront(s, m, n, shape);
      PlaceFlat(front, m, k, shape, c);
      assert c[..n][..k] == c[..k];
      var (b, step) := s.axes[k];
      assert !front.Covers(b);
      PlaceUpdate(front, c[..k], b, step, c[k], step * c[k], shape);
      assert MatchesAxis(s, m, k, shape);
      SumSnoc(m.Contributions(c), k);
    }
  }

  lemma MatchesFront(s: StorageSlice, m: CoordinateMap, n: nat, shape: seq<nat>)
    requires m.Valid() && Positive(m.shape) && 0 < n <= |m.axes| && Matches(s, m, n, shape)
    ensures Matches(StorageSlice(s.origins, s.axes[..n - 1]), m, n - 1, shape)
  {
    hide StaysInside, Strides, Size;
    var front := StorageSlice(s.origins, s.axes[..n - 1]);
    forall i | 0 <= i < n - 1 ensures MatchesAxis(front, m, i, shape) {
      assert MatchesAxis(s, m, i, shape) && front.axes[i] == s.axes[i];
    }
  }

  /** What a found slice describes: every in-shape coordinate resolves to its placement. */
  ghost predicate Describes(s: StorageSlice, m: CoordinateMap, shape: seq<nat>)
    requires m.Valid()
  {
    && s.Valid(|shape|) && |s.axes| == |m.shape|
    && forall c: Coord :: InShape(c, m.shape) ==>
         && InShape(s.Place(c), shape)
         && m.Offset(c) == Flat(s.Place(c), shape)
  }

  lemma SliceDescribes(s: StorageSlice, m: CoordinateMap, shape: seq<nat>)
    requires m.Valid() && Positive(m.shape) && Positive(shape) && Matches(s, m, |m.axes|, shape)
    requires 0 <= m.Offset(Zeros(|m.shape|)) < Size(shape)
    requires s.origins == Decode(m.Offset(Zeros(|m.shape|)), shape)
    ensures Describes(s, m, shape)
  {
    hide Strides, Size, StorageSlice.Place, Flat, Decode, MatchesAxis, CoordinateMap.Offset, Matches;
    FlatOfDecodeInside(m.Offset(Zeros(|m.shape|)), shape);
    ZeroOffset(s, m, shape);
    forall c: Coord | InShape(c, m.shape)
      ensures s.Valid(|shape|) && |s.axes| == |m.shape|
      ensures InShape(s.Place(c), shape) && m.Offset(c) == Flat(s.Place(c), shape)
    {
      PlaceReads(s, m, shape, c);
    }
  }

  /** Without gather tables or broadcasts, the origin is read at the base offset. */
  lemma ZeroOffset(s: StorageSlice, m: CoordinateMap, shape: seq<nat>)
    requires m.Valid() && Positive(m.shape) && Positive(shape) && Matches(s, m, |m.axes|, shape)
    ensures InShape(Zeros(|m.shape|), m.shape) && m.Offset(Zeros(|m.shape|)) == m.base
    ensures s.Valid(|shape|) && |s.axes| == |m.shape|
  {
    hide Strides, Size, StaysInside, Sum;
    var zero := Zeros(|m.shape|);
    ZerosInShape(m.shape);
    forall i | 0 <= i < |zero| ensures m.Contributions(zero)[i] == 0 {
      assert MatchesAxis(s, m, i, shape);
    }
    SumBound(m.Contributions(zero), 0);
  }

  lemma PlaceReads(s: StorageSlice, m: CoordinateMap, shape: seq<nat>, c: Coord)
    requires m.Valid() && Positive(m.shape) && Positive(shape) && Matches(s, m, |m.axes|, shape)
    requires InShape(c, m.shape) && m.base == Flat(s.origins, shape)
    ensures s.Valid(|shape|) && |s.axes| == |m.shape|
    ensures InShape(s.Place(c), shape) && m.Offset(c) == Flat(s.Place(c), shape)
  {
    hide Strides, Size, StorageSlice.Place, Flat, MatchesAxis, Sum;
    assert m.shape[..|c|] == m.shape && c[..|c|] == c;
    PlaceInside(s, m, |c|, shape, c);
    PlaceFlat(s, m, |c|, shape, c);
    assert m.Contributions(c)[..|c|] == m.Contributions(c);
  }

  /** The descriptor of an untransformed tensor: every coordinate is placed at itself. */
  lemma IdentityDescribes(shape: seq<nat>)
    requires Positive(shape) && Size(shape) <= U64_MAX
    ensures Identity(shape).Good(Size(shape)) && Describes(IdentitySlice(shape), Identity(shape), shape)
  {
    hide StorageSlice.Place, Size, Strides, Flat, CoordinateMap.Offset;
    IdentityGood(shape);
    var s, m := IdentitySlice(shape), Identity(shape);
    forall c: Coord | InShape(c, shape) ensures s.Place(c) == c && m.Offset(c) == Flat(c, shape) {
      IdentityIs(m, shape, c);
      forall i | 0 <= i < |c| ensures s.Place(c)[i] == c[i] {
        PlaceAt(s, c, i);
        assert s.axes[i] == (i, 1) && s.origins[i] == 0;
      }
    }
  }

  /** A logical coordinate is stored in block `id` exactly when it lies in the slice's
      bounds of that block's region. */
  lemma BlockPreimage(s: StorageSlice, m: CoordinateMap, g: Storage, id: nat, c: Coord)
    requires g.Valid() && m.Valid() && Describes(s, m, g.shape) && InShape(c, m.shape) && id < g.BlockCount()
    ensures InShape(s.Place(c), g.shape)
    ensures 0 <= m.Offset(c) && Decode(m.Offset(c), g.shape) == s.Place(c)
    ensures g.At(Decode(m.Offset(c), g.shape)).block == id <==>
            s.Bounds(g.Bounds(id)).Some? && InRegion(c, s.Bounds(g.Bounds(id)).value)
  {
    DecodeOfFlat(s.Place(c), g.shape);
    BoundsExact(g, id, s.Place(c));
    BoundsAreExact(s, g.Bounds(id), c);
  }
}
