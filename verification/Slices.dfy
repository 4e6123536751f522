/** Rank-preserving selections and the bounded rectangles they are delivered as. */
module Slices {
  import opened Radix
  import opened Wrappers
  import opened Request
  import opened Geometry
  import opened Schema
  import opened StorageSlices

  // ---------------------------------------------------------------------
  // The reference: nested loops over the selected values
  // ---------------------------------------------------------------------

  function Values(axis: Axis): (v: seq<nat>)
    ensures |v| == axis.Len()
    ensures forall i :: 0 <= i < |v| ==> v[i] == axis.At(i)
  {
    seq(axis.Len(), i requires 0 <= i < axis.Len() => axis.At(i))
  }

  function AllValues(axes: seq<Axis>): (v: seq<seq<nat>>)
    ensures |v| == |axes|
    ensures forall i :: 0 <= i < |v| ==> v[i] == Values(axes[i])
  {
    seq(|axes|, i requires 0 <= i < |axes| => Values(axes[i]))
  }

  function Prefixed(x: nat, rest: seq<Coord>): (s: seq<Coord>)
    ensures |s| == |rest|
    ensures forall i :: 0 <= i < |s| ==> s[i] == [x] + rest[i]
  {
    seq(|rest|, i requires 0 <= i < |rest| => [x] + rest[i])
  }

  function Spread(values: seq<nat>, rest: seq<Coord>): seq<Coord> {
    if values == [] then [] else Prefixed(values[0], rest) + Spread(values[1..], rest)
  }

  /** Nested loops, first axis outermost. */
  function Product(axes: seq<seq<nat>>): seq<Coord> {
    if axes == [] then [[]] else Spread(axes[0], Product(axes[1..]))
  }

  lemma {:induction false} SpreadAt(values: seq<nat>, rest: seq<Coord>, i: nat, j: nat, at: int)
    requires i < |values| && j < |rest| && at == i * |rest| + j
    ensures 0 <= at < |Spread(values, rest)| && Spread(values, rest)[at] == [values[i]] + rest[j]
  {
    MulMonotone(0, i, |rest|);
    if i > 0 {
      assert (i - 1) * |rest| == i * |rest| - |rest|;
      SpreadAt(values[1..], rest, i - 1, j, at - |rest|);
    }
  }

  lemma {:induction false} SpreadLength(values: seq<nat>, rest: seq<Coord>)
    ensures |Spread(values, rest)| == |values| * |rest|
  {
    if values != [] {
      SpreadLength(values[1..], rest);
      assert |values| * |rest| == (|values| - 1) * |rest| + |rest|;
    }
  }

  lemma ProductFirst(axes: seq<Axis>)
    requires axes != []
    ensures Product(AllValues(axes)) == Spread(Values(axes[0]), Product(AllValues(axes[1..])))
  {
    AllValuesTail(axes);
  }

  lemma AllValuesTail(axes: seq<Axis>)
    requires axes != []
    ensures AllValues(axes) == [Values(axes[0])] + AllValues(axes[1..])
    ensures Lens(axes) == [axes[0].Len()] + Lens(axes[1..])
  {}

  lemma {:induction false} ProductLength(axes: seq<Axis>)
    ensures |Product(AllValues(axes))| == Cartesian(axes).Len()
  {
    if axes != [] {
      AllValuesTail(axes);
      ProductLength(axes[1..]);
      SpreadLength(Values(axes[0]), Product(AllValues(axes[1..])));
    }
  }

  /** A rectangle's row-major enumeration is the nested loop over its values. */
  lemma {:induction false} CoordsAreProduct(axes: seq<Axis>)
    ensures Cartesian(axes).Coords() == Product(AllValues(axes))
  {
    ProductLength(axes);
    forall i | 0 <= i < Cartesian(axes).Len()
      ensures Cartesian(axes).Coordinate(i) == Product(AllValues(axes))[i]
    {
      ProductAt(axes, i);
    }
  }

  lemma {:induction false} ProductAt(axes: seq<Axis>, i: nat)
    requires i < Cartesian(axes).Len() == |Product(AllValues(axes))|
    ensures Cartesian(axes).Coordinate(i) == Product(AllValues(axes))[i]
  {
    hide Cartesian.Coordinate, Product, Spread, Axis.At, Axis.Len, Size;
    if axes == [] {
      OnlyCoordinate(i);
    } else {
      var rest := Cartesian(axes[1..]).Len();
      LenFirst(axes);
      LeadingIndex(i, rest, axes[0].Len());
      CoordinateSplit(axes, i / rest, i % rest, i);
      ProductLength(axes[1..]);
      ProductAt(axes[1..], i % rest);
      SpreadAt(Values(axes[0]), Product(AllValues(axes[1..])), i / rest, i % rest, i);
      ProductFirst(axes);
    }
  }

  lemma OnlyCoordinate(i: nat)
    requires i < Cartesian([]).Len()
    ensures i == 0 && Product([]) == [[]] && AllValues([]) == [] && Cartesian([]).Coordinate(i) == []
  {
    assert Lens([]) == [];
  }

  lemma LenFirst(axes: seq<Axis>)
    requires axes != []
    ensures Cartesian(axes).Len() == axes[0].Len() * Cartesian(axes[1..]).Len()
    ensures Cartesian(axes).Len() > 0 ==> Cartesian(axes[1..]).Len() > 0
  {
    AllValuesTail(axes);
    assert Lens(axes)[1..] == Lens(axes[1..]);
  }

  /** Index `p * rest + q` selects value `p` of the first axis, then coordinate `q` of the rest. */
  lemma CoordinateSplit(axes: seq<Axis>, p: nat, q: nat, i: nat)
    requires axes != [] && p < axes[0].Len() && q < Cartesian(axes[1..]).Len()
    requires i < Cartesian(axes).Len() && i == p * Cartesian(axes[1..]).Len() + q
    ensures Cartesian(axes).Coordinate(i) == [axes[0].At(p)] + Cartesian(axes[1..]).Coordinate(q)
  {
    hide Decode, Pick, Axis.At, Axis.Len, Size;
    var l, rest := axes[0].Len(), Lens(axes[1..]);
    AllValuesTail(axes);
    EmptySize(rest);
    EmptySize([l] + rest);
    OneDigit(p, l);
    DecodeConcat(p, q, [l], rest, i);
    DecodeInShape(q, rest);
    PickFirst(axes, p, Decode(q, rest));
  }

  lemma PickFirst(axes: seq<Axis>, p: nat, d: Coord)
    requires axes != [] && p < axes[0].Len() && InShape(d, Lens(axes[1..]))
    ensures InShape([p] + d, Lens(axes))
    ensures Pick(axes, [p] + d) == [axes[0].At(p)] + Pick(axes[1..], d)
  {
    hide Axis.At;
    forall i | 0 <= i < |axes| ensures ([p] + d)[i] < Lens(axes)[i] {
      if i > 0 {
        assert Lens(axes[1..])[i - 1] == Lens(axes)[i];
      }
    }
  }

  lemma OneDigit(p: nat, l: nat)
    requires p < l
    ensures Size([l]) == l && Decode(p, [l]) == [p]
  {
    assert Size([l]) == l * Size([]) == l;
    DivUnique(0, p, l);
  }

  lemma LeadingIndex(i: nat, s: nat, l: nat)
    requires s > 0 && i < l * s
    ensures i / s < l && i == i / s * s + i % s
  {
    if i / s >= l {
      MulMonotone(l, i / s, s);
    }
  }

  // ---------------------------------------------------------------------
  // Slices
  // ---------------------------------------------------------------------

  datatype Slice = Slice(shape: seq<nat>, axes: seq<Axis>, len: nat) {
    predicate Valid() {
      AxesValid(axes, shape) && len == Cartesian(axes).Len() <= U64_MAX
    }

    /** The selected coordinates in row-major order, with duplicates. */
    function Coords(): (s: seq<Coord>)
      ensures |s| == Cartesian(axes).Len()
    {
      Cartesian(axes).Coords()
    }
  }

  /** `Slice::new`: one valid selection per axis, and a countable product. */
  method NewSlice(shape: seq<nat>, axes: seq<Axis>) returns (r: Result<Slice>)
    ensures r.Ok? <==> AxesValid(axes, shape) && Cartesian(axes).Len() <= U64_MAX
    ensures r.Ok? ==> r.value.Valid() && r.value.shape == shape && r.value.axes == axes
  {
    if !AxesValid(axes, shape) {
      return Err(InvalidCoord);
    }
    if i :| 0 <= i < |axes| && axes[i].Len() == 0 {
      ZeroSize(Lens(axes), i);
      return Ok(Slice(shape, axes, 0));
    }
    var len := CheckedProduct(Lens(axes));
    if len.None? {
      return Err(InvalidLayout);
    }
    return Ok(Slice(shape, axes, len.value));
  }

  // ---------------------------------------------------------------------
  // Clipping
  // ---------------------------------------------------------------------

  /** The values of an axis inside an interval, in order and with duplicates. */
  function Keep(values: seq<nat>, bounds: (nat, nat)): seq<nat> {
    if values == [] then []
    else (if bounds.0 <= values[0] < bounds.1 then [values[0]] else []) + Keep(values[1..], bounds)
  }

  /** The coordinates inside a region, in order and with duplicates. */
  function KeepCoords(coords: seq<Coord>, region: Region): seq<Coord> {
    if coords == [] then []
    else (if InRegion(coords[0], region) then [coords[0]] else []) + KeepCoords(coords[1..], region)
  }

  lemma {:induction false} KeepCoordsConcat(a: seq<Coord>, b: seq<Coord>, region: Region)
    ensures KeepCoords(a + b, region) == KeepCoords(a, region) + KeepCoords(b, region)
  {
    if a == [] {
      assert a + b == b;
    } else {
      assert (a + b)[1..] == a[1..] + b;
      KeepCoordsConcat(a[1..], b, region);
    }
  }

  lemma {:induction false} KeepPrefixed(x: nat, rest: seq<Coord>, region: Region)
    requires region != []
    ensures KeepCoords(Prefixed(x, rest), region)
         == if region[0].0 <= x < region[0].1 then Prefixed(x, KeepCoords(rest, region[1..])) else []
  {
    if rest != [] {
      assert Prefixed(x, rest)[1..] == Prefixed(x, rest[1..]);
      KeepPrefixed(x, rest[1..], region);
      InRegionPrefix(x, rest[0], region);
    }
  }

  lemma InRegionPrefix(x: nat, c: Coord, region: Region)
    requires region != []
    ensures InRegion([x] + c, region) <==> region[0].0 <= x < region[0].1 && InRegion(c, region[1..])
  {
    if InRegion([x] + c, region) {
      assert region[0].0 <= ([x] + c)[0] < region[0].1;
      forall i | 0 <= i < |c| ensures region[1..][i].0 <= c[i] < region[1..][i].1 {
        assert ([x] + c)[i + 1] == c[i];
      }
    }
  }

  lemma {:induction false} KeepSpread(values: seq<nat>, rest: seq<Coord>, region: Region)
    requires region != []
    ensures KeepCoords(Spread(values, rest), region)
         == Spread(Keep(values, region[0]), KeepCoords(rest, region[1..]))
  {
    if values != [] {
      KeepCoordsConcat(Prefixed(values[0], rest), Spread(values[1..], rest), region);
      KeepPrefixed(values[0], rest, region);
      KeepSpread(values[1..], rest, region);
      var kept := Keep(values[1..], region[0]);
      assert [] + kept == kept && ([values[0]] + kept)[1..] == kept;
    }
  }

  function KeepAll(axes: seq<seq<nat>>, region: Region): (k: seq<seq<nat>>)
    requires |axes| == |region|
    ensures |k| == |axes|
    ensures forall i :: 0 <= i < |k| ==> k[i] == Keep(axes[i], region[i])
  {
    seq(|axes|, i requires 0 <= i < |axes| => Keep(axes[i], region[i]))
  }

  /** Filtering the product is the product of the filtered axes. */
  lemma {:induction false} KeepProduct(axes: seq<seq<nat>>, region: Region)
    requires |axes| == |region|
    ensures KeepCoords(Product(axes), region) == Product(KeepAll(axes, region))
  {
    if axes == [] {
      assert InRegion([], region);
      assert KeepAll(axes, region) == [];
    } else {
      KeepProduct(axes[1..], region[1..]);
      KeepSpread(axes[0], Product(axes[1..]), region);
      assert KeepAll(axes, region)[1..] == KeepAll(axes[1..], region[1..]);
    }
  }

  /** The steps of an interval axis that land in an interval. */
  function ClipSpan(start: nat, step: nat, len: nat, bounds: (nat, nat)): Axis
    requires step > 0
  {
    var first := Min(CeilDiv(SaturatingSub(bounds.0, start), step), len);
    var end := Min(CeilDiv(SaturatingSub(bounds.1, start), step), len);
    var count := SaturatingSub(end, first);
    Span(if count == 0 then start else start + step * first, step, count)
  }

  lemma KeepNext(before: seq<nat>, values: seq<nat>, bounds: (nat, nat), i: nat)
    requires i < |values|
    ensures before + Keep(values[i..], bounds)
         == (if bounds.0 <= values[i] < bounds.1 then before + [values[i]] else before) + Keep(values[i + 1..], bounds)
  {
    assert values[i..][1..] == values[i + 1..];
  }

  /** Filter a list of explicit indices. */
  method FilterValues(values: seq<nat>, bounds: (nat, nat)) returns (r: seq<nat>)
    ensures r == Keep(values, bounds)
  {
    r := [];
    for i := 0 to |values|
      invariant Keep(values, bounds) == r + Keep(values[i..], bounds)
    {
      KeepNext(r, values, bounds, i);
      if bounds.0 <= values[i] < bounds.1 {
        r := r + [values[i]];
      }
    }
  }

  /** Elements kept at exactly the indices `a..b` form that slice. */
  lemma {:induction false} KeepInterval(values: seq<nat>, bounds: (nat, nat), a: nat, b: nat)
    requires a <= b <= |values|
    requires forall i :: 0 <= i < |values| ==> (a <= i < b <==> bounds.0 <= values[i] < bounds.1)
    ensures Keep(values, bounds) == values[a..b]
  {
    if values != [] {
      var tail := values[1..];
      assert forall i :: 0 <= i < |tail| ==> tail[i] == values[i + 1];
      if a > 0 {
        KeepInterval(tail, bounds, a - 1, b - 1);
      } else if b > 0 {
        KeepInterval(tail, bounds, 0, b - 1);
        assert values[0..b] == [values[0]] + tail[0..b - 1];
      } else {
        KeepInterval(tail, bounds, 0, 0);
      }
    }
  }

  lemma ClipSpanKeeps(start: nat, step: nat, len: nat, bounds: (nat, nat))
    requires step > 0 && bounds.0 <= bounds.1
    ensures Values(ClipSpan(start, step, len, bounds)) == Keep(Values(Span(start, step, len)), bounds)
  {
    var first := Min(CeilDiv(SaturatingSub(bounds.0, start), step), len);
    var end := Min(CeilDiv(SaturatingSub(bounds.1, start), step), len);
    var v := Values(Span(start, step, len));
    forall i | 0 <= i < len ensures first <= i < end <==> bounds.0 <= v[i] < bounds.1 {
      CeilDivBound(SaturatingSub(bounds.0, start), step, i);
      CeilDivBound(SaturatingSub(bounds.1, start), step, i);
      MulMonotone(0, i, step);
    }
    var a := Min(first, end);
    KeepInterval(v, bounds, a, end);
    var clipped := ClipSpan(start, step, len, bounds);
    forall k | 0 <= k < clipped.len ensures Values(clipped)[k] == v[a..end][k] {
      assert step * (first + k) == step * first + step * k;
    }
  }

  lemma {:induction false} KeepBounded(values: seq<nat>, bounds: (nat, nat), dim: nat)
    requires forall i :: 0 <= i < |values| ==> values[i] < dim
    ensures |Keep(values, bounds)| <= |values|
    ensures forall i :: 0 <= i < |Keep(values, bounds)| ==> Keep(values, bounds)[i] < dim
  {
    if values != [] {
      KeepBounded(values[1..], bounds, dim);
    }
  }

  /** Clip one axis: the clipped axis is valid and selects exactly the kept values. */
  method ClipAxis(axis: Axis, bounds: (nat, nat), ghost dim: nat) returns (r: Axis)
    requires axis.Valid(dim) && bounds.0 <= bounds.1
    ensures r.Valid(dim) && Values(r) == Keep(Values(axis), bounds)
    ensures r.Len() <= axis.Len() && (r.Span? ==> axis.Span? && r.step == axis.step)
  {
    forall i | 0 <= i < axis.Len() ensures Values(axis)[i] < dim {
      AxisInside(axis, dim, i);
    }
    KeepBounded(Values(axis), bounds, dim);
    match axis {
      case Span(start, step, len) =>
        ClipSpanKeeps(start, step, len, bounds);
        r := ClipSpan(start, step, len, bounds);
        if r.len > 0 {
          assert Values(r)[0] < dim && Values(r)[r.len - 1] < dim;
        }
      case Selected(values) =>
        assert Values(axis) == values;
        var kept := FilterValues(values, bounds);
        r := Selected(kept);
        assert Values(r) == kept;
    }
  }

  predicate Proper(region: Region) {
    forall i :: 0 <= i < |region| ==> region[i].0 <= region[i].1
  }

  /** `intersect`: exactly the selected coordinates inside the bounds, in the same order. */
  method Intersect(slice: Slice, bounds: Region) returns (r: Result<Slice>)
    requires slice.Valid()
    ensures r.Ok? <==> |bounds| == |slice.axes| && Proper(bounds)
    ensures r.Ok? ==> r.value.Valid() && r.value.shape == slice.shape
    ensures r.Ok? ==> r.value.Coords() == KeepCoords(slice.Coords(), bounds)
    ensures r.Ok? ==> KeepsSteps(r.value.axes, slice.axes)
  {
    if |bounds| != |slice.axes| || !Proper(bounds) {
      return Err(InvalidCoord);
    }
    var axes: seq<Axis> := [];
    for i := 0 to |slice.axes|
      invariant |axes| == i
      invariant forall k :: 0 <= k < i ==>
                  axes[k].Valid(slice.shape[k]) && axes[k].Len() <= slice.axes[k].Len()
                  && Values(axes[k]) == Keep(Values(slice.axes[k]), bounds[k])
                  && (axes[k].Span? ==> slice.axes[k].Span? && axes[k].step == slice.axes[k].step)
    {
      var clipped := ClipAxis(slice.axes[i], bounds[i], slice.shape[i]);
      axes := axes + [clipped];
    }
    CoordsAreProduct(slice.axes);
    CoordsAreProduct(axes);
    KeepProduct(AllValues(slice.axes), bounds);
    assert KeepAll(AllValues(slice.axes), bounds) == AllValues(axes);
    SizeMonotone(Lens(axes), Lens(slice.axes));
    r := NewSlice(slice.shape, axes);
  }
}
