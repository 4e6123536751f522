/** Planning compact requests as arithmetic progressions of flat addresses, one per
    fastest-axis run, without expanding coordinates. */
module Progressions {
  import opened Radix
  import opened Wrappers
  import opened Request

  // ---------------------------------------------------------------------
  // Coalescing
  // ---------------------------------------------------------------------

  /** The step of a progression that is two nonempty ones on end. */
  lemma JoinedStep(last: Progression, next: Progression, merged: Progression)
    requires last.len > 0 && next.len > 0 && merged.Flats() == last.Flats() + next.Flats()
    ensures last.start + merged.step * last.len == next.start
    ensures merged.step == if last.len == 1 then next.start - last.start else last.step
    ensures next.len > 1 ==> next.step == merged.step
  {
    assert merged.Flats()[0] == last.At(0) && merged.Flats()[last.len] == next.At(0);
    if last.len > 1 {
      assert merged.Flats()[1] == last.At(1);
    }
    if next.len > 1 {
      assert merged.Flats()[last.len + 1] == next.At(1);
      assert merged.step * (last.len + 1) == merged.step * last.len + merged.step;
    }
  }

  /** The run covering two adjacent runs, when one step describes both. */
  method Merge(last: Progression, next: Progression) returns (r: Option<Progression>)
    requires last.len > 0 && next.len > 0 && next.output == last.output + last.len
    ensures r.Some? ==> r.value.output == last.output && r.value.Flats() == last.Flats() + next.Flats()
    ensures r.None? ==> forall merged: Progression ::
              merged.Flats() == last.Flats() + next.Flats() ==> !InI128(merged.step) || !InI128(merged.step * last.len)
  {
    forall merged: Progression | merged.Flats() == last.Flats() + next.Flats() {
      JoinedStep(last, next, merged);
    }
    if last.len == 1 && !InI128(next.start - last.start) {
      return None;
    }
    var step := if last.len == 1 then next.start - last.start else last.step;
    if (next.len == 1 || next.step == step)
      && InI128(step * last.len)
      && last.start + step * last.len == next.start
    {
      var merged := Progression(last.output, last.start, step, last.len + next.len);
      MergedFlats(last, next, merged);
      return Some(merged);
    }
    return None;
  }

  /** Appending keeps the addresses; adjacent runs of one step become one run. */
  method PushProgression(runs: seq<Progression>, next: Progression) returns (r: seq<Progression>)
    requires Chained(runs) && next.len > 0 && next.output == |Flats(runs)|
    ensures Chained(r)
    ensures Flats(r) == Flats(runs) + next.Flats()
    ensures |r| <= |runs| + 1
    ensures runs != [] && |r| > |runs| ==> forall merged: Progression ::
              merged.Flats() == runs[|runs| - 1].Flats() + next.Flats() ==>
                !InI128(merged.step) || !InI128(merged.step * runs[|runs| - 1].len)
  {
    hide *;
    FlatsSnoc(runs, next);
    ChainedSnoc(runs, next);
    if runs != [] {
      var front := runs[..|runs| - 1];
      ChainedLast(runs);
      var merged := Merge(runs[|runs| - 1], next);
      if merged.Some? {
        FlatsSnoc(front, merged.value);
        ChainedSnoc(front, merged.value);
        return front + [merged.value];
      }
    }
    return runs + [next];
  }

  lemma MergedFlats(last: Progression, next: Progression, merged: Progression)
    requires last.len > 0 && next.len > 0
    requires merged.start == last.start && merged.len == last.len + next.len
    requires last.len == 1 || merged.step == last.step
    requires next.len == 1 || merged.step == next.step
    requires next.start == last.start + merged.step * last.len
    ensures merged.Flats() == last.Flats() + next.Flats()
  {
    hide Progression.At;
    forall i | 0 <= i < merged.len ensures merged.At(i) == (last.Flats() + next.Flats())[i] {
      if i >= last.len {
        MergedTail(last, next, merged, i - last.len);
        assert last.len + (i - last.len) == i;
      } else {
        MergedHead(last, merged, i);
      }
    }
  }

  lemma MergedHead(last: Progression, merged: Progression, i: nat)
    requires i < last.len && merged.start == last.start && (last.len == 1 || merged.step == last.step)
    ensures merged.At(i) == last.At(i)
  {}

  lemma MergedTail(last: Progression, next: Progression, merged: Progression, k: nat)
    requires k < next.len && merged.start == last.start && (next.len == 1 || merged.step == next.step)
    requires next.start == last.start + merged.step * last.len
    ensures merged.At(last.len + k) == next.At(k)
  {
    assert merged.step * (last.len + k) == merged.step * last.len + merged.step * k;
  }

  // ---------------------------------------------------------------------
  // Segments
  // ---------------------------------------------------------------------

  /** The axis that varies fastest: the last one longer than one. */
  function Varying(dims: seq<nat>): (v: nat)
    ensures dims != [] ==> v < |dims|
    ensures forall j :: v < j < |dims| ==> dims[j] <= 1
    ensures v > 0 ==> v < |dims| && dims[v] > 1
  {
    if |dims| <= 1 then 0
    else if dims[|dims| - 1] > 1 then |dims| - 1
    else Varying(dims[..|dims| - 1])
  }

  /** The next constant-step subsequence of an axis, starting at index `i`. */
  method NextSegment(axis: Axis, i: nat) returns (start: nat, step: int, len: nat)
    requires i < axis.Len()
    ensures len > 0 && i + len <= axis.Len()
    ensures start == axis.At(i)
    ensures forall k :: 0 <= k < len ==> axis.At(i + k) == start + step * k
    ensures axis.Span? && i == 0 ==> step == axis.step && len == axis.Len()
    ensures axis.Selected? && len == 1 ==> step == 0
    ensures axis.Selected? && i + len < axis.Len() ==> axis.At(i + len) - axis.At(i + len - 1) != step
  {
    start := axis.At(i);
    var end: nat;
    match axis {
      case Span(origin, stride, count) =>
        step, end := stride, count;
        forall k | 0 <= k < count - i ensures axis.At(i + k) == start + step * k {
          assert stride * (i + k) == stride * i + stride * k;
        }
      case Selected(values) =>
        step := if i + 1 < |values| then values[i + 1] as int - start else 0;
        end := i + 1;
        while end < |values| && values[end] as int - values[end - 1] as int == step
          invariant i + 1 <= end <= |values|
          invariant i + 1 < |values| ==> step == values[i + 1] - start
          invariant i + 1 == |values| ==> step == 0
          invariant forall k :: 0 <= k < end - i ==> values[i + k] == start + step * k
          decreases |values| - end
        {
          var k := end - i;
          assert values[i + (k - 1)] == start + step * (k - 1);
          assert step * (k - 1) + step == step * k;
          end := end + 1;
        }
    }
    len := end - i;
  }

  /** One intersection of a linear span with a row. */
  datatype Segment = Segment(flat: nat, output: nat, count: nat)

  /** A nonempty piece of one row, at its place in the span. */
  predicate InRow(s: Segment, start: nat, width: nat)
    requires width > 0
  {
    s.count > 0 && s.flat == start + s.output && s.flat % width + s.count <= width
  }

  function EndOf(segments: seq<Segment>): nat {
    if segments == [] then 0 else segments[|segments| - 1].output + segments[|segments| - 1].count
  }

  /** Segments follow each other from zero, each inside one row. */
  predicate SegmentsTile(segments: seq<Segment>, start: nat, width: nat)
    requires width > 0
  {
    forall i :: 0 <= i < |segments| ==>
      InRow(segments[i], start, width) && segments[i].output == EndOf(segments[..i])
  }

  lemma TileEmpty(start: nat, width: nat)
    requires width > 0
    ensures SegmentsTile([], start, width)
  {}

  lemma TileSnoc(segments: seq<Segment>, next: Segment, start: nat, width: nat)
    requires width > 0 && SegmentsTile(segments, start, width)
    requires InRow(next, start, width) && next.output == EndOf(segments)
    ensures SegmentsTile(segments + [next], start, width)
  {
    var all := segments + [next];
    forall i | 0 <= i < |all| ensures InRow(all[i], start, width) && all[i].output == EndOf(all[..i]) {
      assert all[..i] == segments[..i];
      assert segments[..|segments|] == segments;
    }
  }

  lemma {:induction false} EndMonotone(segments: seq<Segment>, start: nat, width: nat, i: nat)
    requires width > 0 && SegmentsTile(segments, start, width) && i <= |segments|
    ensures EndOf(segments[..i]) <= EndOf(segments)
    decreases |segments| - i
  {
    if i < |segments| {
      EndMonotone(segments, start, width, i + 1);
      assert segments[..i + 1][i] == segments[i];
    } else {
      assert segments[..i] == segments;
    }
  }

  method LinearSegments(start: nat, len: nat, width: nat) returns (r: Result<seq<Segment>>)
    ensures r.Ok? <==> width > 0 && start + len <= U64_MAX
    ensures r.Ok? ==> SegmentsTile(r.value, start, width) && EndOf(r.value) == len
  {
    hide SegmentsTile;
    if width == 0 || start + len > U64_MAX {
      return Err(InvalidCoord);
    }
    var segments: seq<Segment> := [];
    TileEmpty(start, width);
    var done := 0;
    while done != len
      invariant 0 <= done <= len
      invariant SegmentsTile(segments, start, width) && EndOf(segments) == done
      decreases len - done
    {
      var flat := start + done;
      var count := Min(len - done, width - flat % width);
      TileSnoc(segments, Segment(flat, done, count), start, width);
      segments := segments + [Segment(flat, done, count)];
      done := done + count;
    }
    return Ok(segments);
  }

  // ---------------------------------------------------------------------
  // Addresses
  // ---------------------------------------------------------------------

  /** The reference: one affine address per requested coordinate. */
  function Addresses(coords: seq<Coord>, offset: int, strides: seq<int>): (a: seq<int>)
    requires forall i :: 0 <= i < |coords| ==> |coords[i]| == |strides|
    ensures |a| == |coords|
    ensures forall i :: 0 <= i < |a| ==> a[i] == offset + Dot(coords[i], strides)
  {
    seq(|coords|, i requires 0 <= i < |coords| => offset + Dot(coords[i], strides))
  }

  /** Every in-shape coordinate has an address representable in `u64`. */
  ghost predicate AddressesFit(shape: seq<nat>, offset: int, strides: seq<int>)
    requires |shape| == |strides|
  {
    forall c: Coord :: InShape(c, shape) ==> 0 <= offset + Dot(c, strides) <= U64_MAX
  }

  /** No overflow when the step of a varying interval axis is scaled by its stride. */
  predicate StepsFit(rects: seq<Cartesian>, strides: seq<int>) {
    forall i :: 0 <= i < |rects| ==> StepFits(rects[i], strides)
  }

  predicate SpanFits(axis: Axis, stride: int) {
    axis.Span? ==> InI128(axis.step * stride)
  }

  predicate StepFits(rect: Cartesian, strides: seq<int>) {
    var v := Varying(Lens(rect.axes));
    |rect.axes| == |strides| > 0 && rect.Len() > 0 ==> SpanFits(rect.axes[v], strides[v])
  }

  /** The affine address of one coordinate in checked arithmetic. */
  method CheckedAddress(c: Coord, offset: int, strides: seq<int>, ghost shape: seq<nat>) returns (r: Result<int>)
    requires |c| == |strides| == |shape| && InShape(c, shape)
    ensures r.Ok? ==> r.value == offset + Dot(c, strides)
    ensures AddressesFit(shape, offset, strides) ==> r.Ok?
  {
    var n := offset;
    for i := 0 to |c|
      invariant n == offset + Dot(c[..i], strides[..i])
    {
      DotNext(c, strides, i);
      var d := strides[i] * c[i];
      if AddressesFit(shape, offset, strides) {
        DotPrefix(c, strides, i);
        DotPrefix(c, strides, i + 1);
        assert InShape(c[..i] + Zeros(|c| - i), shape);
        assert InShape(c[..i + 1] + Zeros(|c| - (i + 1)), shape);
      }
      if !InI128(d) || !InI128(n + d) {
        return Err(InvalidLayout);
      }
      n := n + d;
    }
    assert c[..|c|] == c && strides[..|c|] == strides;
    return Ok(n);
  }

  /** One more run covers the next stretch of the reference addresses. */
  lemma Extend(out: seq<Progression>, next: Progression, before: seq<int>, want: seq<int>, at: nat)
    requires Chained(out) && next.len > 0 && next.output == |Flats(out)|
    requires at + next.len <= |want|
    requires Flats(out) == before + want[..at]
    requires forall k :: 0 <= k < next.len ==> next.At(k) == want[at + k]
    ensures Chained(out + [next])
    ensures Flats(out + [next]) == before + want[..at + next.len]
  {
    hide *;
    ChainedSnoc(out, next);
    FlatsSnoc(out, next);
    assert next.Flats() == want[at..at + next.len];
    assert want[..at + next.len] == want[..at] + want[at..at + next.len];
  }

  // ---------------------------------------------------------------------
  // Linear requests
  // ---------------------------------------------------------------------

  /** Moving along the fastest varying axis `v` moves only that coordinate. */
  lemma LinearRow(shape: seq<nat>, v: nat, index: nat, k: nat)
    requires Positive(shape) && v < |shape|
    requires forall j :: v < j < |shape| ==> shape[j] == 1
    requires index + k < Size(shape) && index % shape[v] + k < shape[v]
    ensures var c := Decode(index, shape); Decode(index + k, shape) == c[v := c[v] + k]
  {
    var c := Decode(index, shape);
    SizeOfOnes(shape[v + 1..]);
    PeelDigit(index, shape, v);
    StridesAt(shape, v);
    FlatOfDecodeInside(index, shape);
    var d := c[v := c[v] + k];
    assert InShape(d, shape);
    FlatUpdate(c, shape, v, c[v] + k, k);
    DecodeOfFlat(d, shape);
  }

  /** The addresses of one row segment form a progression. */
  lemma LinearAddress(shape: seq<nat>, v: nat, flat: nat, k: nat, offset: int, strides: seq<int>)
    requires Positive(shape) && v < |shape| == |strides|
    requires forall j :: v < j < |shape| ==> shape[j] == 1
    requires flat + k < Size(shape) && flat % shape[v] + k < shape[v]
    ensures offset + Dot(Decode(flat + k, shape), strides)
         == offset + Dot(Decode(flat, shape), strides) + strides[v] * k
  {
    LinearRow(shape, v, flat, k);
    var c := Decode(flat, shape);
    DotUpdate(c, strides, v, c[v] + k, k);
  }

  method SegmentRun(segment: Segment, shape: seq<nat>, v: nat, start: nat, offset: int, strides: seq<int>,
                    ghost coords: seq<Coord>)
    returns (r: Result<Progression>)
    requires Positive(shape) && v < |shape| == |strides|
    requires forall j :: v < j < |shape| ==> shape[j] == 1
    requires InRow(segment, start, shape[v])
    requires segment.output + segment.count <= |coords| && start + |coords| <= Size(shape)
    requires forall i :: 0 <= i < |coords| ==> |coords[i]| == |strides| && coords[i] == Decode(start + i, shape)
    ensures r.Ok? ==> r.value.output == segment.output && r.value.len == segment.count
    ensures r.Ok? ==> forall k :: 0 <= k < segment.count ==>
              r.value.At(k) == Addresses(coords, offset, strides)[segment.output + k]
    ensures AddressesFit(shape, offset, strides) ==> r.Ok?
  {
    var coord := DecodeFlat(segment.flat, shape);
    DecodeInShape(segment.flat, shape);
    var address := CheckedAddress(coord.value, offset, strides, shape);
    if address.Err? {
      return Err(address.error);
    }
    var next := Progression(segment.output, address.value, strides[v], segment.count);
    LinearRun(shape, v, start, next, offset, strides, coords);
    return Ok(next);
  }

  method LinearProgressions(start: nat, len: nat, shape: seq<nat>, offset: int, strides: seq<int>,
                            ghost coords: seq<Coord>)
    returns (r: Result<seq<Progression>>)
    requires Positive(shape) && shape != [] && |strides| == |shape|
    requires start + len <= Size(shape) <= U64_MAX
    requires |coords| == len
    requires forall i :: 0 <= i < |coords| ==> |coords[i]| == |strides| && coords[i] == Decode(start + i, shape)
    ensures r.Ok? ==> Chained(r.value) && Flats(r.value) == Addresses(coords, offset, strides)
    ensures AddressesFit(shape, offset, strides) ==> r.Ok?
  {
    hide Size, Decode, Dot, AddressesFit, Progression.At, Flats, Chained;
    ChainedEmpty();
    var v := Varying(shape);
    ghost var want := Addresses(coords, offset, strides);
    var tiled := LinearSegments(start, len, shape[v]);
    var segments := tiled.value;
    var out: seq<Progression> := [];
    for i := 0 to |segments|
      invariant EndOf(segments[..i]) <= len
      invariant Chained(out) && Flats(out) == [] + want[..EndOf(segments[..i])]
    {
      var segment := segments[i];
      EndMonotone(segments, start, shape[v], i + 1);
      assert segments[..i + 1][i] == segment;
      var next := SegmentRun(segment, shape, v, start, offset, strides, coords);
      if next.Err? {
        return Err(next.error);
      }
      Extend(out, next.value, [], want, segment.output);
      out := out + [next.value];
    }
    assert segments[..|segments|] == segments;
    return Ok(out);
  }

  lemma LinearRun(shape: seq<nat>, v: nat, start: nat, next: Progression, offset: int, strides: seq<int>,
                  coords: seq<Coord>)
    requires Positive(shape) && v < |shape| == |strides|
    requires forall j :: v < j < |shape| ==> shape[j] == 1
    requires next.output + next.len <= |coords| && start + |coords| <= Size(shape)
    requires forall i :: 0 <= i < |coords| ==> |coords[i]| == |strides| && coords[i] == Decode(start + i, shape)
    requires (start + next.output) % shape[v] + next.len <= shape[v]
    requires next.step == strides[v]
    requires next.start == offset + Dot(Decode(start + next.output, shape), strides)
    ensures forall k :: 0 <= k < next.len ==> next.At(k) == Addresses(coords, offset, strides)[next.output + k]
  {
    forall k | 0 <= k < next.len ensures next.At(k) == Addresses(coords, offset, strides)[next.output + k] {
      LinearAddress(shape, v, start + next.output, k, offset, strides);
      assert coords[next.output + k] == Decode(start + next.output + k, shape);
    }
  }

  // ---------------------------------------------------------------------
  // Rectangles
  // ---------------------------------------------------------------------

  lemma {:induction false} DecodeOnes(flat: nat, s: seq<nat>)
    requires forall i :: 0 <= i < |s| ==> s[i] == 1
    ensures Decode(flat, s) == Zeros(|s|)
  {
    if s != [] {
      SizeOfOnes(s[1..]);
      DecodeOnes(flat, s[1..]);
      assert Zeros(|s|) == [0] + Zeros(|s| - 1);
    }
  }

  /** A dimension followed by singletons decodes to one digit. */
  lemma FastDigit(j: nat, l: nat, ones: seq<nat>)
    requires j < l && forall i :: 0 <= i < |ones| ==> ones[i] == 1
    ensures Size([l] + ones) == l
    ensures Decode(j, [l] + ones) == [j] + Zeros(|ones|)
  {
    SizeOfOnes(ones);
    assert ([l] + ones)[1..] == ones;
    DivUnique(0, j, l);
    DecodeOnes(j, ones);
  }

  /** The only values of axes of length one. */
  function Constants(axes: seq<Axis>): (c: Coord)
    requires forall i :: 0 <= i < |axes| ==> axes[i].Len() == 1
    ensures |c| == |axes|
    ensures forall i :: 0 <= i < |c| ==> c[i] == axes[i].At(0)
  {
    seq(|axes|, i requires 0 <= i < |axes| => axes[i].At(0))
  }

  lemma LensSplit(axes: seq<Axis>, v: nat)
    requires v < |axes|
    ensures Lens(axes) == Lens(axes[..v]) + ([axes[v].Len()] + Lens(axes[v + 1..]))
  {}

  /** Index `p * L + j` of a rectangle: prefix `p`, then `j` on the varying axis. */
  lemma RectangleIndex(axes: seq<Axis>, v: nat, p: nat, j: nat, index: int)
    requires v < |axes|
    requires forall i :: v < i < |axes| ==> axes[i].Len() == 1
    requires p < Cartesian(axes[..v]).Len() && j < axes[v].Len()
    requires index == p * axes[v].Len() + j
    ensures 0 <= index < Cartesian(axes).Len()
    ensures Cartesian(axes).Coordinate(index)
         == Cartesian(axes[..v]).Coordinate(p) + [axes[v].At(j)] + Constants(axes[v + 1..])
  {
    hide Size, Decode, Flat;
    var front, ones := Lens(axes[..v]), Lens(axes[v + 1..]);
    LensSplit(axes, v);
    EmptySize(front);
    FastDigit(j, axes[v].Len(), ones);
    DecodeConcat(p, j, front, [axes[v].Len()] + ones, index);
    EmptySize(Lens(axes));
    DecodeInShape(index, Lens(axes));
    assert Decode(index, Lens(axes)) == Decode(p, front) + [j] + Zeros(|ones|);
    DecodeInShape(p, front);
    PickRow(axes, v, Decode(p, front), j);
  }

  lemma PickRow(axes: seq<Axis>, v: nat, d: Coord, j: nat)
    requires v < |axes| && forall i :: v < i < |axes| ==> axes[i].Len() == 1
    requires InShape(d, Lens(axes[..v])) && j < axes[v].Len()
    ensures InShape(d + [j] + Zeros(|axes| - v - 1), Lens(axes))
    ensures Pick(axes, d + [j] + Zeros(|axes| - v - 1))
         == Pick(axes[..v], d) + [axes[v].At(j)] + Constants(axes[v + 1..])
  {
    hide Axis.At;
    forall i | 0 <= i < |axes| ensures (d + [j] + Zeros(|axes| - v - 1))[i] < Lens(axes)[i] {
      if i < v {
        assert Lens(axes[..v])[i] == Lens(axes)[i];
      }
    }
  }

  lemma RectangleSize(axes: seq<Axis>, v: nat)
    requires v < |axes|
    requires forall i :: v < i < |axes| ==> axes[i].Len() == 1
    ensures Cartesian(axes).Len() == Cartesian(axes[..v]).Len() * axes[v].Len()
  {
    LensSplit(axes, v);
    SizeOfOnes(Lens(axes[v + 1..]));
    assert ([axes[v].Len()] + Lens(axes[v + 1..]))[1..] == Lens(axes[v + 1..]);
    SizeConcat(Lens(axes[..v]), [axes[v].Len()] + Lens(axes[v + 1..]));
  }

  /** Moving the varying coordinate of a rectangle row by `d` moves the address by `d` strides. */
  lemma RowAddress(front: Coord, first: nat, back: Coord, other: nat, strides: seq<int>, d: int)
    requires |strides| == |front| + 1 + |back|
    requires other - first == d
    ensures Dot(front + [other] + back, strides)
         == Dot(front + [first] + back, strides) + d * strides[|front|]
  {
    var base, v := front + [first] + back, |front|;
    assert base[v := other] == front + [other] + back;
    DotUpdate(base, strides, v, other, d);
  }

  /** Row `p` of a rectangle starts at index `at`; axis `v` varies along it. */
  predicate IsRow(axes: seq<Axis>, shape: seq<nat>, v: nat, p: nat, at: nat) {
    && AxesValid(axes, shape)
    && v < |axes|
    && (forall j :: v < j < |axes| ==> axes[j].Len() == 1)
    && p < Cartesian(axes[..v]).Len()
    && at == p * axes[v].Len()
    && at + axes[v].Len() <= Cartesian(axes).Len()
  }

  /** The addresses of one constant-step segment of a rectangle row. */
  lemma RectangleRun(axes: seq<Axis>, shape: seq<nat>, v: nat, p: nat, at: nat, i: nat, first: nat, step: int,
                     offset: int, strides: seq<int>, next: Progression)
    requires IsRow(axes, shape, v, p, at) && |strides| == |axes|
    requires i + next.len <= axes[v].Len()
    requires forall k :: 0 <= k < next.len ==> axes[v].At(i + k) == first + step * k
    requires next.step == step * strides[v]
    requires next.start == offset
      + Dot(Cartesian(axes[..v]).Coordinate(p) + [first] + Constants(axes[v + 1..]), strides)
    ensures forall k :: 0 <= k < next.len ==>
              next.At(k) == offset + Dot(Cartesian(axes).Coordinate(at + i + k), strides)
  {
    hide Size, Decode, Dot, Cartesian.Coordinate;
    var front, back := Cartesian(axes[..v]).Coordinate(p), Constants(axes[v + 1..]);
    forall k | 0 <= k < next.len
      ensures next.At(k) == offset + Dot(Cartesian(axes).Coordinate(at + i + k), strides)
    {
      RectangleIndex(axes, v, p, i + k, at + (i + k));
      RowAddress(front, first, back, axes[v].At(i + k), strides, step * k);
      MulShuffle(step, strides[v], k, step * k);
    }
  }

  lemma BaseInside(axes: seq<Axis>, shape: seq<nat>, v: nat, p: nat, at: nat, i: nat)
    requires IsRow(axes, shape, v, p, at) && i < axes[v].Len()
    ensures InShape(Cartesian(axes[..v]).Coordinate(p) + [axes[v].At(i)] + Constants(axes[v + 1..]), shape)
  {
    CoordinateInside(Cartesian(axes[..v]), p, shape[..v]);
    AxisInside(axes[v], shape[v], i);
    var back := Constants(axes[v + 1..]);
    forall j | 0 <= j < |back| ensures back[j] < shape[v + 1 + j] {
      AxisInside(axes[v + 1 + j], shape[v + 1 + j], 0);
    }
  }

  /** The step between two selected values cannot overflow once scaled. */
  lemma SelectedStepFits(base: Coord, shape: seq<nat>, v: nat, other: nat, step: int,
                         offset: int, strides: seq<int>)
    requires |strides| == |shape| && AddressesFit(shape, offset, strides)
    requires InShape(base, shape) && v < |base| && other < shape[v]
    requires step == other - base[v]
    ensures InI128(step * strides[v])
  {
    assert InShape(base[v := other], shape);
    DotUpdate(base, strides, v, other, step);
  }

  /** The progression of the segment of a row that starts at index `i`. */
  method SegmentProgression(axes: seq<Axis>, shape: seq<nat>, v: nat, p: nat, ghost at: nat, i: nat,
                            prefix: Coord, offset: int, strides: seq<int>, output: nat)
    returns (r: Result<Progression>)
    requires IsRow(axes, shape, v, p, at) && |strides| == |shape| && i < axes[v].Len()
    requires prefix == Cartesian(axes[..v]).Coordinate(p)
    ensures r.Ok? ==> r.value.output == output && 0 < r.value.len <= axes[v].Len() - i
    ensures r.Ok? ==> forall k :: 0 <= k < r.value.len ==>
              r.value.At(k) == offset + Dot(Cartesian(axes).Coordinate(at + i + k), strides)
    ensures r.Ok? && axes[v].Span? && i == 0 ==> r.value.len == axes[v].Len() && SpanFits(axes[v], strides[v])
    ensures AddressesFit(shape, offset, strides) && SpanFits(axes[v], strides[v]) && (axes[v].Span? ==> i == 0) ==>
              r.Ok?
  {
    hide Size, Decode, Cartesian.Coordinate;
    var first, step, len := NextSegment(axes[v], i);
    var base := prefix + [first] + Constants(axes[v + 1..]);
    BaseInside(axes, shape, v, p, at, i);
    var address := CheckedAddress(base, offset, strides, shape);
    if address.Err? {
      return Err(address.error);
    }
    if axes[v].Selected? && len > 1 && AddressesFit(shape, offset, strides) {
      AxisInside(axes[v], shape[v], i + 1);
      assert axes[v].At(i + 1) == first + step * 1;
      SelectedStepFits(base, shape, v, axes[v].At(i + 1), step, offset, strides);
    }
    if !InI128(step * strides[v]) {
      return Err(InvalidLayout);
    }
    var next := Progression(output, address.value, step * strides[v], len);
    RectangleRun(axes, shape, v, p, at, i, first, step, offset, strides, next);
    return Ok(next);
  }

  /** One row of a rectangle: prefix `p` with the varying axis `v` cut into segments. */
  method RowProgressions(axes: seq<Axis>, shape: seq<nat>, v: nat, p: nat, at: nat, offset: int, strides: seq<int>,
                         out: seq<Progression>, ghost before: seq<int>, ghost target: seq<int>)
    returns (r: Result<seq<Progression>>)
    requires IsRow(axes, shape, v, p, at) && |strides| == |shape|
    requires target == Addresses(Cartesian(axes).Coords(), offset, strides)
    requires Chained(out) && Flats(out) == before + target[..at]
    ensures r.Ok? ==> Chained(r.value) && Flats(r.value) == before + target[..at + axes[v].Len()]
    ensures r.Ok? && axes[v].Len() > 0 ==> SpanFits(axes[v], strides[v])
    ensures AddressesFit(shape, offset, strides) && SpanFits(axes[v], strides[v]) ==> r.Ok?
  {
    hide Size, Decode, Dot, Cartesian.Coordinate, Progression.At, AddressesFit, Flats, Chained;
    var prefix := CoordinateInto(Cartesian(axes[..v]), p);
    var runs := out;
    var i := 0;
    while i < axes[v].Len()
      invariant 0 <= i <= axes[v].Len()
      invariant axes[v].Span? ==> i == 0 || i == axes[v].Len()
      invariant i > 0 ==> SpanFits(axes[v], strides[v])
      invariant Chained(runs) && Flats(runs) == before + target[..at + i]
    {
      var next := SegmentProgression(axes, shape, v, p, at, i, prefix, offset, strides, |Flats(runs)|);
      if next.Err? {
        return Err(next.error);
      }
      Extend(runs, next.value, before, target, at + i);
      runs := runs + [next.value];
      i := i + next.value.len;
    }
    return Ok(runs);
  }

  /** All progressions of one nonempty rectangle, appended to `out`. */
  method RectangleProgressions(rect: Cartesian, shape: seq<nat>, offset: int, strides: seq<int>, out: seq<Progression>)
    returns (r: Result<seq<Progression>>)
    requires AxesValid(rect.axes, shape) && |strides| == |shape| > 0 && rect.Len() > 0
    requires Chained(out)
    ensures r.Ok? ==> Chained(r.value)
    ensures r.Ok? ==> Flats(r.value) == Flats(out) + Addresses(rect.Coords(), offset, strides)
    ensures r.Ok? ==> StepFits(rect, strides)
    ensures AddressesFit(shape, offset, strides) && StepFits(rect, strides) ==> r.Ok?
  {
    hide Size, Decode, Dot, Cartesian.Coordinate, Progression.At, AddressesFit, Flats, Chained;
    var axes := rect.axes;
    EmptySize(Lens(axes));
    var v := Varying(Lens(axes));
    assert forall j :: v < j < |axes| ==> Lens(axes)[j] == axes[j].Len() == 1;
    RectangleSize(axes, v);
    ghost var target := Addresses(rect.Coords(), offset, strides);
    var prefixes := Cartesian(axes[..v]).Len();
    var runs := out;
    var p, at := 0, 0;
    while p < prefixes
      invariant 0 <= p <= prefixes && at == p * axes[v].Len() <= rect.Len()
      invariant Chained(runs) && Flats(runs) == Flats(out) + target[..at]
      invariant p > 0 ==> StepFits(rect, strides)
    {
      MulMonotone(p + 1, prefixes, axes[v].Len());
      assert (p + 1) * axes[v].Len() == at + axes[v].Len();
      var row := RowProgressions(axes, shape, v, p, at, offset, strides, runs, Flats(out), target);
      if row.Err? {
        return Err(row.error);
      }
      runs := row.value;
      p, at := p + 1, at + axes[v].Len();
    }
    assert target[..at] == target;
    return Ok(runs);
  }

  /** The reference for a whole request: one affine address per coordinate, in order. */
  ghost function AddressesOf(request: BatchRequest, shape: seq<nat>, offset: int, strides: seq<int>): (a: seq<int>)
    requires request.Valid(shape) && |strides| == |shape|
    ensures |a| == request.len
    ensures forall i :: 0 <= i < request.len ==>
              InShape(request.Coords(shape)[i], shape) && a[i] == offset + Dot(request.Coords(shape)[i], strides)
  {
    RequestInside(request, shape);
    Addresses(request.Coords(shape), offset, strides)
  }

  lemma RequestInside(request: BatchRequest, shape: seq<nat>)
    requires request.Valid(shape)
    ensures forall i :: 0 <= i < request.len ==> InShape(request.Coords(shape)[i], shape)
  {
    forall i | 0 <= i < request.len ensures InShape(request.Coords(shape)[i], shape) {
      CoordsInside(request, shape, i);
    }
  }

  /** `progressions`: one run per constant-step stretch of the fastest axis. */
  method PlanProgressions(request: BatchRequest, shape: seq<nat>, offset: int, strides: seq<int>)
    returns (r: Result<seq<Progression>>)
    requires request.Valid(shape) && (request.kind.Linear? || request.kind.Rectangles?)
    ensures |shape| != |strides| ==> r.Err?
    ensures r.Ok? ==> Chained(r.value)
    ensures r.Ok? ==> Flats(r.value) == AddressesOf(request, shape, offset, strides)
    ensures |shape| == |strides| && AddressesFit(shape, offset, strides) ==>
              (r.Ok? <==> (request.kind.Rectangles? ==> StepsFit(request.kind.rects, strides)))
  {
    if |shape| != |strides| {
      return Err(InvalidLayout);
    }
    ghost var want := AddressesOf(request, shape, offset, strides);
    if request.len == 0 {
      EmptyStepsFit(request, shape, strides);
      assert Flats([]) == want;
      return Ok([]);
    }
    if shape == [] {
      var one := Progression(0, offset, 0, request.len);
      FlatsSnoc([], one);
      assert Flats([one]) == want;
      return Ok([one]);
    }
    match request.kind {
      case Linear(start) =>
        RequestInside(request, shape);
        r := LinearProgressions(start, request.len, shape, offset, strides, request.Coords(shape));
      case Rectangles(rects) =>
        r := RectanglesProgressions(rects, shape, offset, strides);
    }
  }

  lemma {:induction false} EmptyRects(rects: seq<Cartesian>)
    requires RectCoords(rects) == []
    ensures forall i :: 0 <= i < |rects| ==> rects[i].Len() == 0
  {
    forall i | 0 <= i < |rects| ensures rects[i].Len() == 0 {
      if rects[i].Len() > 0 {
        RectCoordsAt(rects, i, 0);
      }
    }
  }

  lemma EmptyStepsFit(request: BatchRequest, shape: seq<nat>, strides: seq<int>)
    requires request.Valid(shape) && request.len == 0
    ensures request.kind.Rectangles? ==> StepsFit(request.kind.rects, strides)
  {
    if request.kind.Rectangles? {
      EmptyRects(request.kind.rects);
    }
  }

  method RectanglesProgressions(rects: seq<Cartesian>, shape: seq<nat>, offset: int, strides: seq<int>)
    returns (r: Result<seq<Progression>>)
    requires |strides| == |shape| > 0
    requires forall i :: 0 <= i < |rects| ==> AxesValid(rects[i].axes, shape)
    ensures r.Ok? ==> Chained(r.value) && RanksAre(RectCoords(rects), |shape|)
    ensures r.Ok? ==> Flats(r.value) == Addresses(RectCoords(rects), offset, strides)
    ensures r.Ok? ==> StepsFit(rects, strides)
    ensures AddressesFit(shape, offset, strides) && StepsFit(rects, strides) ==> r.Ok?
  {
    hide Size, Decode, Dot, Cartesian.Coordinate, Progression.At, AddressesFit, Flats, Chained, Varying, SpanFits;
    var out: seq<Progression> := [];
    ChainedEmpty();
    RectCoordsInside(rects, shape);
    for i := 0 to |rects|
      invariant Chained(out) && RanksAre(RectCoords(rects[..i]), |shape|)
      invariant Flats(out) == Addresses(RectCoords(rects[..i]), offset, strides)
      invariant StepsFit(rects[..i], strides)
    {
      RectCoordsSnoc(rects[..i], rects[i]);
      assert rects[..i + 1] == rects[..i] + [rects[i]];
      RectCoordsInside(rects[..i + 1], shape);
      if rects[i].Len() == 0 {
        assert RectCoords(rects[..i + 1]) == RectCoords(rects[..i]);
        continue;
      }
      var rest := RectangleProgressions(rects[i], shape, offset, strides, out);
      if rest.Err? {
        return Err(rest.error);
      }
      AddressesConcat(RectCoords(rects[..i]), rects[i].Coords(), offset, strides);
      out := rest.value;
    }
    assert rects[..|rects|] == rects;
    return Ok(out);
  }

  lemma AddressesConcat(a: seq<Coord>, b: seq<Coord>, offset: int, strides: seq<int>)
    requires RanksAre(a, |strides|) && RanksAre(b, |strides|)
    ensures RanksAre(a + b, |strides|)
    ensures Addresses(a + b, offset, strides) == Addresses(a, offset, strides) + Addresses(b, offset, strides)
  {}

  predicate RanksAre(coords: seq<Coord>, rank: nat) {
    forall i :: 0 <= i < |coords| ==> |coords[i]| == rank
  }
}
