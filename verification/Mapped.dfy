/** Mapping a request: the logical request of a view becomes runs of flat base addresses. */
module Mapped {
  import opened Radix
  import opened Wrappers
  import opened Request
  import opened Progressions
  import opened Mapping

  /** The reference: the base offset of every requested coordinate, one at a time. */
  ghost function MapOffsets(m: CoordinateMap, request: BatchRequest): (o: seq<int>)
    requires m.Valid() && request.Valid(m.shape)
    ensures |o| == request.len
    ensures forall i :: 0 <= i < |o| ==>
              InShape(request.Coords(m.shape)[i], m.shape) && o[i] == m.Offset(request.Coords(m.shape)[i])
  {
    RequestInside(request, m.shape);
    seq(request.len, i requires 0 <= i < request.len => m.Offset(request.Coords(m.shape)[i]))
  }

  /** A one-element stepped interval on the varying axis is still scaled by its stride. */
  predicate StepsMap(m: CoordinateMap, request: BatchRequest) {
    request.kind.Rectangles? && IsAffine(m) ==> StepsFit(request.kind.rects, AffineStrides(m))
  }

  /** `mapped`: the walk over the result is the mapping of the original walk. */
  method MapRequest(request: BatchRequest, m: CoordinateMap, shape: seq<nat>,
                    strides: seq<nat>) returns (r: Result<BatchRequest>)
    requires m.Valid() && Positive(m.shape)
    requires Positive(shape) && Size(shape) <= U64_MAX && strides == Strides(shape)
    ensures r.Ok? ==> request.Valid(m.shape) && InBase(MapOffsets(m, request), Size(shape))
    ensures r.Ok? ==> r.value.Valid(shape) && r.value.len == request.len
    ensures r.Ok? ==> forall i :: 0 <= i < request.len ==>
              r.value.Coords(shape)[i] == Decode(Max(0, MapOffsets(m, request)[i]), shape)
    ensures request.Valid(m.shape) && m.Good(Size(shape)) && |m.shape| <= MAX_RANK ==> (r.Ok? <==> StepsMap(m, request))
  {
    hide StepsFit, CoordinateMap.Offset, Flats, Chained, Progression.At, Progression.Within, Size, Decode;
    if !request.Valid(m.shape) {
      return Err(InvalidCoord);
    }
    ghost var want := MapOffsets(m, request);
    if m.Good(Size(shape)) {
      MapOffsetsInBase(m, request, Size(shape));
    }
    var runs: Result<seq<Progression>>;
    if request.kind.Explicit? || request.kind.FlatRuns? {
      runs := MapEach(request, m, shape, strides);
    } else {
      var affine := Affine(m, Size(shape));
      if affine.Err? {
        return Err(affine.error);
      }
      if affine.value.None? {
        runs := MapEach(request, m, shape, strides);
      } else {
        runs := MapAffine(request, m, affine.value.value.0, affine.value.value.1, shape);
      }
    }
    if runs.Err? {
      return Err(runs.error);
    }
    var mapped := BatchRequest(FlatRuns(runs.value), request.len);
    if InBase(want, Size(shape)) {
      RunsValid(runs.value, request.len, shape);
    }
    if !mapped.Valid(shape) {
      return Err(InvalidCoord);
    }
    FlatsInBase(runs.value, Size(shape));
    return Ok(mapped);
  }

  lemma MapOffsetsInBase(m: CoordinateMap, request: BatchRequest, size: nat)
    requires m.Good(size) && request.Valid(m.shape)
    ensures InBase(MapOffsets(m, request), size)
  {
    var o := MapOffsets(m, request);
    forall i | 0 <= i < |o| ensures 0 <= o[i] < size {
      assert o[i] == m.Offset(request.Coords(m.shape)[i]);
    }
  }

  /** Validating the mapped runs is checking that every address is in the base. */
  lemma RunsValid(runs: seq<Progression>, len: nat, shape: seq<nat>)
    requires Positive(shape) && Size(shape) <= U64_MAX && Chained(runs)
    requires len == |Flats(runs)| <= MAX_BATCH_ELEMENTS && InBase(Flats(runs), Size(shape))
    ensures BatchRequest(FlatRuns(runs), len).Valid(shape)
  {
    forall i | 0 <= i < |runs| ensures runs[i].Within(Size(shape)) {
      FlatsAt(runs, i, 0);
      FlatsAt(runs, i, runs[i].len - 1);
    }
  }

  /** The affine path: storage's progression planner, with adjacent runs merged. */
  method MapAffine(request: BatchRequest, m: CoordinateMap, offset: int, strides: seq<int>, ghost shape: seq<nat>)
    returns (r: Result<seq<Progression>>)
    requires m.Valid() && Positive(m.shape) && IsAffine(m) && strides == AffineStrides(m)
    requires request.Valid(m.shape) && (request.kind.Linear? || request.kind.Rectangles?)
    requires forall c: Coord :: InShape(c, m.shape) ==> m.Offset(c) == offset + Dot(c, strides)
    ensures r.Ok? ==> Chained(r.value) && Flats(r.value) == MapOffsets(m, request)
    ensures m.Good(Size(shape)) && Size(shape) <= U64_MAX ==> (r.Ok? <==> StepsMap(m, request))
  {
    hide StepsFit, CoordinateMap.Offset, Flats, Chained, Progression.At, Dot;
    AffineMapped(request, m, offset, strides);
    if m.Good(Size(shape)) && Size(shape) <= U64_MAX {
      AffineMapFits(m, offset, strides, Size(shape));
    }
    var planned := PlanProgressions(request, m.shape, offset, strides);
    if planned.Err? {
      return Err(planned.error);
    }
    var runs := PushAll(planned.value);
    return Ok(runs);
  }

  lemma AffineMapped(request: BatchRequest, m: CoordinateMap, offset: int, strides: seq<int>)
    requires m.Valid() && request.Valid(m.shape) && |strides| == |m.shape|
    requires forall c: Coord :: InShape(c, m.shape) ==> m.Offset(c) == offset + Dot(c, strides)
    ensures AddressesOf(request, m.shape, offset, strides) == MapOffsets(m, request)
  {
    var a, o := AddressesOf(request, m.shape, offset, strides), MapOffsets(m, request);
    forall i | 0 <= i < |o| ensures a[i] == o[i] {
      assert InShape(request.Coords(m.shape)[i], m.shape);
    }
  }

  lemma AffineMapFits(m: CoordinateMap, offset: int, strides: seq<int>, size: nat)
    requires m.Good(size) && size <= U64_MAX && |strides| == |m.shape|
    requires forall c: Coord :: InShape(c, m.shape) ==> m.Offset(c) == offset + Dot(c, strides)
    ensures AddressesFit(m.shape, offset, strides)
  {
    forall c: Coord | InShape(c, m.shape) ensures 0 <= offset + Dot(c, strides) <= U64_MAX {
      assert 0 <= m.Offset(c) < size;
    }
  }

  /** Merging a chained run list keeps its addresses. */
  method PushAll(runs: seq<Progression>) returns (r: seq<Progression>)
    requires Chained(runs)
    ensures Chained(r) && Flats(r) == Flats(runs)
    ensures |r| <= |runs|
  {
    hide Flats, Chained, Progression.At;
    r := [];
    ChainedEmpty();
    assert runs[..0] == [];
    for i := 0 to |runs|
      invariant Chained(r) && Flats(r) == Flats(runs[..i]) && |r| <= i
    {
      ChainedAt(runs, i);
      r := PushProgression(r, runs[i]);
    }
    assert runs[..|runs|] == runs;
  }

  lemma ChainedAt(runs: seq<Progression>, i: nat)
    requires Chained(runs) && i < |runs|
    ensures runs[i].len > 0 && runs[i].output == |Flats(runs[..i])|
    ensures Flats(runs[..i + 1]) == Flats(runs[..i]) + runs[i].Flats()
  {
    assert runs[..i + 1] == runs[..i] + [runs[i]];
    FlatsSnoc(runs[..i], runs[i]);
  }

  /** The general path: resolve each coordinate and flatten it with the base strides. */
  method MapEach(request: BatchRequest, m: CoordinateMap, shape: seq<nat>, strides: seq<nat>)
    returns (r: Result<seq<Progression>>)
    requires m.Valid() && request.Valid(m.shape)
    requires Positive(shape) && Size(shape) <= U64_MAX && strides == Strides(shape)
    ensures r.Ok? ==> Chained(r.value) && Flats(r.value) == MapOffsets(m, request)
    ensures m.Good(Size(shape)) && |m.shape| <= MAX_RANK ==> r.Ok?
  {
    hide Flats, Chained, CoordinateMap.Offset, BatchRequest.Valid, BatchRequest.Coords, Tracks, Progression.At, Size,
         Decode;
    ghost var want := MapOffsets(m, request);
    var runs: seq<Progression> := [];
    ChainedEmpty();
    assert want[..0] == [];
    var cursor := new Cursor(request, m.shape);
    var more, coord := cursor.NextInto();
    var output := 0;
    while more
      invariant cursor.Valid() && 0 <= output <= request.len
      invariant cursor.position == if more then output + 1 else output
      invariant more ==> output < request.len && coord == request.Coords(m.shape)[output]
      invariant !more ==> output == request.len
      invariant Chained(runs) && Flats(runs) == want[..output]
      decreases request.len - output
    {
      var next := MapOne(m, coord, output, shape, strides, want);
      if next.Err? {
        return Err(next.error);
      }
      assert want[..output + 1] == want[..output] + [want[output]];
      runs := PushProgression(runs, next.value);
      output := output + 1;
      more, coord := cursor.NextInto();
    }
    assert want[..|want|] == want;
    return Ok(runs);
  }

  method MapOne(m: CoordinateMap, coord: Coord, output: nat, shape: seq<nat>, strides: seq<nat>, ghost want: seq<int>)
    returns (r: Result<Progression>)
    requires m.Valid() && InShape(coord, m.shape)
    requires Positive(shape) && Size(shape) <= U64_MAX && strides == Strides(shape)
    requires output < |want| && want[output] == m.Offset(coord)
    ensures r.Ok? ==> r.value.len == 1 && r.value.output == output && r.value.Flats() == [want[output]]
    ensures m.Good(Size(shape)) && |m.shape| <= MAX_RANK ==> r.Ok?
  {
    hide CoordinateMap.Offset, Size, Decode, Dot, Flat;
    var mapped := Resolve(m, coord, shape, strides);
    if mapped.Err? {
      return Err(mapped.error);
    }
    FlatOfDecodeInside(want[output], shape);
    var start := Flatten(mapped.value, shape, strides);
    return Ok(Progression(output, start.value, 0, 1));
  }

  /** Partial sums of an in-base coordinate stay below the base size. */
  lemma PartialFlat(c: Coord, shape: seq<nat>, k: nat)
    requires InShape(c, shape) && k <= |c|
    ensures 0 <= Dot(c[..k], Strides(shape)[..k]) < Size(shape)
  {
    var cut: Coord := c[..k] + Zeros(|c| - k);
    DotPrefix(c, Strides(shape), k);
    FlatIsDot(cut, shape);
    FlatMonotone(cut, c, shape);
    FlatBound(c, shape);
  }

  /** The checked weighted sum of an in-base coordinate never overflows. */
  method Flatten(c: Coord, shape: seq<nat>, strides: seq<nat>) returns (r: Result<nat>)
    requires InShape(c, shape) && Size(shape) <= U64_MAX && strides == Strides(shape)
    ensures r == Ok(Flat(c, shape))
  {
    hide Size, Dot, Flat, Strides;
    var flat: nat := 0;
    DotZero(c[..0], strides[..0]);
    for i := 0 to |c|
      invariant flat == Dot(c[..i], strides[..i])
    {
      DotNext(c, strides, i);
      PartialFlat(c, shape, i);
      PartialFlat(c, shape, i + 1);
      MulMonotone(0, c[i], strides[i]);
      if !InI128(c[i] * strides[i]) || !InI128(flat + c[i] * strides[i]) {
        return Err(InvalidLayout);
      }
      flat := flat + c[i] * strides[i];
    }
    assert c[..|c|] == c && strides[..|c|] == strides;
    FlatIsDot(c, shape);
    return Ok(flat);
  }
}
