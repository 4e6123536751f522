/** Delivering a slice as bounded rectangles, in row-major order. */
module SliceChunks {
  import opened Radix
  import opened Wrappers
  import opened Request
  import opened Schema
  import opened Slices

  // ---------------------------------------------------------------------
  // Chunk sizes
  // ---------------------------------------------------------------------

  /** Before axis `p` every chunk is one index, after it every chunk is the whole axis. */
  predicate Chunked(chunks: seq<nat>, lens: seq<nat>, p: nat) {
    && |chunks| == |lens|
    && (p < |lens| || lens == [])
    && Narrow(chunks, lens, p)
    && forall i :: 0 <= i < |chunks| ==> 1 <= chunks[i] <= lens[i]
  }

  predicate Narrow(chunks: seq<nat>, lens: seq<nat>, p: nat)
    requires |chunks| == |lens|
  {
    && (forall i :: 0 <= i < |chunks| && i < p ==> chunks[i] == 1)
    && forall i :: p < i < |chunks| ==> chunks[i] == lens[i]
  }

  /** A quotient of the batch bound leaves no room for two more of the same size. */
  lemma HalfFull(capacity: nat)
    requires 1 <= capacity <= MAX_BATCH_ELEMENTS
    ensures MAX_BATCH_ELEMENTS / capacity >= 1
    ensures MAX_BATCH_ELEMENTS < 2 * (capacity * (MAX_BATCH_ELEMENTS / capacity)) <= 2 * MAX_BATCH_ELEMENTS
  {
    var q := MAX_BATCH_ELEMENTS / capacity;
    assert MAX_BATCH_ELEMENTS == q * capacity + MAX_BATCH_ELEMENTS % capacity;
    if q <= 0 {
      MulMonotone(q, 0, capacity);
    }
    MulMonotone(1, q, capacity);
  }

  lemma SmallQuotient(capacity: nat)
    requires MAX_BATCH_ELEMENTS < 2 * capacity <= 2 * MAX_BATCH_ELEMENTS
    ensures MAX_BATCH_ELEMENTS / capacity == 1
  {
    DivUnique(1, MAX_BATCH_ELEMENTS - capacity, capacity);
  }

  /** The suffix `i..` is sized; `p == |lens|` while every chunk is still a whole axis. */
  ghost predicate Sized(chunks: seq<nat>, lens: seq<nat>, i: nat, p: nat, capacity: nat) {
    && |chunks| == |lens| && i <= p <= |lens|
    && 1 <= capacity == Size(chunks[i..]) <= MAX_BATCH_ELEMENTS
    && (forall j :: i <= j < |lens| ==> 1 <= chunks[j] <= lens[j])
    && (forall j :: i <= j < p && p < |lens| ==> chunks[j] == 1)
    && (forall j :: i <= j < |lens| && (p == |lens| || p < j) ==> chunks[j] == lens[j])
    && (p < |lens| ==> MAX_BATCH_ELEMENTS < 2 * capacity)
  }

  lemma SizedNext(chunks: seq<nat>, lens: seq<nat>, i: nat, p: nat, capacity: nat, chunk: nat, next: nat)
    requires i < |lens| && Sized(chunks, lens, i + 1, p, capacity) && lens[i] > 0
    requires chunk == Min(lens[i], MAX_BATCH_ELEMENTS / capacity) && next == capacity * Max(chunk, 1)
    ensures chunk >= 1
    ensures Sized(chunks[i := chunk], lens, i, if p < |lens| || chunk == lens[i] then p else i, next)
  {
    HalfFull(capacity);
    if p < |lens| {
      SmallQuotient(capacity);
    }
    assert chunks[i := chunk][i..][1..] == chunks[i + 1..];
    MulMonotone(chunk, MAX_BATCH_ELEMENTS / capacity, capacity);
    MulMonotone(1, chunk, capacity);
  }

  /** Chunk sizing from the fastest axis: a rectangle of chunks fits one batch. */
  method ChunkSizes(lens: seq<nat>) returns (chunks: seq<nat>, ghost p: nat)
    requires Positive(lens)
    ensures Chunked(chunks, lens, p) && Size(chunks) <= MAX_BATCH_ELEMENTS
    ensures chunks == lens || MAX_BATCH_ELEMENTS < 2 * Size(chunks)
  {
    chunks, p := seq(|lens|, _ => 1), |lens|;
    var capacity: nat := 1;
    var i: nat := |lens|;
    while i > 0
      invariant 0 <= i <= |lens| && Sized(chunks, lens, i, p, capacity)
    {
      i := i - 1;
      var chunk := Min(lens[i], MAX_BATCH_ELEMENTS / capacity);
      SizedNext(chunks, lens, i, p, capacity, chunk, capacity * Max(chunk, 1));
      p := if p < |lens| || chunk == lens[i] then p else i;
      chunks := chunks[i := chunk];
      capacity := capacity * Max(chunk, 1);
    }
    assert chunks[0..] == chunks;
    if p == |lens| {
      p := 0;
    }
  }

  // ---------------------------------------------------------------------
  // A narrow block of indices is one row-major stretch
  // ---------------------------------------------------------------------

  lemma {:induction false} NarrowFlat(d: Coord, chunks: seq<nat>, lens: seq<nat>, p: nat)
    requires |chunks| == |lens| && InShape(d, chunks) && Narrow(chunks, lens, p)
    ensures Flat(d, lens) == Flat(d, chunks)
  {
    if lens != [] {
      if p == 0 {
        assert chunks[1..] == lens[1..];
      } else {
        NarrowTail(chunks, lens, p);
        NarrowFlat(d[1..], chunks[1..], lens[1..], p - 1);
      }
    }
  }

  lemma NarrowTail(chunks: seq<nat>, lens: seq<nat>, p: nat)
    requires |chunks| == |lens| > 0 && p > 0 && Narrow(chunks, lens, p)
    ensures chunks[0] == 1 && Narrow(chunks[1..], lens[1..], p - 1)
  {}

  lemma {:induction false} NarrowSize(chunks: seq<nat>, lens: seq<nat>, p: nat)
    requires |chunks| == |lens| && p < |lens| && Narrow(chunks, lens, p)
    ensures Size(chunks) == chunks[p] * Size(lens[p + 1..])
  {
    if p == 0 {
      assert chunks[1..] == lens[1..];
    } else {
      NarrowTail(chunks, lens, p);
      NarrowSize(chunks[1..], lens[1..], p - 1);
      assert lens[1..][p..] == lens[p + 1..];
    }
  }

  /** Part of an axis: `len` indices from `origin`. */
  function Part(axis: Axis, origin: nat, len: nat): (a: Axis)
    requires origin + len <= axis.Len()
    ensures a.Len() == len
  {
    match axis
    case Span(start, step, _) =>
      MulMonotone(0, origin, step);
      Span(start + step * origin, step, len)
    case Selected(values) => Selected(values[origin..origin + len])
  }

  lemma PartAt(axis: Axis, origin: nat, len: nat, k: nat)
    requires origin + len <= axis.Len() && k < len
    ensures Part(axis, origin, len).At(k) == axis.At(origin + k)
  {
    if axis.Span? {
      assert axis.step * (origin + k) == axis.step * origin + axis.step * k;
    }
  }

  lemma PartValid(axis: Axis, origin: nat, len: nat, dim: nat)
    requires axis.Valid(dim) && 0 < len && origin + len <= axis.Len()
    ensures Part(axis, origin, len).Valid(dim)
  {
    if axis.Span? {
      PartAt(axis, origin, len, len - 1);
      PartAt(axis, origin, len, 0);
      AxisInside(axis, dim, origin + len - 1);
      AxisInside(axis, dim, origin);
    }
  }

  function Parts(axes: seq<Axis>, origins: Coord, lens: seq<nat>): (a: seq<Axis>)
    requires |axes| == |origins| == |lens|
    requires forall i :: 0 <= i < |axes| ==> origins[i] + lens[i] <= axes[i].Len()
    ensures |a| == |axes| && Lens(a) == lens
    ensures forall i :: 0 <= i < |a| ==> a[i] == Part(axes[i], origins[i], lens[i])
  {
    seq(|axes|, i requires 0 <= i < |axes| => Part(axes[i], origins[i], lens[i]))
  }

  lemma PartsKeep(axes: seq<Axis>, origins: Coord, lens: seq<nat>)
    requires |axes| == |origins| == |lens|
    requires forall i :: 0 <= i < |axes| ==> origins[i] + lens[i] <= axes[i].Len()
    ensures KeepsSteps(Parts(axes, origins, lens), axes)
  {}

  /** Index `k` of a narrow rectangle is index `Flat(origins) + k` of the whole slice. */
  lemma PartsIndex(axes: seq<Axis>, origins: Coord, lens: seq<nat>, p: nat, k: nat)
    requires |axes| == |origins| == |lens| && Narrow(lens, Lens(axes), p)
    requires forall i :: 0 <= i < |axes| ==> origins[i] + lens[i] <= axes[i].Len()
    requires forall i :: p < i < |axes| ==> origins[i] == 0
    requires k < Size(lens)
    ensures Flat(origins, Lens(axes)) + k < Cartesian(axes).Len()
    ensures Cartesian(axes).Coordinate(Flat(origins, Lens(axes)) + k)
         == Cartesian(Parts(axes, origins, lens)).Coordinate(k)
  {
    hide Size, Decode, Flat, Pick, Parts, Cartesian.Coordinate, Narrow;
    var d := Digits(lens, k);
    NarrowFlat(d, lens, Lens(axes), p);
    var sum: Coord := Advance(origins, d, 1);
    FlatSum(origins, d, sum, Lens(axes));
    PartsPick(axes, origins, lens, d, sum);
    CoordinateOf(axes, sum);
    CoordinateOf(Parts(axes, origins, lens), d);
  }

  /** The digits of an index of a rectangle. */
  function Digits(lens: seq<nat>, k: nat): (d: Coord)
    requires k < Size(lens)
    ensures InShape(d, lens) && Flat(d, lens) == k
  {
    EmptySize(lens);
    FlatOfDecodeInside(k, lens);
    Decode(k, lens)
  }

  lemma PartsPick(axes: seq<Axis>, origins: Coord, lens: seq<nat>, d: Coord, sum: Coord)
    requires |axes| == |origins| == |lens| && InShape(d, lens) && sum == Advance(origins, d, 1)
    requires forall i :: 0 <= i < |axes| ==> origins[i] + lens[i] <= axes[i].Len()
    ensures InShape(sum, Lens(axes)) && Pick(Parts(axes, origins, lens), d) == Pick(axes, sum)
  {
    hide Axis.At, Axis.Len, Part;
    forall i | 0 <= i < |axes| ensures Part(axes[i], origins[i], lens[i]).At(d[i]) == axes[i].At(sum[i]) {
      PartAt(axes[i], origins[i], lens[i], d[i]);
    }
  }

  lemma FlatSum(c: Coord, d: Coord, sum: Coord, shape: seq<nat>)
    requires |c| == |d| == |shape| && sum == Advance(c, d, 1)
    ensures Flat(sum, shape) == Flat(c, shape) + Flat(d, shape)
  {
    FlatIsDot(c, shape);
    FlatIsDot(d, shape);
    FlatIsDot(sum, shape);
    DotAdvance(c, d, 1, Strides(shape));
  }

  lemma PartsCoords(axes: seq<Axis>, origins: Coord, lens: seq<nat>, p: nat, at: nat)
    requires |axes| == |origins| == |lens| && Narrow(lens, Lens(axes), p)
    requires forall i :: 0 <= i < |axes| ==> origins[i] + lens[i] <= axes[i].Len()
    requires forall i :: p < i < |axes| ==> origins[i] == 0
    requires at == Flat(origins, Lens(axes)) && Size(lens) > 0
    ensures at + Size(lens) <= Cartesian(axes).Len()
    ensures Cartesian(Parts(axes, origins, lens)).Coords() == Cartesian(axes).Coords()[at..at + Size(lens)]
  {
    hide Narrow, Flat, Cartesian.Coordinate, Parts, Size, Axis.Len;
    var part := Cartesian(Parts(axes, origins, lens));
    PartsIndex(axes, origins, lens, p, Size(lens) - 1);
    forall k | 0 <= k < Size(lens)
      ensures at + k < Cartesian(axes).Len() && part.Coordinate(k) == Cartesian(axes).Coordinate(at + k)
    {
      PartsIndex(axes, origins, lens, p, k);
    }
  }

  // ---------------------------------------------------------------------
  // The walk
  // ---------------------------------------------------------------------

  /** Moving the walk past one rectangle, axis by axis from the fastest. */
  ghost predicate Carried(lens: seq<nat>, start: Coord, target: nat, p: nat, axis: nat, origins: Coord, done: bool) {
    && |origins| == |start| == |lens| && axis <= |lens| && InShape(origins, lens)
    && (forall i :: p < i < |lens| ==> origins[i] == 0)
    && (if !done then Flat(origins, lens) == target
        else
          && (forall i :: 0 <= i < axis ==> origins[i] == start[i])
          && if axis > p then origins == start
             else
               && target == Flat(origins, lens) + Size(lens[axis..])
               && forall i :: axis <= i < |lens| ==> origins[i] == 0)
  }

  /** The indices one rectangle takes on an axis. */
  function Due(chunks: seq<int>, lens: seq<int>, origins: seq<int>, i: nat): int
    requires |chunks| == |lens| == |origins| && i < |lens|
  {
    Min(chunks[i], lens[i] - origins[i])
  }

  /** What one rectangle covers on the partial axis, from the carried position. */
  predicate Covers(lens: seq<nat>, start: Coord, target: nat, p: nat, chunks: seq<nat>)
    requires |lens| == |start| == |chunks|
  {
    p < |lens| ==> target == Flat(start, lens) + Due(chunks, lens, start, p) * Size(lens[p + 1..])
  }

  /** Before an axis is reset, the walk owes its remaining indices. */
  lemma CarryDue(lens: seq<nat>, start: Coord, target: nat, p: nat, axis: nat, origins: Coord, chunks: seq<nat>)
    requires Chunked(chunks, lens, p) && axis <= p && axis < |lens| && InShape(start, lens)
    requires Carried(lens, start, target, p, axis + 1, origins, true) && Covers(lens, start, target, p, chunks)
    ensures target == Flat(origins, lens) + Due(chunks, lens, origins, axis) * Size(lens[axis + 1..])
    ensures forall i :: axis < i < |lens| ==> origins[i] == 0
  {
    if axis < p {
      assert Due(chunks, lens, origins, axis) == 1;
    }
  }

  lemma CarryReset(lens: seq<nat>, origins: Coord, axis: nat, target: nat)
    requires InShape(origins, lens) && axis < |lens|
    requires target == Flat(origins, lens) + (lens[axis] - origins[axis]) * Size(lens[axis + 1..])
    ensures target == Flat(origins[axis := 0], lens) + Size(lens[axis..])
  {
    var o: int, s: int := origins[axis], Size(lens[axis + 1..]);
    FlatUpdate(origins, lens, axis, 0, -o);
    StridesAt(lens, axis);
    assert lens[axis..][1..] == lens[axis + 1..];
    MulAdd(o, lens[axis] - o, s, lens[axis]);
    MulAdd(o, -o, s, 0);
  }

  lemma CarryFull(lens: seq<nat>, start: Coord, target: nat, p: nat, axis: nat, origins: Coord, chunks: seq<nat>)
    requires Chunked(chunks, lens, p) && axis < |lens| && InShape(start, lens)
    requires Carried(lens, start, target, p, axis + 1, origins, true) && Covers(lens, start, target, p, chunks)
    requires chunks[axis] >= lens[axis] - origins[axis]
    ensures Carried(lens, start, target, p, axis, origins[axis := 0], true)
  {
    hide Chunked, Flat, Size, Covers;
    if axis > p {
      assert origins[axis := 0] == origins;
    } else {
      CarryDue(lens, start, target, p, axis, origins, chunks);
      CarryReset(lens, origins, axis, target);
    }
  }

  lemma CarryStop(lens: seq<nat>, start: Coord, target: nat, p: nat, axis: nat, origins: Coord, chunks: seq<nat>)
    requires Chunked(chunks, lens, p) && axis < |lens| && InShape(start, lens)
    requires Carried(lens, start, target, p, axis + 1, origins, true) && Covers(lens, start, target, p, chunks)
    requires chunks[axis] < lens[axis] - origins[axis]
    ensures Carried(lens, start, target, p, axis, origins[axis := origins[axis] + chunks[axis]], false)
  {
    hide Flat, Size, Covers;
    assert axis <= p;
    CarryDue(lens, start, target, p, axis, origins, chunks);
    FlatUpdate(origins, lens, axis, origins[axis] + chunks[axis], chunks[axis]);
    StridesAt(lens, axis);
  }

  function PartLens(chunks: seq<nat>, lens: seq<nat>, origins: Coord): (r: seq<nat>)
    requires |chunks| == |lens| && InShape(origins, lens)
    ensures |r| == |lens|
    ensures forall i :: 0 <= i < |r| ==> r[i] == Due(chunks, lens, origins, i)
  {
    seq(|lens|, i requires 0 <= i < |lens| => Due(chunks, lens, origins, i))
  }

  /** The slice walk: rank-sized state, one rectangle at a time. */
  class SliceRequests {
    const slice: Slice
    const chunks: seq<nat>
    ghost const split: nat
    var origins: Coord
    var done: bool

    ghost predicate Valid()
      reads this
    {
      && slice.Valid()
      && |origins| == |chunks| == |slice.axes|
      && (!done ==>
            && Chunked(chunks, Lens(slice.axes), split)
            && Size(chunks) <= MAX_BATCH_ELEMENTS
            && InShape(origins, Lens(slice.axes))
            && forall i :: split < i < |origins| ==> origins[i] == 0)
    }

    /** How many coordinates have been delivered. */
    ghost function Position(): (n: nat)
      requires Valid()
      reads this
      ensures n <= slice.len
      ensures done <==> n == slice.len
    {
      if done then slice.len
      else
        FlatBound(origins, Lens(slice.axes));
        Flat(origins, Lens(slice.axes))
    }

    constructor (slice: Slice)
      requires slice.Valid()
      ensures Valid() && this.slice == slice && Position() == 0
    {
      var lens := Lens(slice.axes);
      var sizes: seq<nat> := seq(|lens|, _ => 1);
      ghost var p := 0;
      if slice.len > 0 {
        EmptySize(lens);
        sizes, p := ChunkSizes(lens);
      }
      this.slice := slice;
      chunks, split := sizes, p;
      origins := Zeros(|lens|);
      done := slice.len == 0;
      new;
      FlatIsDot(Zeros(|lens|), lens);
      DotZero(Zeros(|lens|), Strides(lens));
    }

    /** The next rectangle: nonempty, bounded, and exactly the next stretch of the slice. */
    method NextRectangle() returns (r: Option<Cartesian>)
      requires Valid()
      modifies this
      ensures Valid()
      ensures r.None? <==> old(done)
      ensures r.None? ==> Position() == old(Position())
      ensures r.Some? ==> 0 < r.value.Len() <= MAX_BATCH_ELEMENTS && AxesValid(r.value.axes, slice.shape)
      ensures r.Some? ==> KeepsSteps(r.value.axes, slice.axes)
      ensures r.Some? ==> Position() == old(Position()) + r.value.Len()
      ensures r.Some? ==> r.value.Coords() == slice.Coords()[old(Position())..Position()]
    {
      hide Size, Flat, Cartesian.Coordinate, Axis.Len, Axis.Valid, Chunked, KeepsSteps;
      if done {
        return None;
      }
      ghost var lens, start := Lens(slice.axes), origins;
      ghost var at := Position();
      var parts := PartLens(chunks, Lens(slice.axes), origins);
      PartsBounded(slice, origins, chunks, parts, split);
      var rectangle := Cartesian(Parts(slice.axes, origins, parts));
      PartsCoords(slice.axes, origins, parts, split, at);
      PartsKeep(slice.axes, origins, parts);
      TargetOf(parts, chunks, lens, split, origins);
      Advance(at + Size(parts));
      return Some(rectangle);
    }

    /** Advance the origins, fastest axis first, until one chunk still fits. */
    method Advance(ghost target: nat)
      requires Valid() && !done
      requires Chunked(chunks, Lens(slice.axes), split) && Covers(Lens(slice.axes), origins, target, split, chunks)
      requires slice.axes == [] ==> target == 1
      modifies this
      ensures Valid() && Position() == target
    {
      hide Size, Flat, Covers, Chunked, Carried;
      ghost var lens, start := Lens(slice.axes), origins;
      AdvanceStart(lens, start, target, split, chunks);
      done := true;
      var axis: nat := |origins|;
      while axis > 0 && done
        invariant axis <= |lens| && Carried(lens, start, target, split, axis, origins, done)
      {
        axis := axis - 1;
        CarriedShape(lens, start, target, split, axis + 1, origins, done);
        var remaining := slice.axes[axis].Len() - origins[axis];
        if chunks[axis] < remaining {
          CarryStop(lens, start, target, split, axis, origins, chunks);
          origins := origins[axis := origins[axis] + chunks[axis]];
          done := false;
        } else {
          CarryFull(lens, start, target, split, axis, origins, chunks);
          origins := origins[axis := 0];
        }
      }
      CarriedShape(lens, start, target, split, axis, origins, done);
      if done {
        AdvanceDone(lens, start, target, split, origins);
      }
    }

    /** The same walk as one-rectangle requests. */
    method Next() returns (r: Option<BatchRequest>)
      requires Valid()
      modifies this
      ensures Valid()
      ensures r.None? <==> old(done)
      ensures r.None? ==> Position() == old(Position())
      ensures r.Some? ==> 0 < r.value.len && r.value.Valid(slice.shape) && RequestKeeps(r.value, slice.axes)
      ensures r.Some? ==> Position() == old(Position()) + r.value.len
      ensures r.Some? ==> r.value.Coords(slice.shape) == slice.Coords()[old(Position())..Position()]
    {
      hide Size, Cartesian.Coordinate, Axis.At, KeepsSteps;
      var rectangle := NextRectangle();
      if rectangle.None? {
        return None;
      }
      OneRectangle(rectangle.value, slice.shape);
      return Some(BatchRequest(Rectangles([rectangle.value]), rectangle.value.Len()));
    }
  }

  lemma OneRectangle(rect: Cartesian, shape: seq<nat>)
    requires AxesValid(rect.axes, shape) && 0 < rect.Len() <= MAX_BATCH_ELEMENTS
    ensures var request := BatchRequest(Rectangles([rect]), rect.Len());
            request.Valid(shape) && request.Coords(shape) == rect.Coords()
  {
    RectCoordsSnoc([], rect);
    assert [] + [rect] == [rect] && [] + rect.Coords() == rect.Coords();
    EmptySize(Lens(rect.axes));
    CoordinateInside(rect, 0, shape);
  }

  lemma PartsBounded(slice: Slice, origins: Coord, chunks: seq<nat>, parts: seq<nat>, p: nat)
    requires slice.Valid() && |origins| == |parts| == |slice.axes|
    requires Chunked(chunks, Lens(slice.axes), p) && Size(chunks) <= MAX_BATCH_ELEMENTS
    requires InShape(origins, Lens(slice.axes)) && forall i :: p < i < |origins| ==> origins[i] == 0
    requires parts == PartLens(chunks, Lens(slice.axes), origins)
    ensures 0 < Size(parts) <= MAX_BATCH_ELEMENTS && Narrow(parts, Lens(slice.axes), p)
    ensures forall i :: 0 <= i < |parts| ==> origins[i] + parts[i] <= slice.axes[i].Len()
    ensures AxesValid(Parts(slice.axes, origins, parts), slice.shape)
  {
    hide Axis.Valid, Axis.Len, Part;
    SizeMonotone(parts, chunks);
    SizePositive(parts);
    forall i | 0 <= i < |parts| ensures Part(slice.axes[i], origins[i], parts[i]).Valid(slice.shape[i]) {
      PartValid(slice.axes[i], origins[i], parts[i], slice.shape[i]);
    }
  }

  lemma TargetOf(parts: seq<nat>, chunks: seq<nat>, lens: seq<nat>, p: nat, origins: Coord)
    requires Chunked(chunks, lens, p) && |parts| == |lens| && InShape(origins, lens)
    requires Narrow(parts, lens, p) && parts == PartLens(chunks, lens, origins)
    ensures Covers(lens, origins, Flat(origins, lens) + Size(parts), p, chunks)
    ensures lens == [] ==> Size(parts) == 1 && Flat(origins, lens) == 0
  {
    if lens != [] {
      NarrowSize(parts, lens, p);
    }
  }

  lemma CarriedShape(lens: seq<nat>, start: Coord, target: nat, p: nat, axis: nat, origins: Coord, done: bool)
    requires Carried(lens, start, target, p, axis, origins, done)
    ensures |origins| == |lens| && InShape(origins, lens) && axis <= |lens|
    ensures forall i :: p < i < |lens| ==> origins[i] == 0
    ensures !done ==> Flat(origins, lens) == target
  {}

  lemma AdvanceStart(lens: seq<nat>, start: Coord, target: nat, p: nat, chunks: seq<nat>)
    requires InShape(start, lens) && Chunked(chunks, lens, p) && (lens == [] ==> target == 1)
    requires forall i :: p < i < |lens| ==> start[i] == 0
    ensures Carried(lens, start, target, p, |lens|, start, true)
  {
    assert lens[|lens|..] == [];
  }

  lemma AdvanceDone(lens: seq<nat>, start: Coord, target: nat, p: nat, origins: Coord)
    requires Carried(lens, start, target, p, 0, origins, true)
    ensures target == Size(lens)
  {
    assert lens[0..] == lens;
    FlatIsDot(origins, lens);
    DotZero(origins, Strides(lens));
  }

  // ---------------------------------------------------------------------
  // The whole walk
  // ---------------------------------------------------------------------

  function AllCoords(requests: seq<BatchRequest>, shape: seq<nat>): seq<Coord>
    requires forall i :: 0 <= i < |requests| ==> requests[i].Valid(shape)
  {
    if requests == [] then []
    else AllCoords(requests[..|requests| - 1], shape) + requests[|requests| - 1].Coords(shape)
  }

  /** Batches are nonempty and bounded, and together enumerate the slice in row-major order. */
  method Requests(slice: Slice) returns (requests: seq<BatchRequest>)
    requires slice.Valid()
    ensures forall i :: 0 <= i < |requests| ==>
              requests[i].Valid(slice.shape) && 0 < requests[i].len <= MAX_BATCH_ELEMENTS
    ensures AllCoords(requests, slice.shape) == slice.Coords()
    ensures AllCoords(requests, slice.shape) == Product(AllValues(slice.axes))
    ensures AllKeep(requests, slice.axes)
  {
    hide BatchRequest.Coords, Size, Cartesian.Coordinate, RequestKeeps;
    requests := [];
    CoordsAreProduct(slice.axes);
    var walk := new SliceRequests(slice);
    var next := walk.Next();
    ghost var at := 0;
    while next.Some?
      invariant walk.Valid() && walk.slice == slice
      invariant next.None? ==> at == slice.len
      invariant next.Some? ==>
                  && 0 < next.value.len && next.value.Valid(slice.shape) && RequestKeeps(next.value, slice.axes)
                  && walk.Position() == at + next.value.len
                  && next.value.Coords(slice.shape) == slice.Coords()[at..walk.Position()]
      invariant at <= slice.len && AllKeep(requests, slice.axes)
      invariant forall i :: 0 <= i < |requests| ==> requests[i].Valid(slice.shape) && 0 < requests[i].len <= MAX_BATCH_ELEMENTS
      invariant AllCoords(requests, slice.shape) == slice.Coords()[..at]
      decreases slice.len - at
    {
      ghost var mid := walk.Position();
      ghost var before := requests;
      requests := requests + [next.value];
      assert requests[..|requests| - 1] == before;
      assert slice.Coords()[..mid] == slice.Coords()[..at] + slice.Coords()[at..mid];
      at := mid;
      next := walk.Next();
    }
  }
}
