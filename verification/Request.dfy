/** Compact, bounded requests: what coordinates they denote, the cursor that walks
    them, and the arithmetic progressions they are planned as. */
module Request {
  import opened Radix
  import opened Wrappers

  /** Maximum element count per execution batch. */
  const MAX_BATCH_ELEMENTS: nat := 4096

  const I128_BOUND: int := 0x8000_0000_0000_0000_0000_0000_0000_0000

  /** The value is representable in the source's checked `i128` arithmetic. */
  predicate InI128(n: int) {
    -I128_BOUND <= n < I128_BOUND
  }

  // ---------------------------------------------------------------------
  // Axes and rectangles
  // ---------------------------------------------------------------------

  /** One axis of a selection: an interval with a step, or explicit indices. */
  datatype Axis =
    | Span(start: nat, step: nat, len: nat)
    | Selected(values: seq<nat>)
  {
    function Len(): nat {
      match this
      case Span(_, _, len) => len
      case Selected(values) => |values|
    }

    function At(i: nat): nat
      requires i < Len()
    {
      match this
      case Span(start, step, _) => start + step * i
      case Selected(values) => values[i]
    }

    /** What the source's `Axis::validate` accepts for a dimension. */
    predicate Valid(dim: nat) {
      match this
      case Span(start, step, len) =>
        0 < step <= U64_MAX && start <= dim && (len > 0 ==> start + step * (len - 1) < dim)
      case Selected(values) =>
        forall i :: 0 <= i < |values| ==> values[i] < dim
    }
  }

  lemma AxisInside(a: Axis, dim: nat, i: nat)
    requires a.Valid(dim) && i < a.Len()
    ensures a.At(i) < dim
  {
    if a.Span? {
      MulMonotone(i, a.len - 1, a.step);
    }
  }

  function Lens(axes: seq<Axis>): (l: seq<nat>)
    ensures |l| == |axes|
    ensures forall i :: 0 <= i < |l| ==> l[i] == axes[i].Len()
  {
    seq(|axes|, i requires 0 <= i < |axes| => axes[i].Len())
  }

  /** The coordinate selected by one index per axis. */
  function Pick(axes: seq<Axis>, d: Coord): (c: Coord)
    requires InShape(d, Lens(axes))
    ensures |c| == |axes|
    ensures forall i :: 0 <= i < |c| ==> c[i] == axes[i].At(d[i])
  {
    seq(|axes|, i requires 0 <= i < |axes| => axes[i].At(d[i]))
  }

  predicate AxesValid(axes: seq<Axis>, shape: seq<nat>) {
    |axes| == |shape| && forall i :: 0 <= i < |axes| ==> axes[i].Valid(shape[i])
  }

  /** Every interval advances as the same interval of a selection. */
  predicate KeepsSteps(axes: seq<Axis>, of: seq<Axis>) {
    |axes| == |of| && forall k :: 0 <= k < |axes| && axes[k].Span? ==> of[k].Span? && axes[k].step == of[k].step
  }

  lemma PickInside(axes: seq<Axis>, d: Coord, shape: seq<nat>)
    requires AxesValid(axes, shape) && InShape(d, Lens(axes))
    ensures InShape(Pick(axes, d), shape)
  {
    forall i | 0 <= i < |axes| ensures Pick(axes, d)[i] < shape[i] {
      AxisInside(axes[i], shape[i], d[i]);
    }
  }

  lemma {:induction false} EmptySize(shape: seq<nat>)
    requires Size(shape) > 0
    ensures Positive(shape)
  {
    if shape != [] {
      MulMonotone(0, Size(shape[1..]), shape[0]);
      EmptySize(shape[1..]);
      assert forall i :: 0 < i < |shape| ==> shape[i] == shape[1..][i - 1];
    }
  }

  datatype Cartesian = Cartesian(axes: seq<Axis>) {
    function Len(): nat {
      Size(Lens(axes))
    }

    /** The `index`-th coordinate in row-major order of the selection. */
    function Coordinate(index: nat): (c: Coord)
      requires index < Len()
      ensures |c| == |axes|
    {
      EmptySize(Lens(axes));
      DecodeInShape(index, Lens(axes));
      Pick(axes, Decode(index, Lens(axes)))
    }

    function Coords(): (s: seq<Coord>)
      ensures |s| == Len()
      ensures forall i :: 0 <= i < |s| ==> s[i] == Coordinate(i)
    {
      seq(Len(), i requires 0 <= i < Len() => Coordinate(i))
    }

    /** Bounds checked when a rectangle is built. */
    predicate Bounded() {
      && Len() <= MAX_BATCH_ELEMENTS
      && forall i :: 0 <= i < |axes| && axes[i].Selected? ==> axes[i].Len() <= MAX_BATCH_ELEMENTS
    }
  }

  function NewCartesian(axes: seq<Axis>): (r: Result<Cartesian>)
    ensures r.Ok? ==> r.value.axes == axes && r.value.Bounded()
    ensures r.Ok? <==> Cartesian(axes).Bounded()
  {
    if Cartesian(axes).Bounded() then Ok(Cartesian(axes)) else Err(InvalidLayout)
  }

  lemma CoordinateInside(r: Cartesian, index: nat, shape: seq<nat>)
    requires AxesValid(r.axes, shape) && index < r.Len()
    ensures InShape(r.Coordinate(index), shape)
  {
    EmptySize(Lens(r.axes));
    DecodeInShape(index, Lens(r.axes));
    PickInside(r.axes, Decode(index, Lens(r.axes)), shape);
  }

  lemma CoordinateOf(axes: seq<Axis>, d: Coord)
    requires InShape(d, Lens(axes))
    ensures Flat(d, Lens(axes)) < Cartesian(axes).Len()
    ensures Cartesian(axes).Coordinate(Flat(d, Lens(axes))) == Pick(axes, d)
  {
    FlatBound(d, Lens(axes));
    EmptySize(Lens(axes));
    DecodeOfFlat(d, Lens(axes));
  }

  // ---------------------------------------------------------------------
  // Requests
  // ---------------------------------------------------------------------

  /** Ordered flat addresses; signed steps keep reversals and zero steps broadcasts. */
  datatype Progression = Progression(output: nat, start: int, step: int, len: nat) {
    function At(i: nat): int {
      start + step * i
    }

    function Flats(): (s: seq<int>)
      ensures |s| == len
      ensures forall i :: 0 <= i < len ==> s[i] == At(i)
    {
      seq(len, i requires 0 <= i < len => At(i))
    }

    predicate Within(size: nat) {
      len > 0 && 0 <= start < size && 0 <= At(len - 1) < size
    }
  }

  /** A progression whose end points are in range stays in range. */
  lemma WithinAll(p: Progression, size: nat, i: nat)
    requires p.Within(size) && i < p.len
    ensures 0 <= p.At(i) < size
  {
    if p.step >= 0 {
      MulMonotone(0, i, p.step);
      MulMonotone(i, p.len - 1, p.step);
    } else {
      MulMonotone(0, i, -p.step);
      MulMonotone(i, p.len - 1, -p.step);
      assert -p.step * i == -(p.step * i);
      assert -p.step * (p.len - 1) == -(p.step * (p.len - 1));
    }
  }

  /** All flat addresses of a run list, in order. */
  function Flats(runs: seq<Progression>): seq<int> {
    if runs == [] then [] else Flats(runs[..|runs| - 1]) + runs[|runs| - 1].Flats()
  }

  /** Runs are nonempty and their outputs are consecutive from zero. */
  predicate Chained(runs: seq<Progression>) {
    forall i :: 0 <= i < |runs| ==> runs[i].len > 0 && runs[i].output == |Flats(runs[..i])|
  }

  lemma FlatsSnoc(runs: seq<Progression>, next: Progression)
    ensures Flats(runs + [next]) == Flats(runs) + next.Flats()
  {
    assert (runs + [next])[..|runs|] == runs;
  }

  lemma ChainedEmpty()
    ensures Chained([]) && Flats([]) == []
  {}

  lemma ChainedLast(runs: seq<Progression>)
    requires runs != [] && Chained(runs)
    ensures var front, last := runs[..|runs| - 1], runs[|runs| - 1];
            last.len > 0 && last.output == |Flats(front)| && Chained(front) && Flats(runs) == Flats(front) + last.Flats()
  {
    var front := runs[..|runs| - 1];
    forall i | 0 <= i < |front| ensures front[i].len > 0 && front[i].output == |Flats(front[..i])| {
      assert front[..i] == runs[..i];
    }
  }

  lemma ChainedSnoc(runs: seq<Progression>, next: Progression)
    requires Chained(runs) && next.len > 0 && next.output == |Flats(runs)|
    ensures Chained(runs + [next])
  {
    var all := runs + [next];
    forall i | 0 <= i < |all| ensures all[i].len > 0 && all[i].output == |Flats(all[..i])| {
      assert all[..i] == runs[..i];
      assert runs[..|runs|] == runs;
    }
  }

  lemma {:induction false} FlatsLengthMonotone(runs: seq<Progression>, i: nat)
    requires i <= |runs|
    ensures |Flats(runs[..i])| <= |Flats(runs)|
    decreases |runs|
  {
    if i < |runs| {
      FlatsLengthMonotone(runs[..|runs| - 1], i);
      assert runs[..|runs| - 1][..i] == runs[..i];
    } else {
      assert runs[..i] == runs;
    }
  }

  /** Position `|Flats(runs[..i])| + k` of the expansion belongs to run `i`. */
  lemma {:induction false} FlatsAt(runs: seq<Progression>, i: nat, k: nat)
    requires i < |runs| && k < runs[i].len
    ensures |Flats(runs[..i])| + k < |Flats(runs)|
    ensures Flats(runs)[|Flats(runs[..i])| + k] == runs[i].At(k)
    decreases |runs|
  {
    var front := runs[..|runs| - 1];
    if i < |runs| - 1 {
      FlatsAt(front, i, k);
      assert front[..i] == runs[..i];
    }
  }

  predicate InBase(flats: seq<int>, size: nat) {
    forall i :: 0 <= i < |flats| ==> 0 <= flats[i] < size
  }

  lemma WithinBase(run: Progression, size: nat)
    requires run.Within(size)
    ensures InBase(run.Flats(), size)
  {
    forall i | 0 <= i < run.len ensures 0 <= run.Flats()[i] < size {
      WithinAll(run, size, i);
    }
  }

  lemma {:induction false} FlatsInBase(runs: seq<Progression>, size: nat)
    requires forall i :: 0 <= i < |runs| ==> runs[i].Within(size)
    ensures InBase(Flats(runs), size)
  {
    if runs != [] {
      FlatsInBase(runs[..|runs| - 1], size);
      WithinBase(runs[|runs| - 1], size);
    }
  }

  function RectCoords(rects: seq<Cartesian>): seq<Coord> {
    if rects == [] then []
    else RectCoords(rects[..|rects| - 1]) + rects[|rects| - 1].Coords()
  }

  lemma RectCoordsSnoc(rects: seq<Cartesian>, next: Cartesian)
    ensures RectCoords(rects + [next]) == RectCoords(rects) + next.Coords()
  {
    assert (rects + [next])[..|rects|] == rects;
  }

  lemma {:induction false} RectCoordsAt(rects: seq<Cartesian>, i: nat, k: nat)
    requires i < |rects| && k < rects[i].Len()
    ensures |RectCoords(rects[..i])| + k < |RectCoords(rects)|
    ensures RectCoords(rects)[|RectCoords(rects[..i])| + k] == rects[i].Coordinate(k)
    decreases |rects|
  {
    var front := rects[..|rects| - 1];
    if i < |rects| - 1 {
      RectCoordsAt(front, i, k);
      assert front[..i] == rects[..i];
    }
  }

  datatype Kind =
    | Linear(start: nat)
    | Rectangles(rects: seq<Cartesian>)
    | Explicit(coords: seq<Coord>)
    | FlatRuns(runs: seq<Progression>)

  datatype BatchRequest = BatchRequest(kind: Kind, len: nat) {
    /** What `BatchRequest::validate` accepts for a shape of nonzero dimensions. */
    predicate Valid(shape: seq<nat>) {
      && Positive(shape)
      && len <= MAX_BATCH_ELEMENTS
      && match kind
         case Linear(start) => start + len <= Size(shape) <= U64_MAX
         case Rectangles(rects) =>
           && len == |RectCoords(rects)|
           && forall i :: 0 <= i < |rects| ==> AxesValid(rects[i].axes, shape)
         case Explicit(coords) =>
           && len == |coords|
           && forall i :: 0 <= i < |coords| ==> InShape(coords[i], shape)
         case FlatRuns(runs) =>
           && Size(shape) <= U64_MAX
           && len == |Flats(runs)|
           && Chained(runs)
           && forall i :: 0 <= i < |runs| ==> runs[i].Within(Size(shape))
    }

    /** The requested coordinates, in request order, with duplicates. */
    function Coords(shape: seq<nat>): (s: seq<Coord>)
      requires Valid(shape)
      ensures |s| == len
    {
      match kind
      case Linear(start) => seq(len, i requires 0 <= i < len => Decode(start + i, shape))
      case Rectangles(rects) => RectCoords(rects)
      case Explicit(coords) => coords
      case FlatRuns(runs) =>
        seq(len, i requires 0 <= i < len => Decode(Max(0, Flats(runs)[i]), shape))
    }
  }

  lemma {:induction false} RectCoordsInside(rects: seq<Cartesian>, shape: seq<nat>)
    requires forall i :: 0 <= i < |rects| ==> AxesValid(rects[i].axes, shape)
    ensures forall i :: 0 <= i < |RectCoords(rects)| ==> InShape(RectCoords(rects)[i], shape)
  {
    if rects != [] {
      var r := rects[|rects| - 1];
      RectCoordsInside(rects[..|rects| - 1], shape);
      forall i | 0 <= i < r.Len() ensures InShape(r.Coords()[i], shape) {
        CoordinateInside(r, i, shape);
      }
    }
  }

  /** Every rectangle of a request keeps the steps of a selection. */
  predicate RequestKeeps(request: BatchRequest, of: seq<Axis>) {
    request.kind.Rectangles? ==> forall i :: 0 <= i < |request.kind.rects| ==> KeepsSteps(request.kind.rects[i].axes, of)
  }

  predicate AllKeep(requests: seq<BatchRequest>, of: seq<Axis>) {
    forall i :: 0 <= i < |requests| ==> RequestKeeps(requests[i], of)
  }

  /** A valid request only denotes coordinates inside the shape. */
  lemma CoordsInside(request: BatchRequest, shape: seq<nat>, i: nat)
    requires request.Valid(shape) && i < request.len
    ensures InShape(request.Coords(shape)[i], shape)
  {
    match request.kind
    case Linear(start) => DecodeInShape(start + i, shape);
    case Rectangles(rects) => RectCoordsInside(rects, shape);
    case Explicit(_) =>
    case FlatRuns(runs) => DecodeInShape(Max(0, Flats(runs)[i]), shape);
  }

  lemma QuotientZero(a: nat, b: nat)
    requires b > 0
    ensures a / b == 0 <==> a < b
  {
    if a < b {
      DivUnique(0, a, b);
    } else {
      DivMonotone(b, a, b);
      DivUnique(1, 0, b);
    }
  }

  // ---------------------------------------------------------------------
  // Decoding and walking
  // ---------------------------------------------------------------------

  /** `decode_flat`: digits from the fastest axis, rejecting positions past the end. */
  method DecodeFlat(position: nat, shape: seq<nat>) returns (r: Result<Coord>)
    ensures r.Ok? <==> Positive(shape) && position < Size(shape)
    ensures r.Ok? ==> r.value == Decode(position, shape)
    ensures r.Err? && Positive(shape) ==> r.error == InvalidCoord
  {
    var out := Zeros(|shape|);
    var flat := position;
    var i := |shape|;
    while i > 0
      invariant 0 <= i <= |shape| == |out|
      invariant forall j :: i <= j < |shape| ==> shape[j] > 0
      invariant Positive(shape) ==> Size(shape[i..]) > 0 && flat == position / Size(shape[i..])
      invariant Positive(shape) ==> forall j :: i <= j < |shape| ==> out[j] == Decode(position, shape)[j]
    {
      i := i - 1;
      if shape[i] == 0 {
        return Err(InvalidSchema);
      }
      if Positive(shape) {
        PeelDigit(position, shape, i);
      }
      out := out[i := flat % shape[i]];
      flat := flat / shape[i];
    }
    assert shape[0..] == shape;
    QuotientZero(position, Size(shape));
    if flat != 0 {
      return Err(InvalidCoord);
    }
    assert out == Decode(position, shape);
    return Ok(out);
  }

  lemma PickDigit(rect: Cartesian, index: nat, i: nat, rest: nat)
    requires index < rect.Len() && i < |rect.axes|
    requires Size(Lens(rect.axes)[i + 1..]) > 0 && rest == index / Size(Lens(rect.axes)[i + 1..])
    ensures Size(Lens(rect.axes)[i..]) > 0 && rect.axes[i].Len() > 0
    ensures rest % rect.axes[i].Len() < rect.axes[i].Len()
    ensures rect.axes[i].At(rest % rect.axes[i].Len()) == rect.Coordinate(index)[i]
    ensures rest / rect.axes[i].Len() == index / Size(Lens(rect.axes)[i..])
  {
    EmptySize(Lens(rect.axes));
    PeelDigit(index, Lens(rect.axes), i);
  }

  /** `Cartesian::coordinate`: peel the index from the fastest axis. */
  method CoordinateInto(rect: Cartesian, index: nat) returns (out: Coord)
    requires index < rect.Len()
    ensures out == rect.Coordinate(index)
  {
    ghost var lens, target := Lens(rect.axes), rect.Coordinate(index);
    out := Zeros(|rect.axes|);
    var rest := index;
    var i := |rect.axes|;
    while i > 0
      invariant 0 <= i <= |lens| == |out|
      invariant Size(lens[i..]) > 0 && rest == index / Size(lens[i..])
      invariant forall j :: i <= j < |lens| ==> out[j] == target[j]
    {
      i := i - 1;
      PickDigit(rect, index, i, rest);
      out := out[i := rect.axes[i].At(rest % rect.axes[i].Len())];
      rest := rest / rect.axes[i].Len();
    }
  }

  lemma RunCoordAt(request: BatchRequest, shape: seq<nat>, r: nat, l: nat)
    requires request.Valid(shape) && request.kind.FlatRuns?
    requires r < |request.kind.runs| && l < request.kind.runs[r].len
    ensures |Flats(request.kind.runs[..r])| + l < request.len
    ensures 0 <= request.kind.runs[r].At(l) < Size(shape)
    ensures request.Coords(shape)[|Flats(request.kind.runs[..r])| + l]
         == Decode(request.kind.runs[r].At(l), shape)
  {
    FlatsAt(request.kind.runs, r, l);
    WithinAll(request.kind.runs[r], Size(shape), l);
  }

  method RunCoordinate(request: BatchRequest, shape: seq<nat>, r: nat, l: nat) returns (out: Coord)
    requires request.Valid(shape) && request.kind.FlatRuns?
    requires r < |request.kind.runs| && l < request.kind.runs[r].len
    ensures |Flats(request.kind.runs[..r])| + l < request.len
    ensures out == request.Coords(shape)[|Flats(request.kind.runs[..r])| + l]
  {
    RunCoordAt(request, shape, r, l);
    var decoded := DecodeFlat(request.kind.runs[r].At(l), shape);
    return decoded.value;
  }

  /** Step over exhausted rectangles, empty ones included. */
  method SkipRectangles(rects: seq<Cartesian>, rectangle: nat, local: nat) returns (r: nat, l: nat)
    requires rectangle < |rects| && local <= rects[rectangle].Len()
    requires |RectCoords(rects[..rectangle])| + local < |RectCoords(rects)|
    ensures r < |rects| && l < rects[r].Len()
    ensures |RectCoords(rects[..r])| + l == |RectCoords(rects[..rectangle])| + local
  {
    hide Size, Cartesian.Coordinate;
    r, l := rectangle, local;
    while l == rects[r].Len()
      invariant r < |rects| && l <= rects[r].Len()
      invariant |RectCoords(rects[..r])| + l == |RectCoords(rects[..rectangle])| + local
      decreases |rects| - r
    {
      assert rects[..r + 1] == rects[..r] + [rects[r]];
      RectCoordsSnoc(rects[..r], rects[r]);
      assert rects[..|rects|] == rects;
      r, l := r + 1, 0;
    }
  }

  method SkipRuns(runs: seq<Progression>, rectangle: nat, local: nat) returns (r: nat, l: nat)
    requires rectangle < |runs| && local <= runs[rectangle].len
    requires |Flats(runs[..rectangle])| + local < |Flats(runs)|
    ensures r < |runs| && l < runs[r].len
    ensures |Flats(runs[..r])| + l == |Flats(runs[..rectangle])| + local
  {
    hide Progression.At;
    r, l := rectangle, local;
    while l == runs[r].len
      invariant r < |runs| && l <= runs[r].len
      invariant |Flats(runs[..r])| + l == |Flats(runs[..rectangle])| + local
      decreases |runs| - r
    {
      assert runs[..r + 1] == runs[..r] + [runs[r]];
      FlatsSnoc(runs[..r], runs[r]);
      assert runs[..|runs|] == runs;
      r, l := r + 1, 0;
    }
  }

  /** The compact walk position agrees with the number of coordinates delivered. */
  ghost predicate Tracks(kind: Kind, len: nat, position: nat, rectangle: nat, local: nat) {
    && position <= len
    && match kind
       case Linear(_) => true
       case Explicit(_) => true
       case Rectangles(rects) =>
         if rects == [] then rectangle == local == 0
         else
           && rectangle < |rects|
           && local <= rects[rectangle].Len()
           && position == |RectCoords(rects[..rectangle])| + local
       case FlatRuns(runs) =>
         if runs == [] then rectangle == local == 0
         else
           && rectangle < |runs|
           && local <= runs[rectangle].len
           && position == |Flats(runs[..rectangle])| + local
  }

  /** The request cursor: one reusable walk position, no expanded coordinates. */
  class Cursor {
    const request: BatchRequest
    const shape: seq<nat>
    var position: nat
    var rectangle: nat
    var local: nat

    ghost predicate Valid()
      reads this
    {
      request.Valid(shape) && Tracks(request.kind, request.len, position, rectangle, local)
    }

    constructor (request: BatchRequest, shape: seq<nat>)
      requires request.Valid(shape)
      ensures Valid() && position == 0
      ensures this.request == request && this.shape == shape
    {
      this.request := request;
      this.shape := shape;
      position := 0;
      rectangle := 0;
      local := 0;
    }

    /** Deliver the next requested coordinate, or report the end. */
    method NextInto() returns (more: bool, out: Coord)
      requires Valid()
      modifies this
      ensures Valid()
      ensures more <==> old(position) < request.len
      ensures more ==> position == old(position) + 1
      ensures more ==> out == request.Coords(shape)[old(position)]
      ensures !more ==> position == old(position)
    {
      out := [];
      if position == request.len {
        return false, out;
      }
      more := true;
      match request.kind {
        case Linear(start) =>
          var decoded := DecodeFlat(start + position, shape);
          out := decoded.value;
          position := position + 1;
        case Rectangles(_) =>
          out := NextInRectangles();
        case FlatRuns(_) =>
          out := NextInRuns();
        case Explicit(coords) =>
          out := coords[position];
          position := position + 1;
      }
    }

    method NextInRectangles() returns (out: Coord)
      requires Valid() && request.kind.Rectangles? && position < request.len
      modifies this
      ensures Valid() && position == old(position) + 1
      ensures out == request.Coords(shape)[old(position)]
    {
      hide Size, Decode, Cartesian.Coordinate;
      var r, l := SkipRectangles(request.kind.rects, rectangle, local);
      RectCoordsAt(request.kind.rects, r, l);
      assert request.Coords(shape) == RectCoords(request.kind.rects);
      out := CoordinateInto(request.kind.rects[r], l);
      rectangle, local, position := r, l + 1, position + 1;
    }

    method NextInRuns() returns (out: Coord)
      requires Valid() && request.kind.FlatRuns? && position < request.len
      modifies this
      ensures Valid() && position == old(position) + 1
      ensures out == request.Coords(shape)[old(position)]
    {
      hide Size, Decode, Progression.At;
      var r, l := SkipRuns(request.kind.runs, rectangle, local);
      out := RunCoordinate(request, shape, r, l);
      rectangle, local, position := r, l + 1, position + 1;
    }
  }
}
