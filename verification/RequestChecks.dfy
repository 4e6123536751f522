/** Checking a request against a shape: one form at a time, exactly the valid requests pass. */
module RequestChecks {
  import opened Radix
  import opened Wrappers
  import opened Request
  import opened Schema

  /** Steps are machine integers. */
  predicate MachineAxis(axis: Axis) {
    axis.Span? ==> axis.step <= U64_MAX
  }

  predicate MachineAxes(axes: seq<Axis>) {
    forall i :: 0 <= i < |axes| ==> MachineAxis(axes[i])
  }

  /** What the request constructors establish. */
  predicate Built(request: BatchRequest) {
    match request.kind
    case Linear(start) => request.len <= MAX_BATCH_ELEMENTS && start + request.len <= U64_MAX
    case Rectangles(rects) =>
      request.len == |RectCoords(rects)| <= MAX_BATCH_ELEMENTS && forall i :: 0 <= i < |rects| ==> MachineAxes(rects[i].axes)
    case Explicit(coords) => request.len == |coords| <= MAX_BATCH_ELEMENTS
    case FlatRuns(_) => true
  }

  /** The dimensions are machine integers. */
  predicate MachineShape(shape: seq<nat>) {
    forall i :: 0 <= i < |shape| ==> shape[i] <= U64_MAX
  }

  /** What is left to accept on a shape with an empty axis. */
  predicate EmptyOn(request: BatchRequest, shape: seq<nat>) {
    && request.len == 0
    && match request.kind
       case Linear(start) => ProductFits(shape) && start == 0
       case Rectangles(rects) => forall i :: 0 <= i < |rects| ==> AxesValid(rects[i].axes, shape)
       case Explicit(coords) => coords == []
       case FlatRuns(runs) => ProductFits(shape) && runs == []
  }

  lemma EmptyShape(shape: seq<nat>) returns (k: nat)
    requires !Positive(shape)
    ensures k < |shape| && shape[k] == 0 && Size(shape) == 0
  {
    k :| 0 <= k < |shape| && shape[k] == 0;
    ZeroSize(shape, k);
  }

  /** On a shape with an empty axis every valid rectangle is empty. */
  lemma {:induction false} RectanglesEmpty(rects: seq<Cartesian>, shape: seq<nat>)
    requires !Positive(shape) && forall i :: 0 <= i < |rects| ==> AxesValid(rects[i].axes, shape)
    ensures RectCoords(rects) == []
    decreases |rects|
  {
    if rects != [] {
      var rect := rects[|rects| - 1];
      RectanglesEmpty(rects[..|rects| - 1], shape);
      var k := EmptyShape(shape);
      assert rect.axes[k].Valid(shape[k]);
      EmptyAxis(rect.axes[k]);
      ZeroSize(Lens(rect.axes), k);
    }
  }

  lemma EmptyAxis(axis: Axis)
    ensures axis.Valid(0) ==> axis.Len() == 0
  {
    if axis.Selected? && axis.Len() > 0 {
      assert axis.values[0] >= 0;
    }
  }

  /** No nonempty run lies in an empty base. */
  lemma RunInNothing(run: Progression)
    requires run.len > 0
    ensures !run.Within(0)
  {
    assert !(0 <= run.At(0) < 0);
  }

  /** `Axis::validate`, with its checked arithmetic. */
  method CheckAxis(axis: Axis, dim: nat) returns (r: Outcome)
    requires dim <= U64_MAX && MachineAxis(axis)
    ensures r.Pass? <==> axis.Valid(dim)
  {
    match axis {
      case Span(start, step, len) =>
        if step == 0 || start > dim {
          return Fail(InvalidCoord);
        }
        if len > 0 {
          var reach := step * (len - 1);
          if reach > U64_MAX || start + reach > U64_MAX || start + reach >= dim {
            return Fail(InvalidCoord);
          }
        }
      case Selected(values) =>
        for i := 0 to |values|
          invariant forall k :: 0 <= k < i ==> values[k] < dim
        {
          if values[i] >= dim {
            return Fail(InvalidCoord);
          }
        }
    }
    return Pass;
  }

  method CheckRectangle(rect: Cartesian, shape: seq<nat>) returns (r: Outcome)
    requires MachineShape(shape) && MachineAxes(rect.axes)
    ensures r.Pass? <==> AxesValid(rect.axes, shape)
  {
    hide Axis.Valid, MachineAxis;
    if |rect.axes| != |shape| {
      return Fail(InvalidCoord);
    }
    for i := 0 to |shape|
      invariant forall k :: 0 <= k < i ==> rect.axes[k].Valid(shape[k])
    {
      var checked := CheckAxis(rect.axes[i], shape[i]);
      if checked.Fail? {
        return checked;
      }
    }
    return Pass;
  }

  method CheckCoord(coord: Coord, shape: seq<nat>) returns (r: Outcome)
    ensures r.Pass? <==> InShape(coord, shape)
  {
    if |coord| != |shape| {
      return Fail(InvalidCoord);
    }
    for i := 0 to |coord|
      invariant forall k :: 0 <= k < i ==> coord[k] < shape[k]
    {
      if coord[i] >= shape[i] {
        return Fail(InvalidCoord);
      }
    }
    return Pass;
  }

  /** The first `n` runs are consecutive, nonempty and inside the base. */
  predicate RunsUpTo(runs: seq<Progression>, n: nat, size: nat)
    requires n <= |runs|
  {
    forall i :: 0 <= i < n ==> runs[i].len > 0 && runs[i].output == |Flats(runs[..i])| && runs[i].Within(size)
  }

  /** One run: nonempty, next in line, and with both end points in the base. */
  method CheckRun(run: Progression, end: nat, size: nat) returns (r: Outcome)
    requires size <= U64_MAX
    ensures r.Pass? <==> run.len > 0 && run.output == end && run.Within(size)
  {
    if run.len == 0 || run.output != end {
      return Fail(InvalidLayout);
    }
    var reach := run.step * (run.len - 1);
    if !InI128(reach) || !InI128(run.start + reach) {
      return Fail(InvalidLayout);
    }
    if run.start < 0 || run.start >= size || run.start + reach < 0 || run.start + reach >= size {
      return Fail(InvalidCoord);
    }
    return Pass;
  }

  method CheckRuns(runs: seq<Progression>, len: nat, size: nat) returns (r: Outcome)
    requires size <= U64_MAX
    ensures r.Pass? <==> RunsUpTo(runs, |runs|, size) && |Flats(runs)| == len
  {
    hide Progression.Within, Progression.At, Flats;
    var end := 0;
    NoFlats(runs);
    for i := 0 to |runs|
      invariant end == |Flats(runs[..i])| <= len && RunsUpTo(runs, i, size)
    {
      var checked := CheckRun(runs[i], end, size);
      if checked.Fail? {
        return checked;
      }
      FlatsNext(runs, i);
      end := end + runs[i].len;
      if end > len {
        FlatsLengthMonotone(runs, i + 1);
        return Fail(InvalidLayout);
      }
    }
    assert runs[..|runs|] == runs;
    return if end == len then Pass else Fail(InvalidLayout);
  }

  lemma NoFlats(runs: seq<Progression>)
    ensures |Flats(runs[..0])| == 0
  {}

  lemma FlatsNext(runs: seq<Progression>, i: nat)
    requires i < |runs|
    ensures |Flats(runs[..i + 1])| == |Flats(runs[..i])| + runs[i].len
  {
    assert runs[..i + 1] == runs[..i] + [runs[i]];
    FlatsSnoc(runs[..i], runs[i]);
  }

  /** `BatchRequest::validate`: exactly the valid requests pass; on a shape with an empty axis those
      are empty requests. */
  method Validate(request: BatchRequest, shape: seq<nat>) returns (r: Outcome)
    requires MachineShape(shape) && Built(request)
    ensures Positive(shape) ==> (r.Pass? <==> request.Valid(shape))
    ensures !Positive(shape) ==> (r.Pass? <==> EmptyOn(request, shape))
  {
    hide Size, AxesValid, RectCoords, Flats, Progression.Within, ProductFits, Positive, MachineAxes;
    if !Positive(shape) {
      var k := EmptyShape(shape);
      NoRunsAtAll();
    }
    match request.kind {
      case Linear(start) =>
        var total := CheckedProduct(shape);
        if total.None? {
          return Fail(InvalidSchema);
        }
        return if start + request.len > total.value then Fail(InvalidCoord) else Pass;
      case Rectangles(rects) =>
        for i := 0 to |rects|
          invariant forall k :: 0 <= k < i ==> AxesValid(rects[k].axes, shape)
        {
          var checked := CheckRectangle(rects[i], shape);
          if checked.Fail? {
            return checked;
          }
        }
        if !Positive(shape) {
          RectanglesEmpty(rects, shape);
        }
        return Pass;
      case FlatRuns(runs) =>
        if request.len > MAX_BATCH_ELEMENTS {
          return Fail(InvalidLayout);
        }
        var total := CheckedProduct(shape);
        if total.None? {
          return Fail(InvalidSchema);
        }
        r := CheckRuns(runs, request.len, total.value);
        if runs != [] && runs[0].len > 0 {
          RunInNothing(runs[0]);
        }
      case Explicit(coords) =>
        if coords != [] && !Positive(shape) {
          NowhereInShape(coords[0], shape);
        }
        for i := 0 to |coords|
          invariant forall k :: 0 <= k < i ==> InShape(coords[k], shape)
        {
          var checked := CheckCoord(coords[i], shape);
          if checked.Fail? {
            return checked;
          }
        }
        return Pass;
    }
  }

  lemma NoRunsAtAll()
    ensures Flats([]) == []
  {}

  lemma NowhereInShape(c: Coord, shape: seq<nat>)
    requires !Positive(shape)
    ensures !InShape(c, shape)
  {}

  /** `Cursor::new`: a cursor before the first requested coordinate, and an error for exactly the
      invalid requests. Over a shape with an empty axis a request of nothing has nothing to walk. */
  method OpenCursor(request: BatchRequest, shape: seq<nat>) returns (r: Result<Option<Cursor>>)
    requires MachineShape(shape) && Built(request)
    ensures r.Ok? <==> if Positive(shape) then request.Valid(shape) else EmptyOn(request, shape)
    ensures r.Ok? ==> (r.value.Some? <==> Positive(shape))
    ensures r.Ok? && r.value.Some? ==>
              var cursor := r.value.value;
              fresh(cursor) && cursor.Valid() && cursor.request == request && cursor.shape == shape && cursor.position == 0
  {
    hide BatchRequest.Valid, Tracks, EmptyOn, Positive;
    var checked := Validate(request, shape);
    if checked.Fail? {
      return Err(checked.error);
    }
    if !Positive(shape) {
      return Ok(None);
    }
    var cursor := new Cursor(request, shape);
    return Ok(Some(cursor));
  }
}
