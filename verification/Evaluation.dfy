/** Evaluating an expression tree on the trampoline: the values it answers, and when it can. */
module Evaluation {
  import opened Radix
  import opened Wrappers
  import opened Request
  import opened Mapping
  import opened Mapped
  import opened Geometry
  import opened Progressions
  import opened StorageRead
  import opened SparseStore
  import opened SparseViews
  import opened Reduce
  import opened Expressions
  import opened Driver

  // ---------------------------------------------------------------------
  // The evaluation of each kind of expression
  // ---------------------------------------------------------------------

  /** Where the evaluation of an expression at a request stands. */
  datatype State<!T> =
    | Root(e: Expr<T>, request: BatchRequest)
    | Build(e: Expr<T>, request: BatchRequest)
    | Answered(answer: Result<seq<T>>)
    | OperandRead(op: T -> T, operand: Result<seq<T>>)
    | LeftRead(combine: (T, T) -> T, right: Expr<T>, request: BatchRequest, left: Result<seq<T>>)
    | RightRead(combine: (T, T) -> T, leftValues: seq<T>, answered: Result<seq<T>>)
    | ConditionRead(zero: T, chosen: Expr<T>, otherwise: Expr<T>, request: BatchRequest, condition: Result<seq<T>>)
    | ChosenRead(zero: T, otherwise: Expr<T>, request: BatchRequest, conditionValues: seq<T>, answered: Result<seq<T>>)
    | OtherwiseRead(zero: T, conditionValues: seq<T>, chosenValues: seq<T>, answered: Result<seq<T>>)

  /** A child's request is validated against its shape. */
  function Checked(request: BatchRequest, shape: seq<nat>): Outcome {
    if request.Valid(shape) then Pass else Fail(InvalidCoord)
  }

  /** Ask for the values of an operand, one per coordinate. */
  function AskFor<T>(e: Expr<T>, request: BatchRequest, resume: Result<seq<T>> -> State<T>): Action<State<T>, seq<T>> {
    Ask(Checked(request, Shape(e)), Build(e, request), values => |values| == request.len, resume)
  }

  function MapEach<T>(op: T -> T, values: seq<T>): (r: seq<T>)
    ensures |r| == |values|
  {
    seq(|values|, i requires 0 <= i < |values| => op(values[i]))
  }

  function CombineEach<T>(combine: (T, T) -> T, left: seq<T>, right: seq<T>): (r: seq<T>)
    requires |left| == |right|
    ensures |r| == |left|
  {
    seq(|left|, i requires 0 <= i < |left| => combine(left[i], right[i]))
  }

  function ChooseEach<T(==)>(condition: seq<T>, chosen: seq<T>, otherwise: seq<T>, zero: T): (r: seq<T>)
    requires |condition| == |chosen| == |otherwise|
    ensures |r| == |condition|
  {
    seq(|condition|, i requires 0 <= i < |condition| => if condition[i] != zero then chosen[i] else otherwise[i])
  }

  /** The values of an expression at a request, in request order. */
  function ValuesOf<T(==)>(e: Expr<T>, request: BatchRequest): (v: seq<T>)
    requires request.Valid(Shape(e))
    ensures |v| == request.len && forall i :: 0 <= i < |v| ==> v[i] == Value(e, request.Coords(Shape(e))[i])
  {
    ValuesAt(Valuation(e), request.Coords(Shape(e)))
  }

  /** The base coordinates an owned expression reads. */
  function ThroughEach(mapping: CoordinateMap, shape: seq<nat>, coords: seq<Coord>): (r: seq<Coord>)
    ensures |r| == |coords| && forall i :: 0 <= i < |r| ==> r[i] == Through(mapping, shape, coords[i])
  {
    seq(|coords|, i requires 0 <= i < |coords| => Through(mapping, shape, coords[i]))
  }

  /** The request an owned expression passes on, by its coordinates. */
  function ThroughRequest(mapping: CoordinateMap, shape: seq<nat>, request: BatchRequest): Result<BatchRequest> {
    if request.Valid(mapping.shape) && StepsMap(mapping, request)
    then Ok(BatchRequest(Explicit(ThroughEach(mapping, shape, request.Coords(mapping.shape))), request.len))
    else Err(MappingOverflow)
  }

  /** `mapped`, as an owned expression calls it, passes on a request with those coordinates, in runs. */
  method MapOwned(mapping: CoordinateMap, shape: seq<nat>, request: BatchRequest) returns (r: Result<BatchRequest>)
    requires Positive(shape) && Size(shape) <= U64_MAX && mapping.Good(Size(shape)) && |mapping.shape| <= MAX_RANK
    requires request.Valid(mapping.shape)
    ensures r.Ok? <==> ThroughRequest(mapping, shape, request).Ok?
    ensures r.Ok? ==> r.value.Valid(shape) && ThroughRequest(mapping, shape, request).value.Valid(shape)
    ensures r.Ok? ==> r.value.Coords(shape) == ThroughRequest(mapping, shape, request).value.Coords(shape)
    ensures r.Ok? <==> StepsMap(mapping, request)
    ensures r.Ok? ==> r.value.len == request.len && forall i :: 0 <= i < request.len ==>
              && InShape(request.Coords(mapping.shape)[i], mapping.shape)
              && 0 <= mapping.Offset(request.Coords(mapping.shape)[i])
              && r.value.Coords(shape)[i] == Decode(mapping.Offset(request.Coords(mapping.shape)[i]), shape)
  {
    hide BatchRequest.Valid, BatchRequest.Coords, StepsMap, CoordinateMap.Offset, Size, Decode;
    r := MapRequest(request, mapping, shape, Strides(shape));
    if r.Ok? {
      var through := ThroughRequest(mapping, shape, request).value;
      ThroughValid(mapping, shape, request);
      forall i | 0 <= i < request.len ensures r.value.Coords(shape)[i] == through.Coords(shape)[i] {
        assert MapOffsets(mapping, request)[i] == mapping.Offset(request.Coords(mapping.shape)[i]);
      }
    }
  }

  lemma ThroughValid(mapping: CoordinateMap, shape: seq<nat>, request: BatchRequest)
    requires Positive(shape) && mapping.Good(Size(shape)) && request.Valid(mapping.shape)
    requires StepsMap(mapping, request)
    ensures var through := ThroughRequest(mapping, shape, request);
            && through.Ok? && through.value.Valid(shape) && through.value.kind.Explicit? && through.value.len == request.len
            && through.value.Coords(shape) == ThroughEach(mapping, shape, request.Coords(mapping.shape))
  {
    hide CoordinateMap.Offset, Decode, Size, StepsMap, BatchRequest.Coords;
    var coords := request.Coords(mapping.shape);
    forall i | 0 <= i < |coords| ensures InShape(Through(mapping, shape, coords[i]), shape) {
      CoordsInside(request, mapping.shape, i);
      assert 0 <= mapping.Offset(coords[i]) < Size(shape);
      DecodeInShape(mapping.Offset(coords[i]), shape);
    }
    ExplicitCoords(ThroughEach(mapping, shape, coords), request.len, shape);
  }

  lemma ExplicitCoords(coords: seq<Coord>, len: nat, shape: seq<nat>)
    requires Positive(shape) && |coords| == len <= MAX_BATCH_ELEMENTS && forall i :: 0 <= i < |coords| ==> InShape(coords[i], shape)
    ensures BatchRequest(Explicit(coords), len).Valid(shape) && BatchRequest(Explicit(coords), len).Coords(shape) == coords
  {}

  /** What a source answers by itself. */
  function SourceRead<T(==)>(e: Expr<T>, request: BatchRequest): Result<seq<T>> {
    if request.Valid(Shape(e)) && (e.Stored? ==> Plannable(e.g, e.mapping, request)) then Ok(ValuesOf(e, request))
    else Err(MappingOverflow)
  }

  /** `build` of a sparse tensor or view is a planned read of its table. */
  method ReadStored<T(==)>(e: Expr<T>, request: BatchRequest) returns (r: Result<seq<T>>)
    requires e.Stored? && WellFormed(e) && request.Valid(Shape(e))
    ensures r.Ok? <==> SourceRead(e, request).Ok?
    ensures r.Ok? ==> r == SourceRead(e, request)
  {
    hide Plannable, ViewValue, ViewReads, StoreOf, RowValid, CoordinateMap.InRange, CoordinateMap.Bounded, Size,
         BatchRequest.Valid, BatchRequest.Coords;
    var store := new SparseStorage.Open(e.g, e.zero, e.table);
    ghost var value := Valuation(e);
    TableReads(value, e.g, e.table, e.mapping, e.zero);
    r := ReadView(store, e.mapping, request, value);
  }

  /** `build`: operands left to right, stopping at the first error, then the operation. */
  function Act<T(==)>(s: State<T>): Action<State<T>, seq<T>> {
    match s
    case Root(e, request) => AskFor(e, request, answer => Answered(answer))
    case Build(e, request) =>
      (match e
       case Leaf(_, _, _, _) => Finish(SourceRead(e, request))
       case Stored(_, _, _, _) => Finish(SourceRead(e, request))
       case Unary(op, source, _) => AskFor(source, request, answer => OperandRead(op, answer))
       case Binary(combine, left, right, _) => AskFor(left, request, answer => LeftRead(combine, right, request, answer))
       case Where(condition, chosen, otherwise) =>
         AskFor(condition, request, answer => ConditionRead(Zero(condition), chosen, otherwise, request, answer))
       case Owned(source, _, through) =>
         if IsIdentity(through, Shape(source)) then AskFor(source, request, answer => Answered(answer))
         else
           match ThroughRequest(through, Shape(source), request)
           case Err(error) => Finish(Err(error))
           case Ok(mapped) => AskFor(source, mapped, answer => Answered(answer)))
    case Answered(answer) => Finish(answer)
    case OperandRead(op, operand) =>
      (match operand
       case Err(error) => Finish(Err(error))
       case Ok(values) => Finish(Ok(MapEach(op, values))))
    case LeftRead(combine, right, request, left) =>
      (match left
       case Err(error) => Finish(Err(error))
       case Ok(values) => AskFor(right, request, answer => RightRead(combine, values, answer)))
    case RightRead(combine, left, answered) =>
      (match answered
       case Err(error) => Finish(Err(error))
       case Ok(right) => Finish(if |left| == |right| then Ok(CombineEach(combine, left, right)) else Err(InvalidLayout)))
    case ConditionRead(zero, chosen, otherwise, request, condition) =>
      (match condition
       case Err(error) => Finish(Err(error))
       case Ok(values) => AskFor(chosen, request, answer => ChosenRead(zero, otherwise, request, values, answer)))
    case ChosenRead(zero, otherwise, request, condition, answered) =>
      (match answered
       case Err(error) => Finish(Err(error))
       case Ok(chosen) => AskFor(otherwise, request, answer => OtherwiseRead(zero, condition, chosen, answer)))
    case OtherwiseRead(zero, condition, chosen, answered) =>
      (match answered
       case Err(error) => Finish(Err(error))
       case Ok(otherwise) =>
         Finish(if |condition| == |chosen| == |otherwise| then Ok(ChooseEach(condition, chosen, otherwise, zero))
                else Err(InvalidLayout)))
  }

  // ---------------------------------------------------------------------
  // Termination
  // ---------------------------------------------------------------------

  /** An upper bound on what is left to do. */
  function Left<T>(s: State<T>): nat {
    match s
    case Root(e, _) => 4 * Nodes(e) + 2
    case Build(e, _) => 4 * Nodes(e) + 1
    case LeftRead(_, right, _, _) => 4 * Nodes(right) + 2
    case ConditionRead(_, chosen, otherwise, _, _) => 4 * (Nodes(chosen) + Nodes(otherwise)) + 3
    case ChosenRead(_, otherwise, _, _, _) => 4 * Nodes(otherwise) + 2
    case Answered(_) => 0
    case OperandRead(_, _) => 0
    case RightRead(_, _, _) => 0
    case OtherwiseRead(_, _, _, _) => 0
  }

  function TreeMachine<T(==)>(): Machine<State<T>, seq<T>> {
    Machine((s: State<T>) => Act(s), (s: State<T>) => Left(s) as ORDINAL)
  }

  lemma TreeRanked<T(!new)>()
    ensures Ranked(TreeMachine<T>())
  {
    forall s: State<T> ensures RankedAt(TreeMachine<T>(), s) {
      StateRanked(s);
    }
  }

  lemma StateRanked<T(!new)>(s: State<T>)
    ensures RankedAt(TreeMachine<T>(), s)
  {
    hide Value, Sparse, Shape, Checked;
  }

  // ---------------------------------------------------------------------
  // Meaning
  // ---------------------------------------------------------------------

  /** How many evaluations nest below an expression, itself included. */
  function Depth<T>(e: Expr<T>): (n: nat)
    ensures n > 0
  {
    match e
    case Leaf(_, _, _, _) => 1
    case Stored(_, _, _, _) => 1
    case Unary(_, source, _) => 1 + Depth(source)
    case Binary(_, left, right, _) => 1 + Max(Depth(left), Depth(right))
    case Where(condition, chosen, otherwise) => 1 + Max(Depth(condition), Max(Depth(chosen), Depth(otherwise)))
    case Owned(source, _, _) => 1 + Depth(source)
  }

  /** No source or map on the way overflows on an unused step of the request. Behind a map that is not
      the identity the request is explicit, which no step can overflow. */
  predicate Readable<T>(e: Expr<T>, request: BatchRequest) {
    match e
    case Leaf(_, _, _, _) => true
    case Stored(g, _, mapping, _) => Plannable(g, mapping, request)
    case Unary(_, source, _) => Readable(source, request)
    case Binary(_, left, right, _) => Readable(left, request) && Readable(right, request)
    case Where(condition, chosen, otherwise) =>
      Readable(condition, request) && Readable(chosen, request) && Readable(otherwise, request)
    case Owned(source, _, through) =>
      if IsIdentity(through, Shape(source)) then Readable(source, request) else StepsMap(through, request)
  }

  lemma {:induction false} ExplicitReadable<T>(e: Expr<T>, request: BatchRequest)
    requires request.kind.Explicit?
    ensures Readable(e, request)
    decreases e
  {
    match e
    case Unary(_, source, _) => ExplicitReadable(source, request);
    case Binary(_, left, right, _) =>
      ExplicitReadable(left, request);
      ExplicitReadable(right, request);
    case Where(condition, chosen, otherwise) =>
      ExplicitReadable(condition, request);
      ExplicitReadable(chosen, request);
      ExplicitReadable(otherwise, request);
    case Owned(source, _, _) => ExplicitReadable(source, request);
    case Leaf(_, _, _, _) =>
    case Stored(_, _, _, _) =>
  }

  /** What the recursion makes of a state: an answer and how deeply it nests. */
  ghost predicate Answers<T(!new)>(s: State<T>, values: seq<T>, height: nat)
    requires Ranked(TreeMachine<T>())
  {
    Eval(TreeMachine<T>(), s) == Ok(values) && Height(TreeMachine<T>(), s) == height
  }

  /** Or an error. */
  ghost predicate Fails<T(!new)>(s: State<T>)
    requires Ranked(TreeMachine<T>())
  {
    Eval(TreeMachine<T>(), s).Err?
  }

  lemma Finishes<T(!new)>(s: State<T>, values: seq<T>)
    requires Ranked(TreeMachine<T>()) && Act(s) == Finish(Ok(values))
    ensures Answers(s, values, 1)
  {
    hide Act, Left;
  }

  lemma FinishFails<T(!new)>(s: State<T>)
    requires Ranked(TreeMachine<T>()) && Act(s).Finish? && Act(s).result.Err?
    ensures Fails(s)
  {
    hide Act, Left;
  }

  /** Asking for an operand that answers. */
  lemma Asks<T(!new)>(s: State<T>, e: Expr<T>, request: BatchRequest, operand: seq<T>, height: nat, values: seq<T>, rest: nat)
    requires Ranked(TreeMachine<T>()) && Act(s).Ask?
    requires Act(s) == AskFor(e, request, Act(s).resume) && Checked(request, Shape(e)).Pass?
    requires Answers(Build(e, request), operand, height) && |operand| == request.len
    requires Answers(Act(s).resume(Ok(operand)), values, rest)
    ensures Answers(s, values, Max(1 + height, rest))
  {
    hide Act, Left, Checked, Shape;
    var ask := Act(s);
    assert TreeMachine<T>().act(s) == ask;
    assert Delivered(Ok(operand), ask.accepts) == Ok(operand);
  }

  /** Asking for an operand after which the rest fails, whatever it answered. */
  lemma AskFails<T(!new)>(s: State<T>, e: Expr<T>, request: BatchRequest)
    requires Ranked(TreeMachine<T>()) && Act(s).Ask?
    requires Act(s) == AskFor(e, request, Act(s).resume) && Checked(request, Shape(e)).Pass?
    requires forall error :: Fails(Act(s).resume(Err(error)))
    requires Fails(Build(e, request)) || forall values: seq<T> :: Fails(Act(s).resume(Ok(values)))
    ensures Fails(s)
  {
    hide Act, Left, Checked, Shape;
    var ask := Act(s);
    assert TreeMachine<T>().act(s) == ask;
  }

  // ---------------------------------------------------------------------
  // Trees that answer
  // ---------------------------------------------------------------------

  /** Evaluating an accepted tree at a readable request answers its value at every coordinate, in order,
      and nests as deeply as the tree. */
  lemma {:induction false} BuildAnswers<T(!new)>(e: Expr<T>, request: BatchRequest)
    requires WellFormed(e) && request.Valid(Shape(e)) && Readable(e, request) && Ranked(TreeMachine<T>())
    ensures Answers(Build(e, request), ValuesOf(e, request), Depth(e))
    decreases e
  {
    hide Answers, ValuesOf, Value, Ranked, Sparse, BatchRequest.Valid, Plannable, StepsMap;
    match e
    case Leaf(_, _, _, _) => SourceAnswers(e, request);
    case Stored(_, _, _, _) => SourceAnswers(e, request);
    case Unary(op, source, zero) =>
      BuildAnswers(source, request);
      UnaryAnswers(op, source, zero, request);
    case Binary(combine, left, right, zero) =>
      BuildAnswers(left, request);
      BuildAnswers(right, request);
      BinaryAnswers(combine, left, right, zero, request);
    case Where(condition, chosen, otherwise) =>
      BuildAnswers(condition, request);
      BuildAnswers(chosen, request);
      BuildAnswers(otherwise, request);
      WhereAnswers(condition, chosen, otherwise, request);
    case Owned(source, _, through) =>
      if IsIdentity(through, Shape(source)) {
        BuildAnswers(source, request);
        OwnedAnswers(e, request);
      } else {
        ThroughValid(through, Shape(source), request);
        var mapped := ThroughRequest(through, Shape(source), request).value;
        ExplicitReadable(source, mapped);
        BuildAnswers(source, mapped);
        MappedAnswers(e, request);
      }
  }

  lemma SourceAnswers<T(!new)>(e: Expr<T>, request: BatchRequest)
    requires (e.Leaf? || e.Stored?) && request.Valid(Shape(e)) && Readable(e, request) && Ranked(TreeMachine<T>())
    ensures Answers(Build(e, request), ValuesOf(e, request), 1)
  {
    hide Answers, Value, Plannable;
    Finishes(Build(e, request), ValuesOf(e, request));
  }

  /** Heights of the operands of a node, as they are evaluated. */
  ghost function HeightOf<T(!new)>(e: Expr<T>, request: BatchRequest): nat
    requires Ranked(TreeMachine<T>())
  {
    Height(TreeMachine<T>(), Build(e, request))
  }

  /** What an expression answers at a request, if it answers. */
  ghost function EvalOf<T(!new)>(e: Expr<T>, request: BatchRequest): Result<seq<T>>
    requires Ranked(TreeMachine<T>())
  {
    Eval(TreeMachine<T>(), Build(e, request))
  }

  lemma UnaryFrom<T(!new)>(e: Expr<T>, request: BatchRequest, a: seq<T>, h: nat)
    requires e.Unary? && Ranked(TreeMachine<T>()) && request.Valid(Shape(e.source)) && |a| == request.len
    requires Answers(Build(e.source, request), a, h)
    ensures Answers(Build(e, request), MapEach(e.op, a), 1 + h)
  {
    hide Answers, MapEach, BatchRequest.Valid, BatchRequest.Coords;
    var values := MapEach(e.op, a);
    Finishes(OperandRead(e.op, Ok(a)), values);
    Asks(Build(e, request), e.source, request, a, h, values, 1);
  }

  lemma UnaryAnswers<T(!new)>(op: T -> T, source: Expr<T>, zero: T, request: BatchRequest)
    requires Ranked(TreeMachine<T>()) && request.Valid(Shape(source))
    requires Answers(Build(source, request), ValuesOf(source, request), Depth(source))
    ensures Answers(Build(Unary(op, source, zero), request), ValuesOf(Unary(op, source, zero), request), 1 + Depth(source))
  {
    hide Answers, BatchRequest.Valid, BatchRequest.Coords;
    var operand, values := ValuesOf(source, request), ValuesOf(Unary(op, source, zero), request);
    assert MapEach(op, operand) == values;
    UnaryFrom(Unary(op, source, zero), request, operand, Depth(source));
  }

  lemma BinaryFrom<T(!new)>(e: Expr<T>, request: BatchRequest, l: seq<T>, r: seq<T>, h: nat, k: nat)
    requires e.Binary? && Ranked(TreeMachine<T>()) && |l| == |r| == request.len
    requires request.Valid(Shape(e.left)) && request.Valid(Shape(e.right))
    requires Answers(Build(e.left, request), l, h) && Answers(Build(e.right, request), r, k)
    ensures Answers(Build(e, request), CombineEach(e.combine, l, r), 1 + Max(h, k))
  {
    hide Answers, CombineEach, BatchRequest.Valid;
    var values := CombineEach(e.combine, l, r);
    Finishes(RightRead(e.combine, l, Ok(r)), values);
    Asks(LeftRead(e.combine, e.right, request, Ok(l)), e.right, request, r, k, values, 1);
    Asks(Build(e, request), e.left, request, l, h, values, 1 + k);
  }

  lemma BinaryAnswers<T(!new)>(combine: (T, T) -> T, left: Expr<T>, right: Expr<T>, zero: T, request: BatchRequest)
    requires Ranked(TreeMachine<T>()) && request.Valid(Shape(left)) && Shape(left) == Shape(right)
    requires Answers(Build(left, request), ValuesOf(left, request), Depth(left))
    requires Answers(Build(right, request), ValuesOf(right, request), Depth(right))
    ensures var e := Binary(combine, left, right, zero);
            Answers(Build(e, request), ValuesOf(e, request), Depth(e))
  {
    hide Answers, ValuesOf, CombineEach, BatchRequest.Valid;
    BinaryValues(combine, left, right, zero, request);
    BinaryFrom(Binary(combine, left, right, zero), request, ValuesOf(left, request), ValuesOf(right, request),
               Depth(left), Depth(right));
  }

  lemma BinaryValues<T(!new)>(combine: (T, T) -> T, left: Expr<T>, right: Expr<T>, zero: T, request: BatchRequest)
    requires request.Valid(Shape(left)) && Shape(left) == Shape(right)
    ensures CombineEach(combine, ValuesOf(left, request), ValuesOf(right, request))
         == ValuesOf(Binary(combine, left, right, zero), request)
  {
    hide Sparse, BatchRequest.Valid, BatchRequest.Coords;
  }

  /** With the condition and the chosen values read, the last operand decides. */
  lemma OtherwiseAnswers<T(!new)>(zero: T, otherwise: Expr<T>, request: BatchRequest, c: seq<T>, l: seq<T>, r: seq<T>,
                                  height: nat)
    requires Ranked(TreeMachine<T>()) && request.Valid(Shape(otherwise)) && |c| == |l| == |r| == request.len
    requires Answers(Build(otherwise, request), r, height)
    ensures Answers(ChosenRead(zero, otherwise, request, c, Ok(l)), ChooseEach(c, l, r, zero), 1 + height)
  {
    hide Answers, ChooseEach, BatchRequest.Valid;
    var values := ChooseEach(c, l, r, zero);
    Finishes(OtherwiseRead(zero, c, l, Ok(r)), values);
    Asks(ChosenRead(zero, otherwise, request, c, Ok(l)), otherwise, request, r, height, values, 1);
  }

  lemma ChosenAnswers<T(!new)>(zero: T, chosen: Expr<T>, otherwise: Expr<T>, request: BatchRequest, c: seq<T>, l: seq<T>,
                               values: seq<T>, height: nat, rest: nat)
    requires Ranked(TreeMachine<T>()) && request.Valid(Shape(chosen)) && |c| == |l| == request.len
    requires Answers(Build(chosen, request), l, height)
    requires Answers(ChosenRead(zero, otherwise, request, c, Ok(l)), values, 1 + rest)
    ensures Answers(ConditionRead(zero, chosen, otherwise, request, Ok(c)), values, 1 + Max(height, rest))
  {
    hide Answers, BatchRequest.Valid;
    Asks(ConditionRead(zero, chosen, otherwise, request, Ok(c)), chosen, request, l, height, values, 1 + rest);
  }

  lemma ConditionAnswers<T(!new)>(e: Expr<T>, request: BatchRequest, c: seq<T>, values: seq<T>, height: nat, rest: nat)
    requires e.Where? && Ranked(TreeMachine<T>()) && request.Valid(Shape(e.condition)) && |c| == request.len
    requires Answers(Build(e.condition, request), c, height)
    requires Answers(ConditionRead(Zero(e.condition), e.chosen, e.otherwise, request, Ok(c)), values, 1 + rest)
    ensures Answers(Build(e, request), values, 1 + Max(height, rest))
  {
    hide Answers, BatchRequest.Valid, Shape;
    Asks(Build(e, request), e.condition, request, c, height, values, 1 + rest);
  }

  /** The three operands in turn. */
  lemma WhereFrom<T(!new)>(e: Expr<T>, request: BatchRequest, c: seq<T>, l: seq<T>, r: seq<T>, h: nat, j: nat, k: nat)
    requires e.Where? && Ranked(TreeMachine<T>()) && |c| == |l| == |r| == request.len
    requires request.Valid(Shape(e.condition)) && request.Valid(Shape(e.chosen)) && request.Valid(Shape(e.otherwise))
    requires Answers(Build(e.condition, request), c, h)
    requires Answers(Build(e.chosen, request), l, j)
    requires Answers(Build(e.otherwise, request), r, k)
    ensures Answers(Build(e, request), ChooseEach(c, l, r, Zero(e.condition)), 1 + Max(h, Max(j, k)))
  {
    hide Answers, ChooseEach, BatchRequest.Valid, Act, Zero, Shape;
    var zero, values := Zero(e.condition), ChooseEach(c, l, r, Zero(e.condition));
    OtherwiseAnswers(zero, e.otherwise, request, c, l, r, k);
    ChosenAnswers(zero, e.chosen, e.otherwise, request, c, l, values, j, k);
    ConditionAnswers(e, request, c, values, h, Max(j, k));
  }

  lemma WhereAnswers<T(!new)>(condition: Expr<T>, chosen: Expr<T>, otherwise: Expr<T>, request: BatchRequest)
    requires Ranked(TreeMachine<T>()) && request.Valid(Shape(condition))
    requires Shape(condition) == Shape(chosen) == Shape(otherwise)
    requires Answers(Build(condition, request), ValuesOf(condition, request), Depth(condition))
    requires Answers(Build(chosen, request), ValuesOf(chosen, request), Depth(chosen))
    requires Answers(Build(otherwise, request), ValuesOf(otherwise, request), Depth(otherwise))
    ensures var e := Where(condition, chosen, otherwise);
            Answers(Build(e, request), ValuesOf(e, request), Depth(e))
  {
    hide Answers, ValuesOf, ChooseEach, BatchRequest.Valid, Act, Value, Zero, Sparse;
    var e := Where(condition, chosen, otherwise);
    WhereFrom(e, request, ValuesOf(condition, request), ValuesOf(chosen, request), ValuesOf(otherwise, request),
              Depth(condition), Depth(chosen), Depth(otherwise));
    WhereValues(condition, chosen, otherwise, request);
  }

  lemma WhereValues<T(!new)>(condition: Expr<T>, chosen: Expr<T>, otherwise: Expr<T>, request: BatchRequest)
    requires request.Valid(Shape(condition)) && Shape(condition) == Shape(chosen) == Shape(otherwise)
    ensures ChooseEach(ValuesOf(condition, request), ValuesOf(chosen, request), ValuesOf(otherwise, request), Zero(condition))
         == ValuesOf(Where(condition, chosen, otherwise), request)
  {
    hide Sparse, BatchRequest.Valid, BatchRequest.Coords;
  }

  lemma OwnedFrom<T(!new)>(e: Expr<T>, request: BatchRequest, a: seq<T>, h: nat)
    requires e.Owned? && Ranked(TreeMachine<T>()) && request.Valid(Shape(e.source)) && |a| == request.len
    requires IsIdentity(e.through, Shape(e.source)) && Answers(Build(e.source, request), a, h)
    ensures Answers(Build(e, request), a, 1 + h)
  {
    hide Answers, BatchRequest.Valid;
    Finishes(Answered(Ok(a)), a);
    Asks(Build(e, request), e.source, request, a, h, a, 1);
  }

  lemma OwnedAnswers<T(!new)>(e: Expr<T>, request: BatchRequest)
    requires e.Owned? && WellFormed(e) && request.Valid(Shape(e)) && Ranked(TreeMachine<T>())
    requires IsIdentity(e.through, Shape(e.source))
    requires Answers(Build(e.source, request), ValuesOf(e.source, request), Depth(e.source))
    ensures Answers(Build(e, request), ValuesOf(e, request), Depth(e))
  {
    hide Answers, Sparse, NodeCount, Size, BatchRequest.Valid, BatchRequest.Coords;
    var values := ValuesOf(e, request);
    forall i | 0 <= i < request.len ensures ValuesOf(e.source, request)[i] == values[i] {
      CoordsInside(request, Shape(e), i);
      IdentityThrough(e.through, Shape(e.source), request.Coords(Shape(e))[i]);
    }
    assert ValuesOf(e.source, request) == values;
    OwnedFrom(e, request, values, Depth(e.source));
  }

  lemma MappedFrom<T(!new)>(e: Expr<T>, request: BatchRequest, mapped: BatchRequest, a: seq<T>, h: nat)
    requires e.Owned? && Ranked(TreeMachine<T>()) && !IsIdentity(e.through, Shape(e.source))
    requires ThroughRequest(e.through, Shape(e.source), request) == Ok(mapped)
    requires mapped.Valid(Shape(e.source)) && |a| == mapped.len && Answers(Build(e.source, mapped), a, h)
    ensures Answers(Build(e, request), a, 1 + h)
  {
    hide Answers, BatchRequest.Valid, ThroughRequest;
    Finishes(Answered(Ok(a)), a);
    Asks(Build(e, request), e.source, mapped, a, h, a, 1);
  }

  lemma MappedAnswers<T(!new)>(e: Expr<T>, request: BatchRequest)
    requires e.Owned? && WellFormed(e) && request.Valid(Shape(e)) && StepsMap(e.through, request) && Ranked(TreeMachine<T>())
    requires !IsIdentity(e.through, Shape(e.source))
    requires ThroughRequest(e.through, Shape(e.source), request).Ok?
    requires var mapped := ThroughRequest(e.through, Shape(e.source), request).value;
             && mapped.Valid(Shape(e.source))
             && Answers(Build(e.source, mapped), ValuesOf(e.source, mapped), Depth(e.source))
    ensures Answers(Build(e, request), ValuesOf(e, request), Depth(e))
  {
    hide Answers, Sparse, NodeCount, Size, BatchRequest.Valid, BatchRequest.Coords, StepsMap, Through;
    ThroughValid(e.through, Shape(e.source), request);
    var mapped := ThroughRequest(e.through, Shape(e.source), request).value;
    assert ValuesOf(e.source, mapped) == ValuesOf(e, request);
    MappedFrom(e, request, mapped, ValuesOf(e, request), Depth(e.source));
  }

  // ---------------------------------------------------------------------
  // What each operation makes of the answers of its operands
  // ---------------------------------------------------------------------

  /** A leaf answers its value at every requested coordinate, in order. */
  lemma LeafLaw<T(!new)>(e: Expr<T>, request: BatchRequest)
    requires e.Leaf? && request.Valid(e.shape) && Ranked(TreeMachine<T>())
    ensures var answer := EvalOf(e, request);
            && answer.Ok? && |answer.value| == request.len
            && forall i :: 0 <= i < request.len ==> answer.value[i] == e.value(request.Coords(e.shape)[i])
  {
    hide BatchRequest.Valid, BatchRequest.Coords;
    SourceAnswers(e, request);
    var values := ValuesOf(e, request);
    forall i | 0 <= i < request.len ensures values[i] == e.value(request.Coords(e.shape)[i]) {
      assert values[i] == Value(e, request.Coords(e.shape)[i]);
    }
  }

  /** A sparse tensor, or a view of one, answers what its table holds where its map places each
      coordinate, and its zero where no row is stored. */
  lemma StoredLaw<T(!new)>(e: Expr<T>, request: BatchRequest)
    requires e.Stored? && WellFormed(e) && request.Valid(Shape(e)) && Readable(e, request) && Ranked(TreeMachine<T>())
    ensures var answer := EvalOf(e, request);
            && answer.Ok? && |answer.value| == request.len
            && forall i :: 0 <= i < request.len ==>
                 var c := request.Coords(Shape(e))[i];
                 && InShape(c, Shape(e))
                 && (e.mapping.Some? ==> 0 <= e.mapping.value.Offset(c) < Size(e.g.shape))
                 && var base := if e.mapping.Some? then Decode(e.mapping.value.Offset(c), e.g.shape) else c;
                    var p := e.g.At(base);
                    InShape(base, e.g.shape) && (p.block in e.table ==> p.offset < |e.table[p.block]|)
                    && answer.value[i] == if p.block in e.table then e.table[p.block][p.offset] else e.zero
  {
    hide BatchRequest.Valid, BatchRequest.Coords, Storage.At, Plannable, StoredAt, Value;
    SourceAnswers(e, request);
    var values := ValuesOf(e, request);
    forall i | 0 <= i < request.len
      ensures var c := request.Coords(Shape(e))[i];
              && InShape(c, Shape(e))
              && (e.mapping.Some? ==> 0 <= e.mapping.value.Offset(c) < Size(e.g.shape))
              && var base := if e.mapping.Some? then Decode(e.mapping.value.Offset(c), e.g.shape) else c;
                 var p := e.g.At(base);
                 InShape(base, e.g.shape) && (p.block in e.table ==> p.offset < |e.table[p.block]|)
                 && values[i] == if p.block in e.table then e.table[p.block][p.offset] else e.zero
    {
      CoordsInside(request, Shape(e), i);
      StoredValue(e, request.Coords(Shape(e))[i]);
    }
  }

  lemma StoredValue<T>(e: Expr<T>, c: Coord)
    requires e.Stored? && WellFormed(e) && InShape(c, Shape(e))
    ensures e.mapping.Some? ==> 0 <= e.mapping.value.Offset(c) < Size(e.g.shape)
    ensures var base := if e.mapping.Some? then Decode(e.mapping.value.Offset(c), e.g.shape) else c;
            var p := e.g.At(base);
            && InShape(base, e.g.shape) && (p.block in e.table ==> p.offset < |e.table[p.block]|)
            && Value(e, c) == if p.block in e.table then e.table[p.block][p.offset] else e.zero
  {
    hide Storage.At, Decode, Size, CoordinateMap.Offset, HasNonzero;
    var m := ViewMap(e.g, e.mapping);
    assert 0 <= m.Offset(c) < Size(e.g.shape);
    DecodeInShape(m.Offset(c), e.g.shape);
    if e.mapping.None? {
      IdentityIs(m, e.g.shape, c);
      DecodeOfFlat(c, e.g.shape);
    }
    var base := if e.mapping.Some? then Decode(m.Offset(c), e.g.shape) else c;
    AtInside(e.g, base);
    var p := e.g.At(base);
    if p.block in e.table {
      assert RowValid(e.g, p.block, e.table[p.block], e.zero);
    }
  }

  /** An operation is applied to each answer of its operand. */
  lemma UnaryLaw<T(!new)>(e: Expr<T>, request: BatchRequest, a: seq<T>)
    requires e.Unary? && request.Valid(Shape(e.source)) && Ranked(TreeMachine<T>())
    requires EvalOf(e.source, request) == Ok(a) && |a| == request.len
    ensures var answer := EvalOf(e, request);
            answer.Ok? && |answer.value| == |a| && forall i :: 0 <= i < |a| ==> answer.value[i] == e.op(a[i])
  {
    hide BatchRequest.Valid, Eval, Height;
    UnaryFrom(e, request, a, HeightOf(e.source, request));
  }

  /** The answers of two operands are combined pair by pair, left operand first. */
  lemma BinaryLaw<T(!new)>(e: Expr<T>, request: BatchRequest, l: seq<T>, r: seq<T>)
    requires e.Binary? && request.Valid(Shape(e.left)) && request.Valid(Shape(e.right)) && Ranked(TreeMachine<T>())
    requires EvalOf(e.left, request) == Ok(l) && EvalOf(e.right, request) == Ok(r) && |l| == |r| == request.len
    ensures var answer := EvalOf(e, request);
            answer.Ok? && |answer.value| == |l| && forall i :: 0 <= i < |l| ==> answer.value[i] == e.combine(l[i], r[i])
  {
    hide BatchRequest.Valid, Eval, Height;
    BinaryFrom(e, request, l, r, HeightOf(e.left, request), HeightOf(e.right, request));
  }

  /** A conditional takes the chosen value where the condition is not zero, and the other one where it is. */
  lemma WhereLaw<T(!new)>(e: Expr<T>, request: BatchRequest, c: seq<T>, a: seq<T>, b: seq<T>)
    requires e.Where? && Ranked(TreeMachine<T>()) && |c| == |a| == |b| == request.len
    requires request.Valid(Shape(e.condition)) && request.Valid(Shape(e.chosen)) && request.Valid(Shape(e.otherwise))
    requires EvalOf(e.condition, request) == Ok(c)
    requires EvalOf(e.chosen, request) == Ok(a) && EvalOf(e.otherwise, request) == Ok(b)
    ensures var answer := EvalOf(e, request);
            && answer.Ok? && |answer.value| == |c|
            && (forall i :: 0 <= i < |c| && c[i] != Zero(e.condition) ==> answer.value[i] == a[i])
            && (forall i :: 0 <= i < |c| && c[i] == Zero(e.condition) ==> answer.value[i] == b[i])
  {
    hide BatchRequest.Valid, Eval, Height;
    WhereFrom(e, request, c, a, b, HeightOf(e.condition, request), HeightOf(e.chosen, request),
              HeightOf(e.otherwise, request));
  }

  /** An owned expression answers what its source answers at the coordinates its map reads, in order. */
  lemma OwnedLaw<T(!new)>(e: Expr<T>, request: BatchRequest, mapped: BatchRequest, a: seq<T>)
    requires e.Owned? && WellFormed(e) && request.Valid(Shape(e)) && Ranked(TreeMachine<T>())
    requires if IsIdentity(e.through, Shape(e.source)) then mapped == request
             else
               && StepsMap(e.through, request) && mapped.Valid(Shape(e.source)) && mapped.len == request.len
               && mapped.kind.Explicit? && forall i :: 0 <= i < request.len ==>
                    && InShape(request.Coords(Shape(e))[i], e.through.shape)
                    && 0 <= e.through.Offset(request.Coords(Shape(e))[i])
                    && mapped.kind.coords[i] == Decode(e.through.Offset(request.Coords(Shape(e))[i]), Shape(e.source))
    requires EvalOf(e.source, mapped) == Ok(a) && |a| == mapped.len
    ensures EvalOf(e, request) == Ok(a)
  {
    hide BatchRequest.Valid, BatchRequest.Coords, Eval, Height, StepsMap, CoordinateMap.Offset, Decode, Size, Sparse,
         NodeCount;
    if IsIdentity(e.through, Shape(e.source)) {
      OwnedFrom(e, request, a, HeightOf(e.source, request));
    } else {
      ThroughValid(e.through, Shape(e.source), request);
      ExplicitLength(mapped, Shape(e.source));
      var coords := request.Coords(Shape(e));
      assert mapped.kind.coords == ThroughEach(e.through, Shape(e.source), coords);
      MappedFrom(e, request, mapped, a, HeightOf(e.source, mapped));
    }
  }

  lemma ExplicitLength(request: BatchRequest, shape: seq<nat>)
    requires request.Valid(shape) && request.kind.Explicit?
    ensures |request.kind.coords| == request.len
  {}

  // ---------------------------------------------------------------------
  // Trees that fail
  // ---------------------------------------------------------------------

  /** At any other request some source or map fails, and with it the tree. */
  lemma {:induction false} BuildFails<T(!new)>(e: Expr<T>, request: BatchRequest)
    requires WellFormed(e) && request.Valid(Shape(e)) && !Readable(e, request) && Ranked(TreeMachine<T>())
    ensures Fails(Build(e, request))
    decreases e
  {
    hide Fails, Ranked, Sparse, BatchRequest.Valid, Plannable, StepsMap, NodeCount;
    match e
    case Stored(_, _, _, _) => SourceFails(e, request);
    case Unary(op, source, zero) =>
      BuildFails(source, request);
      UnaryFails(op, source, zero, request);
    case Binary(combine, left, right, zero) =>
      if Readable(left, request) {
        BuildFails(right, request);
      } else {
        BuildFails(left, request);
      }
      BinaryFails(combine, left, right, zero, request);
    case Where(condition, chosen, otherwise) =>
      if !Readable(condition, request) {
        BuildFails(condition, request);
      } else if !Readable(chosen, request) {
        BuildFails(chosen, request);
      } else {
        BuildFails(otherwise, request);
      }
      WhereFails(condition, chosen, otherwise, request);
    case Owned(source, _, through) =>
      if IsIdentity(through, Shape(source)) {
        BuildFails(source, request);
        OwnedFails(e, request);
      } else {
        FinishFails(Build(e, request));
      }
    case Leaf(_, _, _, _) =>
  }

  lemma SourceFails<T(!new)>(e: Expr<T>, request: BatchRequest)
    requires e.Stored? && !Plannable(e.g, e.mapping, request) && Ranked(TreeMachine<T>())
    ensures Fails(Build(e, request))
  {
    hide Fails, Value, Plannable;
    FinishFails(Build(e, request));
  }

  lemma UnaryFails<T(!new)>(op: T -> T, source: Expr<T>, zero: T, request: BatchRequest)
    requires Ranked(TreeMachine<T>()) && request.Valid(Shape(source)) && Fails(Build(source, request))
    ensures Fails(Build(Unary(op, source, zero), request))
  {
    hide Fails, BatchRequest.Valid;
    forall error ensures Fails(OperandRead(op, Err(error))) {
      FinishFails(OperandRead(op, Err(error)));
    }
    AskFails(Build(Unary(op, source, zero), request), source, request);
  }

  lemma BinaryFails<T(!new)>(combine: (T, T) -> T, left: Expr<T>, right: Expr<T>, zero: T, request: BatchRequest)
    requires Ranked(TreeMachine<T>()) && request.Valid(Shape(left)) && Shape(left) == Shape(right)
    requires Fails(Build(left, request)) || Fails(Build(right, request))
    ensures Fails(Build(Binary(combine, left, right, zero), request))
  {
    hide Fails, BatchRequest.Valid;
    forall error ensures Fails(LeftRead(combine, right, request, Err(error))) {
      FinishFails(LeftRead(combine, right, request, Err(error)));
    }
    if Fails(Build(right, request)) {
      forall values: seq<T> ensures Fails(LeftRead(combine, right, request, Ok(values))) {
        RightFails(combine, values, right, request);
      }
    }
    AskFails(Build(Binary(combine, left, right, zero), request), left, request);
  }

  lemma RightFails<T(!new)>(combine: (T, T) -> T, values: seq<T>, right: Expr<T>, request: BatchRequest)
    requires Ranked(TreeMachine<T>()) && request.Valid(Shape(right)) && Fails(Build(right, request))
    ensures Fails(LeftRead(combine, right, request, Ok(values)))
  {
    hide Fails, BatchRequest.Valid;
    forall error ensures Fails(RightRead(combine, values, Err(error))) {
      FinishFails(RightRead(combine, values, Err(error)));
    }
    AskFails(LeftRead(combine, right, request, Ok(values)), right, request);
  }

  lemma WhereFails<T(!new)>(condition: Expr<T>, chosen: Expr<T>, otherwise: Expr<T>, request: BatchRequest)
    requires Ranked(TreeMachine<T>()) && request.Valid(Shape(condition))
    requires Shape(condition) == Shape(chosen) == Shape(otherwise)
    requires Fails(Build(condition, request)) || Fails(Build(chosen, request)) || Fails(Build(otherwise, request))
    ensures Fails(Build(Where(condition, chosen, otherwise), request))
  {
    hide Fails, BatchRequest.Valid;
    var zero := Zero(condition);
    forall error ensures Fails(ConditionRead(zero, chosen, otherwise, request, Err(error))) {
      FinishFails(ConditionRead(zero, chosen, otherwise, request, Err(error)));
    }
    if Fails(Build(chosen, request)) || Fails(Build(otherwise, request)) {
      forall values: seq<T> ensures Fails(ConditionRead(zero, chosen, otherwise, request, Ok(values))) {
        ChosenFails(zero, values, chosen, otherwise, request);
      }
    }
    AskFails(Build(Where(condition, chosen, otherwise), request), condition, request);
  }

  lemma ChosenFails<T(!new)>(zero: T, values: seq<T>, chosen: Expr<T>, otherwise: Expr<T>, request: BatchRequest)
    requires Ranked(TreeMachine<T>()) && request.Valid(Shape(chosen)) && Shape(chosen) == Shape(otherwise)
    requires Fails(Build(chosen, request)) || Fails(Build(otherwise, request))
    ensures Fails(ConditionRead(zero, chosen, otherwise, request, Ok(values)))
  {
    hide Fails, BatchRequest.Valid;
    forall error ensures Fails(ChosenRead(zero, otherwise, request, values, Err(error))) {
      FinishFails(ChosenRead(zero, otherwise, request, values, Err(error)));
    }
    if Fails(Build(otherwise, request)) {
      forall more: seq<T> ensures Fails(ChosenRead(zero, otherwise, request, values, Ok(more))) {
        OtherwiseFails(zero, values, more, otherwise, request);
      }
    }
    AskFails(ConditionRead(zero, chosen, otherwise, request, Ok(values)), chosen, request);
  }

  lemma OtherwiseFails<T(!new)>(zero: T, values: seq<T>, more: seq<T>, otherwise: Expr<T>, request: BatchRequest)
    requires Ranked(TreeMachine<T>()) && request.Valid(Shape(otherwise)) && Fails(Build(otherwise, request))
    ensures Fails(ChosenRead(zero, otherwise, request, values, Ok(more)))
  {
    hide Fails, BatchRequest.Valid;
    forall error ensures Fails(OtherwiseRead(zero, values, more, Err(error))) {
      FinishFails(OtherwiseRead(zero, values, more, Err(error)));
    }
    AskFails(ChosenRead(zero, otherwise, request, values, Ok(more)), otherwise, request);
  }

  lemma OwnedFails<T(!new)>(e: Expr<T>, request: BatchRequest)
    requires e.Owned? && Ranked(TreeMachine<T>()) && request.Valid(Shape(e.source)) && Fails(Build(e.source, request))
    requires IsIdentity(e.through, Shape(e.source))
    ensures Fails(Build(e, request))
  {
    hide Fails, BatchRequest.Valid;
    ErrorFails<T>();
    AskFails(Build(e, request), e.source, request);
  }

  lemma ErrorFails<T(!new)>()
    requires Ranked(TreeMachine<T>())
    ensures forall error :: Fails<T>(Answered(Err(error)))
  {
    hide Fails;
    forall error ensures Fails<T>(Answered(Err(error))) {
      FinishFails<T>(Answered(Err(error)));
    }
  }

  // ---------------------------------------------------------------------
  // The whole evaluation
  // ---------------------------------------------------------------------

  /** The tree nests no deeper than the frames allow. */
  predicate EvaluationFits<T>(e: Expr<T>) {
    1 + Depth(e) <= MAX_FRAMES
  }

  /** `evaluate_batch` of a tree: its value at every requested coordinate, in request order, and an error
      exactly when the tree nests deeper than the frames allow or an unused step overflows. */
  method EvaluateRequest<T(!new, ==)>(e: Expr<T>, request: BatchRequest) returns (r: Result<seq<T>>)
    requires WellFormed(e) && request.Valid(Shape(e))
    ensures r.Ok? <==> EvaluationFits(e) && Readable(e, request)
    ensures r.Ok? ==> r.value == ValuesAt(Valuation(e), request.Coords(Shape(e)))
    ensures Ranked(TreeMachine<T>()) && (r.Ok? ==> EvalOf(e, request) == r)
  {
    hide Answers, Fails, WellFormed, Valuation, BatchRequest.Valid, BatchRequest.Coords, Readable, Shape, Eval,
         Height;
    TreeRanked<T>();
    if Readable(e, request) {
      RootAnswers(e, request);
    } else {
      RootFails(e, request);
    }
    r := EvaluateBatch(TreeMachine<T>(), Root(e, request));
  }

  lemma RootAnswers<T(!new)>(e: Expr<T>, request: BatchRequest)
    requires WellFormed(e) && request.Valid(Shape(e)) && Readable(e, request) && Ranked(TreeMachine<T>())
    ensures Eval(TreeMachine<T>(), Root(e, request)) == EvalOf(e, request) == Ok(ValuesAt(Valuation(e), request.Coords(Shape(e))))
    ensures Height(TreeMachine<T>(), Root(e, request)) == 1 + Depth(e)
  {
    hide WellFormed, Value, Eval, Height, Depth, Readable, BatchRequest.Valid, BatchRequest.Coords, Shape;
    BuildAnswers(e, request);
    var values := ValuesOf(e, request);
    Finishes(Answered(Ok(values)), values);
    Asks(Root(e, request), e, request, values, Depth(e), values, 1);
  }

  lemma RootFails<T(!new)>(e: Expr<T>, request: BatchRequest)
    requires WellFormed(e) && request.Valid(Shape(e)) && !Readable(e, request) && Ranked(TreeMachine<T>())
    ensures Eval(TreeMachine<T>(), Root(e, request)).Err?
  {
    hide WellFormed, Eval, Readable, BatchRequest.Valid, Shape;
    BuildFails(e, request);
    ErrorFails<T>();
    AskFails(Root(e, request), e, request);
  }

  // ---------------------------------------------------------------------
  // Requests that cannot overflow
  // ---------------------------------------------------------------------

  /** The stride times any machine integer is representable. */
  predicate Scales(stride: int) {
    -STRIDE_BOUND < stride < STRIDE_BOUND
  }

  const STRIDE_BOUND: int := 0x8000_0000_0000_0000

  predicate AllScale(strides: seq<int>) {
    forall i :: 0 <= i < |strides| ==> Scales(strides[i])
  }

  /** Every stride a request can meet is below 2^63, as on any tensor of fewer elements whose maps were
      not scaled past it. */
  predicate SmallStrides<T>(e: Expr<T>) {
    match e
    case Leaf(_, _, _, _) => true
    case Stored(g, _, mapping, _) => AllScale(if mapping.Some? then AffineStrides(mapping.value) else g.strides)
    case Unary(_, source, _) => SmallStrides(source)
    case Binary(_, left, right, _) => SmallStrides(left) && SmallStrides(right)
    case Where(condition, chosen, otherwise) => SmallStrides(condition) && SmallStrides(chosen) && SmallStrides(otherwise)
    case Owned(source, _, through) =>
      if IsIdentity(through, Shape(source)) then SmallStrides(source) else AllScale(AffineStrides(through))
  }

  lemma ScaledStep(step: nat, stride: int)
    requires step <= U64_MAX && Scales(stride)
    ensures InI128(step * stride)
  {
    var size := if stride < 0 then -stride else stride;
    StepBound(step, size);
    assert step * stride == if stride < 0 then -(step * size) else step * size;
  }

  lemma StepBound(step: nat, size: nat)
    requires step <= U64_MAX && size < STRIDE_BOUND
    ensures step * size < I128_BOUND
  {
    MulMonotone(step, U64_MAX, size);
    assert step * size <= U64_MAX * size;
  }

  /** Every interval advances by single indices. */
  predicate UnitAxes(axes: seq<Axis>) {
    forall k :: 0 <= k < |axes| && axes[k].Span? ==> axes[k].step == 1
  }

  predicate UnitSteps(request: BatchRequest) {
    request.kind.Rectangles? ==> forall i :: 0 <= i < |request.kind.rects| ==> UnitAxes(request.kind.rects[i].axes)
  }

  predicate AllFit(strides: seq<int>) {
    forall i :: 0 <= i < |strides| ==> InI128(strides[i])
  }

  lemma MapStridesFit(m: CoordinateMap)
    requires m.Valid()
    ensures AllFit(AffineStrides(m))
  {
    forall i | 0 <= i < |m.axes| ensures InI128(AffineStrides(m)[i]) {
      assert m.axes[i].Fits(m.shape[i]);
    }
  }

  lemma BaseStridesFit(g: Storage)
    requires g.Valid()
    ensures AllFit(g.strides)
  {
    hide Size, Strides;
    StridesBound(g.shape);
  }

  // ---------------------------------------------------------------------
  // Selections that cannot overflow
  // ---------------------------------------------------------------------

  /** Every step of a selection, times the stride of its axis, is representable. */
  predicate AxesSuit(axes: seq<Axis>, strides: seq<int>) {
    |strides| == |axes| ==> forall k :: 0 <= k < |axes| ==> SpanFits(axes[k], strides[k])
  }

  /** No step of a selection overflows on a source or map of a tree. */
  predicate Suits<T>(e: Expr<T>, axes: seq<Axis>) {
    match e
    case Leaf(_, _, _, _) => true
    case Stored(g, _, mapping, _) => AxesSuit(axes, if mapping.Some? then AffineStrides(mapping.value) else g.strides)
    case Unary(_, source, _) => Suits(source, axes)
    case Binary(_, left, right, _) => Suits(left, axes) && Suits(right, axes)
    case Where(condition, chosen, otherwise) =>
      Suits(condition, axes) && Suits(chosen, axes) && Suits(otherwise, axes)
    case Owned(source, _, through) =>
      if IsIdentity(through, Shape(source)) then Suits(source, axes) else AxesSuit(axes, AffineStrides(through))
  }

  lemma RectsFit(rects: seq<Cartesian>, strides: seq<int>)
    requires forall i :: 0 <= i < |rects| ==> AxesSuit(rects[i].axes, strides)
    ensures StepsFit(rects, strides)
  {
    forall i | 0 <= i < |rects| ensures StepFits(rects[i], strides) {
      assert AxesSuit(rects[i].axes, strides);
    }
  }

  /** A request is readable when each of its rectangles suits. */
  lemma {:induction false} EachSuits<T>(e: Expr<T>, request: BatchRequest)
    requires request.kind.Rectangles? ==> forall i :: 0 <= i < |request.kind.rects| ==> Suits(e, request.kind.rects[i].axes)
    ensures Readable(e, request)
    decreases e
  {
    hide StepsFit, AxesSuit;
    match e
    case Leaf(_, _, _, _) =>
    case Stored(g, _, mapping, _) =>
      if request.kind.Rectangles? {
        RectsFit(request.kind.rects, if mapping.Some? then AffineStrides(mapping.value) else g.strides);
      }
    case Unary(_, source, _) => EachSuits(source, request);
    case Binary(_, left, right, _) =>
      EachSuits(left, request);
      EachSuits(right, request);
    case Where(condition, chosen, otherwise) =>
      EachSuits(condition, request);
      EachSuits(chosen, request);
      EachSuits(otherwise, request);
    case Owned(source, _, through) =>
      if IsIdentity(through, Shape(source)) {
        EachSuits(source, request);
      } else if request.kind.Rectangles? {
        RectsFit(request.kind.rects, AffineStrides(through));
      }
  }

  lemma KeptSuit(part: seq<Axis>, axes: seq<Axis>, strides: seq<int>)
    requires AxesSuit(axes, strides) && KeepsSteps(part, axes)
    ensures AxesSuit(part, strides)
  {}

  lemma {:induction false} KeptSuits<T>(e: Expr<T>, part: seq<Axis>, axes: seq<Axis>)
    requires Suits(e, axes) && KeepsSteps(part, axes)
    ensures Suits(e, part)
    decreases e
  {
    hide AxesSuit, KeepsSteps;
    match e
    case Leaf(_, _, _, _) =>
    case Stored(g, _, mapping, _) => KeptSuit(part, axes, if mapping.Some? then AffineStrides(mapping.value) else g.strides);
    case Unary(_, source, _) => KeptSuits(source, part, axes);
    case Binary(_, left, right, _) =>
      KeptSuits(left, part, axes);
      KeptSuits(right, part, axes);
    case Where(condition, chosen, otherwise) =>
      KeptSuits(condition, part, axes);
      KeptSuits(chosen, part, axes);
      KeptSuits(otherwise, part, axes);
    case Owned(source, _, through) =>
      if IsIdentity(through, Shape(source)) {
        KeptSuits(source, part, axes);
      } else {
        KeptSuit(part, axes, AffineStrides(through));
      }
  }

  /** A request that keeps the steps of a suitable selection is readable. */
  lemma SuitsReadable<T>(e: Expr<T>, request: BatchRequest, axes: seq<Axis>)
    requires Suits(e, axes) && RequestKeeps(request, axes)
    ensures Readable(e, request)
  {
    hide Suits, KeepsSteps, Readable;
    if request.kind.Rectangles? {
      forall i | 0 <= i < |request.kind.rects| ensures Suits(e, request.kind.rects[i].axes) {
        KeptSuits(e, request.kind.rects[i].axes, axes);
      }
    }
    EachSuits(e, request);
  }

  lemma UnitSuit(axes: seq<Axis>, strides: seq<int>)
    requires UnitAxes(axes) && AllFit(strides)
    ensures AxesSuit(axes, strides)
  {}

  /** A selection of unit steps suits every accepted tree. */
  lemma {:induction false} UnitSuits<T>(e: Expr<T>, axes: seq<Axis>)
    requires WellFormed(e) && UnitAxes(axes)
    ensures Suits(e, axes)
    decreases e
  {
    hide AxesSuit, AllFit, Size, Sparse, NodeCount, UnitAxes;
    match e
    case Leaf(_, _, _, _) =>
    case Stored(g, _, mapping, _) =>
      BaseStridesFit(g);
      if mapping.Some? {
        MapStridesFit(mapping.value);
      }
      UnitSuit(axes, if mapping.Some? then AffineStrides(mapping.value) else g.strides);
    case Unary(_, source, _) => UnitSuits(source, axes);
    case Binary(_, left, right, _) =>
      UnitSuits(left, axes);
      UnitSuits(right, axes);
    case Where(condition, chosen, otherwise) =>
      UnitSuits(condition, axes);
      UnitSuits(chosen, axes);
      UnitSuits(otherwise, axes);
    case Owned(source, _, through) =>
      if IsIdentity(through, Shape(source)) {
        UnitSuits(source, axes);
      } else {
        MapStridesFit(through);
        UnitSuit(axes, AffineStrides(through));
      }
  }

  lemma SmallSuit(axes: seq<Axis>, shape: seq<nat>, strides: seq<int>)
    requires AllScale(strides) && AxesValid(axes, shape)
    ensures AxesSuit(axes, strides)
  {
    hide Scales;
    forall k | 0 <= k < |axes| && |strides| == |axes| ensures SpanFits(axes[k], strides[k]) {
      assert axes[k].Valid(shape[k]);
      if axes[k].Span? {
        ScaledStep(axes[k].step, strides[k]);
      }
    }
  }

  /** Below strides of 2^63 every selection suits. */
  lemma {:induction false} SmallSuits<T>(e: Expr<T>, axes: seq<Axis>, shape: seq<nat>)
    requires SmallStrides(e) && AxesValid(axes, shape)
    ensures Suits(e, axes)
    decreases e
  {
    hide AxesSuit, AllScale, AxesValid;
    match e
    case Leaf(_, _, _, _) =>
    case Stored(g, _, mapping, _) =>
      SmallSuit(axes, shape, if mapping.Some? then AffineStrides(mapping.value) else g.strides);
    case Unary(_, source, _) => SmallSuits(source, axes, shape);
    case Binary(_, left, right, _) =>
      SmallSuits(left, axes, shape);
      SmallSuits(right, axes, shape);
    case Where(condition, chosen, otherwise) =>
      SmallSuits(condition, axes, shape);
      SmallSuits(chosen, axes, shape);
      SmallSuits(otherwise, axes, shape);
    case Owned(source, _, through) =>
      if IsIdentity(through, Shape(source)) {
        SmallSuits(source, axes, shape);
      } else {
        SmallSuit(axes, shape, AffineStrides(through));
      }
  }

  /** A request of unit steps is readable at every accepted tree. */
  lemma UnitReadable<T>(e: Expr<T>, request: BatchRequest)
    requires WellFormed(e) && UnitSteps(request)
    ensures Readable(e, request)
  {
    hide WellFormed, Suits, UnitAxes, Readable;
    if request.kind.Rectangles? {
      forall i | 0 <= i < |request.kind.rects| ensures Suits(e, request.kind.rects[i].axes) {
        UnitSuits(e, request.kind.rects[i].axes);
      }
    }
    EachSuits(e, request);
  }

  /** With small strides every valid request is readable. */
  lemma SmallReadable<T>(e: Expr<T>, request: BatchRequest)
    requires SmallStrides(e) && request.Valid(Shape(e))
    ensures Readable(e, request)
  {
    hide SmallStrides, Suits, AxesValid, Size, RectCoords, Flats, Readable;
    if request.kind.Rectangles? {
      forall i | 0 <= i < |request.kind.rects| ensures Suits(e, request.kind.rects[i].axes) {
        SmallSuits(e, request.kind.rects[i].axes, Shape(e));
      }
    }
    EachSuits(e, request);
  }

  // ---------------------------------------------------------------------
  // Accepted trees that cannot be evaluated
  // ---------------------------------------------------------------------

  /** `n` times an operation wrapped in an owned expression, as a loop at run time nests them: every
      turn has the same static type. */
  function Tower<T>(op: T -> T, source: Expr<T>, n: nat): Expr<T>
    requires Positive(Shape(source)) && Size(Shape(source)) <= U64_MAX
  {
    if n == 0 then source
    else Owned(Unary(op, Tower(op, source, n - 1), Zero(source)), false, Identity(Shape(source)))
  }

  /** What every turn keeps: the constructors accept it, and it adds two descriptions and two frames. */
  lemma {:induction false} TowerCounts<T>(op: T -> T, source: Expr<T>, n: nat)
    requires source.Leaf? && WellFormed(source) && op(source.zero) == source.zero && 2 * n < MAX_EXPRESSION_NODES
    ensures WellFormed(Tower(op, source, n)) && Shape(Tower(op, source, n)) == Shape(source)
    ensures Zero(Tower(op, source, n)) == source.zero
    ensures NodeCount(Tower(op, source, n)) == Ok(1 + 2 * n) && Depth(Tower(op, source, n)) == 1 + 2 * n
    ensures n > 0 ==>
              var turn := NewUnary(op, Tower(op, source, n - 1), source.zero);
              turn.Ok? && Shape(turn.value) == Shape(source) && NewOwned(turn.value) == Ok(Tower(op, source, n))
  {
    hide Size;
    if n > 0 {
      TowerCounts(op, source, n - 1);
      IdentityGood(Shape(source));
    }
  }

  /** 8192 turns make a description of 16385 nodes, within the bound on descriptions, whose evaluation
      exceeds the bound on frames. */
  lemma AcceptedTooDeep<T>(op: T -> T, source: Expr<T>)
    requires source.Leaf? && WellFormed(source) && op(source.zero) == source.zero
    ensures var e := Tower(op, source, MAX_FRAMES / 2);
            WellFormed(e) && NodeCount(e).Ok? && !EvaluationFits(e)
  {
    TowerCounts(op, source, MAX_FRAMES / 2);
  }

  /** A tree never nests deeper than it has descriptions, so one of fewer than `MAX_FRAMES` evaluates. */
  lemma {:induction false} DepthCounted<T>(e: Expr<T>)
    requires NodeCount(e).Ok?
    ensures Depth(e) <= NodeCount(e).value
    ensures NodeCount(e).value < MAX_FRAMES ==> EvaluationFits(e)
    decreases e
  {
    match e
    case Unary(_, source, _) => DepthCounted(source);
    case Binary(_, left, right, _) =>
      DepthCounted(left);
      DepthCounted(right);
    case Where(condition, chosen, otherwise) =>
      DepthCounted(condition);
      DepthCounted(chosen);
      DepthCounted(otherwise);
    case Owned(source, _, _) => DepthCounted(source);
    case Leaf(_, _, _, _) =>
    case Stored(_, _, _, _) =>
  }
}
