/** The matrix product: bounded tiles, accumulated step by step, equal the naive product. */
module Matmul {
  import opened Radix
  import opened Wrappers
  import opened Request
  import opened Mapping
  import opened Slices
  import opened KeyScans
  import opened BlockData
  import opened MatrixPlans
  import opened CartesianPlans
  import opened TilePlans
  import Schema
  import Trees = Expressions
  import opened Evaluation

  /** Element arithmetic; only the sum needs laws. */
  datatype Arithmetic<!T> = Arithmetic(zero: T, add: (T, T) -> T, mul: (T, T) -> T)

  ghost predicate Monoid<T(!new)>(ops: Arithmetic<T>) {
    && (forall a, b, c :: ops.add(ops.add(a, b), c) == ops.add(a, ops.add(b, c)))
    && forall a :: ops.add(ops.zero, a) == a && ops.add(a, ops.zero) == a
  }

  /** A logical operand: its shape and the value of each coordinate. */
  datatype Operand<!T> = Operand(shape: seq<nat>, at: Coord -> T)

  // ---------------------------------------------------------------------
  // The reference product
  // ---------------------------------------------------------------------

  /** The products of one row and one column over a stretch of the contraction. */
  function Contract<T>(ops: Arithmetic<T>, left: Operand<T>, right: Operand<T>, prefix: Coord, row: nat, column: nat,
                       lo: nat, hi: nat): T
    decreases hi
  {
    if hi <= lo then ops.zero
    else ops.add(Contract(ops, left, right, prefix, row, column, lo, hi - 1),
                 ops.mul(left.at(prefix + [row, hi - 1]), right.at(prefix + [hi - 1, column])))
  }

  /** One output of the naive product. */
  function Product<T>(ops: Arithmetic<T>, left: Operand<T>, right: Operand<T>, inner: nat, cell: Coord): T
    requires |cell| >= 2
  {
    Contract(ops, left, right, cell[..|cell| - 2], cell[|cell| - 2], cell[|cell| - 1], 0, inner)
  }

  /** The running sums of one output: from zero, one product of the row and the column added at a time. */
  ghost function RunningSums<T>(ops: Arithmetic<T>, left: Operand<T>, right: Operand<T>, inner: nat, cell: Coord): (s: seq<T>)
    requires |cell| >= 2
    ensures |s| == inner + 1 && s[0] == ops.zero && s[inner] == Product(ops, left, right, inner, cell)
    ensures forall k: nat :: k < inner ==>
              s[k + 1] == ops.add(s[k], ops.mul(left.at(InRow(cell, k)), right.at(InColumn(cell, k))))
  {
    seq(inner + 1, k requires 0 <= k < inner + 1 =>
      Contract(ops, left, right, cell[..|cell| - 2], cell[|cell| - 2], cell[|cell| - 1], 0, k))
  }

  lemma Regroup<T(!new)>(ops: Arithmetic<T>, a: T, b: T, c: T)
    requires Monoid(ops)
    ensures ops.add(ops.add(a, b), c) == ops.add(a, ops.add(b, c)) && ops.add(a, ops.zero) == a
  {}

  lemma {:induction false} ContractSplit<T(!new)>(ops: Arithmetic<T>, left: Operand<T>, right: Operand<T>,
                                           prefix: Coord,
                                                  row: nat, column: nat, lo: nat, mid: nat, hi: nat)
    requires Monoid(ops) && lo <= mid <= hi
    ensures Contract(ops, left, right, prefix, row, column, lo, hi)
         == ops.add(Contract(ops, left, right, prefix, row, column, lo, mid), Contract(ops, left, right, prefix, row, column, mid, hi))
    decreases hi
  {
    hide Monoid;
    var front := Contract(ops, left, right, prefix, row, column, lo, mid);
    if mid < hi {
      ContractSplit(ops, left, right, prefix, row, column, lo, mid, hi - 1);
      var back := Contract(ops, left, right, prefix, row, column, mid, hi - 1);
      Regroup(ops, front, back, ops.mul(left.at(prefix + [row, hi - 1]), right.at(prefix + [hi - 1, column])));
    } else {
      Regroup(ops, front, front, front);
    }
  }

  /** What the operands of a product satisfy. */
  predicate Compatible(left: seq<nat>, right: seq<nat>, shape: seq<nat>) {
    && |left| == |right| == |shape| >= 2
    && Positive(left) && Positive(right) && Positive(shape)
    && Size(left) <= U64_MAX && Size(right) <= U64_MAX && Size(shape) <= U64_MAX
    && left[|left| - 1] == right[|right| - 2]
    && left[..|left| - 2] == right[..|right| - 2] == shape[..|shape| - 2]
    && shape[|shape| - 2] == left[|left| - 2] && shape[|shape| - 1] == right[|right| - 1]
  }

  /** Only one output shape is possible. */
  function OutputOf(left: seq<nat>, right: seq<nat>): (shape: seq<nat>)
    requires |left| == |right| >= 2
  {
    left[..|left| - 2] + [left[|left| - 2], right[|right| - 1]]
  }

  lemma OnlyOutput(left: seq<nat>, right: seq<nat>, shape: seq<nat>)
    requires |left| == |right| == |shape| >= 2
    requires shape[..|shape| - 2] == left[..|left| - 2]
    requires shape[|shape| - 2] == left[|left| - 2] && shape[|shape| - 1] == right[|right| - 1]
    ensures shape == OutputOf(left, right)
  {
    assert shape == shape[..|shape| - 2] + [shape[|shape| - 2], shape[|shape| - 1]];
  }

  /** A shape of nonzero dimensions with a countable product. */
  method CheckInput(shape: seq<nat>) returns (r: Outcome)
    ensures r.Pass? <==> shape != [] && Positive(shape) && Size(shape) <= U64_MAX
  {
    hide Size;
    if shape == [] || exists i :: 0 <= i < |shape| && shape[i] == 0 {
      return Fail(InvalidSchema);
    }
    var product := Schema.CheckedProduct(shape);
    return if product.None? then Fail(InvalidLayout) else Pass;
  }

  /** `matmul_output_shape`: succeeds exactly for operands that have a product, with its shape. */
  method OutputShape(left: seq<nat>, right: seq<nat>) returns (r: Result<seq<nat>>)
    ensures r.Ok? ==> Compatible(left, right, r.value)
    ensures r.Err? ==> forall shape :: !Compatible(left, right, shape)
    ensures r.Ok? <==>
              && 2 <= |left| == |right| && left[|left| - 1] == right[|right| - 2] && left[..|left| - 2] == right[..|right| - 2]
              && Positive(left) && Size(left) <= U64_MAX && Positive(right) && Size(right) <= U64_MAX
              && Size(left[..|left| - 1] + [right[|right| - 1]]) <= U64_MAX
    ensures r.Ok? ==> |left| >= 2 && |right| >= 1 && r.value == left[..|left| - 1] + [right[|right| - 1]]
  {
    hide Size;
    if |left| < 2 || |right| < 2 {
      return Err(InvalidLayout);
    }
    var checked := CheckInput(left);
    if checked.Fail? {
      return Err(checked.error);
    }
    checked := CheckInput(right);
    if checked.Fail? {
      return Err(checked.error);
    }
    if left[|left| - 1] != right[|right| - 2] {
      return Err(InvalidLayout);
    }
    if left[..|left| - 2] != right[..|right| - 2] {
      return Err(InvalidLayout);
    }
    assert |left| == |left[..|left| - 2]| + 2 && |right| == |right[..|right| - 2]| + 2;
    var shape := OutputOf(left, right);
    OnlyOutputs(left, right);
    assert shape == left[..|left| - 1] + [right[|right| - 1]];
    var product := Schema.CheckedProduct(shape);
    if product.None? {
      return Err(InvalidLayout);
    }
    assert shape[..|shape| - 2] == left[..|left| - 2];
    return Ok(shape);
  }

  lemma OnlyOutputs(left: seq<nat>, right: seq<nat>)
    requires |left| == |right| >= 2 && Positive(left) && Positive(right)
    ensures Positive(OutputOf(left, right))
    ensures forall shape :: Compatible(left, right, shape) ==> shape == OutputOf(left, right)
  {
    hide Size;
    forall shape | Compatible(left, right, shape) ensures shape == OutputOf(left, right) {
      OnlyOutput(left, right, shape);
    }
  }

  // ---------------------------------------------------------------------
  // Operand requests
  // ---------------------------------------------------------------------

  function Fixed(prefix: Coord): (a: seq<Axis>)
    ensures |a| == |prefix| && forall i :: 0 <= i < |a| ==> a[i] == Span(prefix[i], 1, 1)
  {
    seq(|prefix|, i requires 0 <= i < |prefix| => Span(prefix[i], 1, 1))
  }

  function OperandAxes(prefix: Coord, fixed: seq<nat>, start: nat, count: nat, left: bool): seq<Axis> {
    if left then Fixed(prefix) + [Selected(fixed), Span(start, 1, count)]
    else Fixed(prefix) + [Span(start, 1, count), Selected(fixed)]
  }

  /** `operand_request`: one prefix, the fixed rows or columns, a stretch of the contraction. */
  method OperandRequest(shape: seq<nat>, prefix: Coord, fixed: seq<nat>, start: nat, count: nat, left: bool)
    returns (r: Result<BatchRequest>)
    ensures r.Ok? <==> OperandFits(shape, OperandAxes(prefix, fixed, start, count, left))
    ensures r.Ok? ==> r.value.kind == Rectangles([Cartesian(OperandAxes(prefix, fixed, start, count, left))])
    ensures r.Ok? && Positive(shape) ==> r.value.Valid(shape)
    ensures r.Ok? && Positive(shape) ==> r.value.Coords(shape) == Cartesian(OperandAxes(prefix, fixed, start, count, left)).Coords()
  {
    hide Cartesian.Coordinate, Size, AxesValid;
    var axes := OperandAxes(prefix, fixed, start, count, left);
    var slice := NewSlice(shape, axes);
    if slice.Err? {
      return Err(slice.error);
    }
    var rectangle := NewCartesian(slice.value.axes);
    if rectangle.Err? {
      return Err(rectangle.error);
    }
    RectCoordsSnoc([], rectangle.value);
    assert [] + [rectangle.value] == [rectangle.value] && [] + rectangle.value.Coords() == rectangle.value.Coords();
    return Ok(BatchRequest(Rectangles([rectangle.value]), rectangle.value.Len()));
  }

  predicate OperandFits(shape: seq<nat>, axes: seq<Axis>) {
    AxesValid(axes, shape) && Cartesian(axes).Bounded()
  }

  lemma {:induction false} FixedLen(prefix: Coord)
    ensures Cartesian(Fixed(prefix)).Len() == 1 && Cartesian(Fixed(prefix)).Coordinate(0) == prefix
  {
    var lens := Lens(Fixed(prefix));
    SizeOfOnes(lens);
    EmptySize(lens);
    DecodeInShape(0, lens);
  }

  /** The operand rectangle holds `|fixed| * count` coordinates. */
  lemma OperandLen(prefix: Coord, fixed: seq<nat>, start: nat, count: nat, left: bool)
    ensures Cartesian(OperandAxes(prefix, fixed, start, count, left)).Len() == |fixed| * count
  {
    hide Size;
    var axes := OperandAxes(prefix, fixed, start, count, left);
    LensSplitTwo(axes);
    assert axes[..|prefix|] == Fixed(prefix);
    FixedLen(prefix);
  }

  /** The coordinates of a left operand request: rows outside, contraction inside. */
  lemma LeftCell(prefix: Coord, fixed: seq<nat>, start: nat, count: nat, i: nat, k: nat)
    requires i < |fixed| && k < count
    ensures var r := Cartesian(OperandAxes(prefix, fixed, start, count, true));
            0 <= i * count + k < r.Len() && r.Coordinate(i * count + k) == prefix + [fixed[i], start + k]
  {
    hide Size, Cartesian.Coordinate;
    var axes := OperandAxes(prefix, fixed, start, count, true);
    assert axes[..|prefix|] == Fixed(prefix);
    FixedLen(prefix);
    RectangleCell(axes, 0, i, k, i * count + k);
  }

  /** The coordinates of a right operand request: contraction outside, columns inside. */
  lemma RightCell(prefix: Coord, fixed: seq<nat>, start: nat, count: nat, k: nat, j: nat)
    requires j < |fixed| && k < count
    ensures var r := Cartesian(OperandAxes(prefix, fixed, start, count, false));
            0 <= k * |fixed| + j < r.Len() && r.Coordinate(k * |fixed| + j) == prefix + [start + k, fixed[j]]
  {
    hide Size, Cartesian.Coordinate;
    var axes := OperandAxes(prefix, fixed, start, count, false);
    assert axes[..|prefix|] == Fixed(prefix);
    FixedLen(prefix);
    RectangleCell(axes, 0, k, j, k * |fixed| + j);
  }

  /** `contraction_step`: both operand batches fit the batch bound. */
  function ContractionStep(rows: nat, columns: nat): (step: nat)
    requires 0 < rows <= TILE_SIDE && 0 < columns <= TILE_SIDE
    ensures step > 0 && rows * step <= MAX_BATCH_ELEMENTS && columns * step <= MAX_BATCH_ELEMENTS
    ensures Max(rows, columns) * (step + 1) > MAX_BATCH_ELEMENTS
  {
    var side := Max(rows, columns);
    StepFits(rows, side);
    StepFits(columns, side);
    MAX_BATCH_ELEMENTS / side
  }

  lemma StepFits(n: nat, side: nat)
    requires n <= side && 0 < side <= TILE_SIDE
    ensures var step := MAX_BATCH_ELEMENTS / side; step > 0 && n * step <= MAX_BATCH_ELEMENTS
  {
    var step := MAX_BATCH_ELEMENTS / side;
    MulMonotone(n, side, step);
    DivMonotone(side, MAX_BATCH_ELEMENTS, side);
    DivUnique(1, 0, side);
  }

  // ---------------------------------------------------------------------
  // One partial tile
  // ---------------------------------------------------------------------

  /** The operand an expression stands for. */
  function OperandOf<T(==)>(e: Trees.Expr<T>): Operand<T> {
    Operand(Trees.Shape(e), Trees.Valuation(e))
  }

  /** Two accepted expressions and the operands they stand for. */
  ghost predicate Operands<T>(leftTree: Trees.Expr<T>, rightTree: Trees.Expr<T>, left: Operand<T>,
                              right: Operand<T>) {
    && Trees.WellFormed(leftTree) && Trees.WellFormed(rightTree)
    && left == OperandOf(leftTree) && right == OperandOf(rightTree)
  }

  /** Neither operand nests deeper than the frames allow. */
  predicate OperandsEvaluate<T>(leftTree: Trees.Expr<T>, rightTree: Trees.Expr<T>) {
    EvaluationFits(leftTree) && EvaluationFits(rightTree)
  }

  /** Request one operand and evaluate it. */
  method ReadOperand<T(!new, ==)>(e: Trees.Expr<T>, prefix: Coord, fixed: seq<nat>, start: nat, count: nat,
                                  left: bool)
    returns (r: Result<seq<T>>)
    requires Trees.WellFormed(e) && OperandFits(Trees.Shape(e), OperandAxes(prefix, fixed, start, count, left))
    ensures r.Ok? <==> EvaluationFits(e)
    ensures r.Ok? ==> r.value == Evaluated(OperandOf(e), Cartesian(OperandAxes(prefix, fixed, start, count, left)).Coords())
  {
    hide Trees.Valuation, EvaluationFits, Readable, UnitSteps, Cartesian.Len, Cartesian.Coordinate, Size,
         OperandFits;
    var request := OperandRequest(Trees.Shape(e), prefix, fixed, start, count, left);
    OperandUnit(request.value, prefix, fixed, start, count, left);
    UnitReadable(e, request.value);
    r := EvaluateRequest(e, request.value);
    ghost var coords := Cartesian(OperandAxes(prefix, fixed, start, count, left)).Coords();
    assert r.Ok? ==> r.value == Evaluated(OperandOf(e), coords);
  }

  lemma OperandUnit(request: BatchRequest, prefix: Coord, fixed: seq<nat>, start: nat, count: nat, left: bool)
    requires request.kind == Rectangles([Cartesian(OperandAxes(prefix, fixed, start, count, left))])
    ensures UnitSteps(request)
  {
    assert UnitAxes(OperandAxes(prefix, fixed, start, count, left));
  }

  function Evaluated<T>(operand: Operand<T>, coords: seq<Coord>): (v: seq<T>)
    ensures |v| == |coords| && forall i :: 0 <= i < |v| ==> v[i] == operand.at(coords[i])
  {
    seq(|coords|, i requires 0 <= i < |coords| => operand.at(coords[i]))
  }

  /** One entry of the backend's dense product of `a` (rows by `count`) and `b` (`count` by `columns`). */
  function Entry<T>(ops: Arithmetic<T>, a: seq<T>, b: seq<T>, count: nat, columns: nat, i: nat, j: nat, n: nat): T
    requires n <= count && j < columns && |b| == count * columns && i * count + count <= |a|
    decreases n
  {
    if n == 0 then ops.zero
    else
      EntryInside(count, columns, n - 1, j);
      MulMonotone(0, i, count);
      ops.add(Entry(ops, a, b, count, columns, i, j, n - 1), ops.mul(a[i * count + (n - 1)], b[(n - 1) * columns + j]))
  }

  lemma EntryInside(rows: nat, columns: nat, i: nat, j: nat)
    requires i < rows && j < columns
    ensures 0 <= i * columns + j < rows * columns
    ensures i * columns + columns <= rows * columns
  {
    MulMonotone(i + 1, rows, columns);
    assert (i + 1) * columns == i * columns + columns;
    MulMonotone(0, i, columns);
  }

  /** The backend product, row-major. */
  function DenseProduct<T>(ops: Arithmetic<T>, a: seq<T>, b: seq<T>, rows: nat, count: nat, columns: nat): (p: seq<T>)
    requires columns > 0 && |a| == rows * count && |b| == count * columns
    ensures |p| == rows * columns
  {
    seq(rows * columns, o requires 0 <= o < rows * columns =>
      CellInside(o, rows, columns);
      EntryInside(rows, count + 1, o / columns, 0);
      RowInside(rows, count, o / columns);
      Entry(ops, a, b, count, columns, o / columns, o % columns, count))
  }

  lemma RowInside(rows: nat, count: nat, i: nat)
    requires i < rows
    ensures i * count + count <= rows * count
  {
    MulMonotone(i + 1, rows, count);
    assert (i + 1) * count == i * count + count;
  }

  /** The entries of a partial product contract its stretch. */
  lemma {:induction false} EntryContracts<T>(ops: Arithmetic<T>, left: Operand<T>, right: Operand<T>, plan: Plan,
                                             start: nat, count: nat, i: nat, j: nat, n: nat, a: seq<T>, b: seq<T>)
    requires i < |plan.rows| && j < |plan.columns| && n <= count
    requires a == Evaluated(left, Cartesian(OperandAxes(plan.prefix, plan.rows, start, count, true)).Coords())
    requires b == Evaluated(right, Cartesian(OperandAxes(plan.prefix, plan.columns, start, count, false)).Coords())
    ensures |a| == |plan.rows| * count && |b| == count * |plan.columns| && i * count + count <= |a|
    ensures Entry(ops, a, b, count, |plan.columns|, i, j, n)
         == Contract(ops, left, right, plan.prefix, plan.rows[i], plan.columns[j], start, start + n)
    decreases n
  {
    hide Cartesian.Len, Cartesian.Coordinate;
    OperandLen(plan.prefix, plan.rows, start, count, true);
    OperandLen(plan.prefix, plan.columns, start, count, false);
    RowInside(|plan.rows|, count, i);
    if n > 0 {
      EntryContracts(ops, left, right, plan, start, count, i, j, n - 1, a, b);
      LeftCell(plan.prefix, plan.rows, start, count, i, n - 1);
      RightCell(plan.prefix, plan.columns, start, count, n - 1, j);
    }
  }

  // ---------------------------------------------------------------------
  // Accumulating a tile
  // ---------------------------------------------------------------------

  /** The tile holds every entry contracted over a stretch. */
  predicate Contracted<T(==)>(ops: Arithmetic<T>, left: Operand<T>, right: Operand<T>, plan: Plan, tile: seq<T>,
                         lo: nat, hi: nat)
    requires plan.columns != []
  {
    && |tile| == |plan.rows| * |plan.columns|
    && forall o :: 0 <= o < |tile| ==> tile[o] == CellContract(ops, left, right, plan, o, lo, hi)
  }

  function CellContract<T>(ops: Arithmetic<T>, left: Operand<T>, right: Operand<T>, plan: Plan, o: nat, lo: nat,
                           hi: nat): T
    requires plan.columns != [] && o < |plan.rows| * |plan.columns|
  {
    CellInside(o, |plan.rows|, |plan.columns|);
    Contract(ops, left, right, plan.prefix, plan.rows[o / |plan.columns|], plan.columns[o % |plan.columns|], lo, hi)
  }

  lemma PartialContracted<T>(ops: Arithmetic<T>, left: Operand<T>, right: Operand<T>, plan: Plan, start: nat,
                             count: nat, a: seq<T>, b: seq<T>)
    requires plan.columns != []
    requires a == Evaluated(left, Cartesian(OperandAxes(plan.prefix, plan.rows, start, count, true)).Coords())
    requires b == Evaluated(right, Cartesian(OperandAxes(plan.prefix, plan.columns, start, count, false)).Coords())
    ensures |a| == |plan.rows| * count && |b| == count * |plan.columns|
    ensures Contracted(ops, left, right, plan, DenseProduct(ops, a, b, |plan.rows|, count, |plan.columns|), start, start + count)
  {
    hide Cartesian.Len, Cartesian.Coordinate, Entry, Contract;
    OperandLen(plan.prefix, plan.rows, start, count, true);
    OperandLen(plan.prefix, plan.columns, start, count, false);
    var tile := DenseProduct(ops, a, b, |plan.rows|, count, |plan.columns|);
    forall o | 0 <= o < |tile| ensures tile[o] == CellContract(ops, left, right, plan, o, start, start + count) {
      CellInside(o, |plan.rows|, |plan.columns|);
      EntryContracts(ops, left, right, plan, start, count, o / |plan.columns|, o % |plan.columns|, count, a, b);
    }
  }

  /** `combine_partial`: the first partial is taken, later ones are added in place, entry by entry. */
  method CombinePartial<T>(ops: Arithmetic<T>, accumulated: Option<array<T>>, partial: seq<T>,
                           expected: nat) returns (r: Result<array<T>>)
    modifies if accumulated.Some? then {accumulated.value} else {}
    ensures r.Ok? <==> |partial| == expected && (accumulated.Some? ==> accumulated.value.Length == expected)
    ensures r.Err? && accumulated.Some? ==> accumulated.value[..] == old(accumulated.value[..])
    ensures r.Ok? && accumulated.None? ==> fresh(r.value) && r.value[..] == partial
    ensures r.Ok? && accumulated.Some? ==> r.value == accumulated.value
    ensures r.Ok? && accumulated.Some? ==>
              forall o :: 0 <= o < expected ==> r.value[o] == ops.add(old(accumulated.value[o]), partial[o])
  {
    if |partial| != expected || (accumulated.Some? && accumulated.value.Length != expected) {
      return Err(InvalidLayout);
    }
    match accumulated {
      case None =>
        var first := new T[expected](o requires 0 <= o < expected => partial[o]);
        return Ok(first);
      case Some(values) =>
        for o := 0 to expected
          invariant forall k :: 0 <= k < o ==> values[k] == ops.add(old(values[k]), partial[k])
          invariant forall k :: o <= k < expected ==> values[k] == old(values[k])
        {
          values[o] := ops.add(values[o], partial[o]);
        }
        return Ok(values);
    }
  }

  lemma Accumulates<T(!new)>(ops: Arithmetic<T>, left: Operand<T>, right: Operand<T>, plan: Plan,
                             before: seq<T>, partial: seq<T>, after: seq<T>, mid: nat, hi: nat)
    requires Monoid(ops) && plan.columns != [] && mid <= hi
    requires Contracted(ops, left, right, plan, before, 0, mid) && Contracted(ops, left, right, plan, partial, mid, hi)
    requires |after| == |before| && forall o :: 0 <= o < |after| ==> after[o] == ops.add(before[o], partial[o])
    ensures Contracted(ops, left, right, plan, after, 0, hi)
  {
    hide Contract, Monoid;
    forall o | 0 <= o < |after| ensures after[o] == CellContract(ops, left, right, plan, o, 0, hi) {
      CellInside(o, |plan.rows|, |plan.columns|);
      ContractSplit(ops, left, right, plan.prefix, plan.rows[o / |plan.columns|], plan.columns[o % |plan.columns|], 0, mid, hi);
    }
  }

  /** The plan's prefix, rows and columns lie in the operands. */
  predicate PlanInside(plan: Plan, shape: seq<nat>) {
    && |shape| == |plan.prefix| + 2
    && (forall i :: 0 <= i < |plan.prefix| ==> plan.prefix[i] < shape[i])
    && (forall i :: 0 <= i < |plan.rows| ==> plan.rows[i] < shape[|shape| - 2])
    && forall j :: 0 <= j < |plan.columns| ==> plan.columns[j] < shape[|shape| - 1]
  }

  lemma OperandsFit(left: seq<nat>, right: seq<nat>, shape: seq<nat>, plan: Plan, start: nat, count: nat)
    requires Compatible(left, right, shape) && PlanInside(plan, shape) && TileShaped(plan)
    requires count > 0 && start + count <= left[|left| - 1] && count <= ContractionStep(|plan.rows|, |plan.columns|)
    ensures OperandFits(left, OperandAxes(plan.prefix, plan.rows, start, count, true))
    ensures OperandFits(right, OperandAxes(plan.prefix, plan.columns, start, count, false))
  {
    hide Cartesian.Len, Size, Positive, Ascending;
    var n := |plan.prefix|;
    var step := ContractionStep(|plan.rows|, |plan.columns|);
    OperandLen(plan.prefix, plan.rows, start, count, true);
    OperandLen(plan.prefix, plan.columns, start, count, false);
    ScaleAtMost(|plan.rows|, count, step);
    ScaleAtMost(|plan.columns|, count, step);
    PrefixInside(left, right, shape, plan);
  }

  lemma ScaleAtMost(a: nat, b: nat, c: nat)
    requires b <= c
    ensures a * b <= a * c
  {}

  lemma PrefixInside(left: seq<nat>, right: seq<nat>, shape: seq<nat>, plan: Plan)
    requires Compatible(left, right, shape) && PlanInside(plan, shape)
    ensures forall i :: 0 <= i < |plan.prefix| ==> plan.prefix[i] < left[i] && plan.prefix[i] < right[i]
  {
    hide Size;
    forall i | 0 <= i < |plan.prefix| ensures plan.prefix[i] < left[i] && plan.prefix[i] < right[i] {
      assert left[..|left| - 2][i] == right[..|right| - 2][i] == shape[..|shape| - 2][i];
    }
  }

  /** Read both operands and multiply: the partial product of one stretch of the contraction. */
  method PartialProduct<T(!new, ==)>(ops: Arithmetic<T>, leftTree: Trees.Expr<T>, rightTree: Trees.Expr<T>,
                                     ghost left: Operand<T>, ghost right: Operand<T>, ghost shape: seq<nat>, plan: Plan,
                                     start: nat, count: nat) returns (r: Result<seq<T>>)
    requires Operands(leftTree, rightTree, left, right)
    requires Compatible(left.shape, right.shape, shape) && PlanInside(plan, shape) && TileShaped(plan)
    requires count > 0 && start + count <= left.shape[|left.shape| - 1] && count <= ContractionStep(|plan.rows|, |plan.columns|)
    ensures r.Ok? <==> OperandsEvaluate(leftTree, rightTree)
    ensures r.Ok? ==> Contracted(ops, left, right, plan, r.value, start, start + count)
  {
    hide Trees.WellFormed, Trees.Valuation, EvaluationFits, Cartesian.Len, Cartesian.Coordinate, Entry, Contracted,
         Size, OperandFits, PlanInside, ContractionStep;
    OperandsFit(left.shape, right.shape, shape, plan, start, count);
    var a := ReadOperand(leftTree, plan.prefix, plan.rows, start, count, true);
    if a.Err? {
      return Err(a.error);
    }
    var b := ReadOperand(rightTree, plan.prefix, plan.columns, start, count, false);
    if b.Err? {
      return Err(b.error);
    }
    PartialContracted(ops, left, right, plan, start, count, a.value, b.value);
    return Ok(DenseProduct(ops, a.value, b.value, |plan.rows|, count, |plan.columns|));
  }

  /** One step of the tile loop: read both operands, multiply, accumulate. */
  method TileStep<T(!new, ==)>(ops: Arithmetic<T>, leftTree: Trees.Expr<T>, rightTree: Trees.Expr<T>, ghost left: Operand<T>,
                               ghost right: Operand<T>, ghost shape: seq<nat>, plan: Plan,
                               accumulated: Option<array<T>>, start: nat, count: nat) returns (r: Result<array<T>>)
    requires Operands(leftTree, rightTree, left, right)
    requires Monoid(ops) && Compatible(left.shape, right.shape, shape) && PlanInside(plan, shape) && TileShaped(plan)
    requires count > 0 && start + count <= left.shape[|left.shape| - 1] && count <= ContractionStep(|plan.rows|, |plan.columns|)
    requires accumulated.None? ==> start == 0
    requires accumulated.Some? ==> Contracted(ops, left, right, plan, accumulated.value[..], 0, start)
    modifies if accumulated.Some? then {accumulated.value} else {}
    ensures r.Ok? <==> OperandsEvaluate(leftTree, rightTree)
    ensures r.Ok? ==> if accumulated.Some? then r.value == accumulated.value else fresh(r.value)
    ensures r.Ok? ==> Contracted(ops, left, right, plan, r.value[..], 0, start + count)
  {
    hide Trees.WellFormed, Trees.Valuation, Trees.Shape, OperandsEvaluate, CellContract, Size, Monoid, PlanInside,
         ContractionStep;
    var partial := PartialProduct(ops, leftTree, rightTree, left, right, shape, plan, start, count);
    if partial.Err? {
      return Err(partial.error);
    }
    ghost var before := if accumulated.Some? then accumulated.value[..] else [];
    r := CombinePartial(ops, accumulated, partial.value, |plan.rows| * |plan.columns|);
    if accumulated.Some? {
      Accumulates(ops, left, right, plan, before, partial.value, r.value[..], start, start + count);
    }
  }

  /** One tile: its entries are the full contractions of its rows and columns. */
  method ComputeTile<T(!new, ==)>(ops: Arithmetic<T>, leftTree: Trees.Expr<T>, rightTree: Trees.Expr<T>, ghost left: Operand<T>,
                                  ghost right: Operand<T>, ghost shape: seq<nat>, plan: Plan) returns (r: Result<seq<T>>)
    requires Operands(leftTree, rightTree, left, right)
    requires Monoid(ops) && Compatible(left.shape, right.shape, shape) && PlanInside(plan, shape) && TileShaped(plan)
    ensures r.Ok? <==> OperandsEvaluate(leftTree, rightTree)
    ensures r.Ok? ==> Contracted(ops, left, right, plan, r.value, 0, left.shape[|left.shape| - 1])
  {
    hide Trees.WellFormed, Trees.Valuation, Trees.Shape, OperandsEvaluate, Contract, Contracted, Monoid, PlanInside,
         Size;
    var inner := Trees.Shape(leftTree)[|Trees.Shape(leftTree)| - 1];
    var accumulated: Option<array<T>> := None;
    var step := ContractionStep(|plan.rows|, |plan.columns|);
    var start: nat := 0;
    while start < inner
      invariant 0 <= start <= inner
      invariant accumulated.None? ==> start == 0
      invariant accumulated.Some? ==> fresh(accumulated.value)
      invariant accumulated.Some? ==> Contracted(ops, left, right, plan, accumulated.value[..], 0, start)
      invariant accumulated.Some? ==> OperandsEvaluate(leftTree, rightTree)
      decreases inner - start
    {
      var count := Min(inner - start, step);
      var next := TileStep(ops, leftTree, rightTree, left, right, shape, plan, accumulated, start, count);
      if next.Err? {
        return Err(next.error);
      }
      accumulated := Some(next.value);
      start := start + count;
    }
    return Ok(accumulated.value[..]);
  }

  // ---------------------------------------------------------------------
  // The whole request
  // ---------------------------------------------------------------------

  /** The naive product at every target. */
  ghost function Products<T>(ops: Arithmetic<T>, left: Operand<T>, right: Operand<T>, inner: nat,
                             targets: seq<Coord>): (v: seq<T>)
    requires RankAtLeastTwo(targets)
    ensures |v| == |targets| && forall p :: 0 <= p < |v| ==> v[p] == Product(ops, left, right, inner, targets[p])
  {
    seq(|targets|, p requires 0 <= p < |targets| => Product(ops, left, right, inner, targets[p]))
  }

  predicate RankAtLeastTwo(targets: seq<Coord>) {
    forall p :: 0 <= p < |targets| ==> |targets[p]| >= 2
  }

  predicate AllInside(targets: seq<Coord>, shape: seq<nat>) {
    forall p :: 0 <= p < |targets| ==> InShape(targets[p], shape)
  }

  /** A plan that serves in-shape targets only reads inside the operands. */
  lemma ServesInside(plan: Plan, targets: seq<Coord>, shape: seq<nat>)
    requires Serves(plan, targets) && AllInside(targets, shape) && |shape| >= 2
    ensures PlanInside(plan, shape) && TileShaped(plan)
  {
    hide WriteServes, Writes;
    assert RowRequested(plan.prefix, plan.rows[0], targets);
    var first :| 0 <= first < |targets| && InRowOf(targets[first], plan.prefix, plan.rows[0]);
    forall i | 0 <= i < |plan.prefix| ensures plan.prefix[i] < shape[i] {
      assert targets[first][..|plan.prefix|][i] == targets[first][i];
    }
    forall i | 0 <= i < |plan.rows| ensures plan.rows[i] < shape[|shape| - 2] {
      assert RowRequested(plan.prefix, plan.rows[i], targets);
    }
    forall j | 0 <= j < |plan.columns| ensures plan.columns[j] < shape[|shape| - 1] {
      assert ColumnRequested(plan.prefix, plan.columns[j], targets);
    }
  }

  /** The tile entry behind a write is the naive product of its target. */
  lemma EntryIsProduct<T>(ops: Arithmetic<T>, left: Operand<T>, right: Operand<T>, inner: nat, plan: Plan, tile: seq<T>,
                          write: (nat, nat), targets: seq<Coord>)
    requires plan.columns != [] && Contracted(ops, left, right, plan, tile, 0, inner) && WriteServes(plan, write, targets)
    ensures |targets[write.0]| >= 2 && write.1 < |tile|
    ensures tile[write.1] == Product(ops, left, right, inner, targets[write.0])
  {
    hide Contract;
    var cell := targets[write.0];
    CellInside(write.1, |plan.rows|, |plan.columns|);
    assert cell[..|cell| - 2] == plan.prefix;
  }

  /** What the values hold once the first plans have been scattered. */
  ghost predicate Scattered<T>(plans: seq<Plan>, n: nat, values: seq<T>, want: seq<T>)
    requires n <= |plans|
  {
    && |values| == |want|
    && forall p :: 0 <= p < |want| && Written(plans[..n], p) ==> values[p] == want[p]
  }

  lemma TileCopies<T>(ops: Arithmetic<T>, left: Operand<T>, right: Operand<T>, inner: nat, plan: Plan, tile: seq<T>,
                      targets: seq<Coord>)
    requires Serves(plan, targets) && plan.columns != [] && RankAtLeastTwo(targets)
    requires Contracted(ops, left, right, plan, tile, 0, inner)
    ensures var writes := Writes(plan.scatter, |plan.columns|);
            && WritesFit(writes, |targets|, |tile|)
            && forall k :: 0 <= k < |writes| ==> tile[writes[k].1] == Products(ops, left, right, inner, targets)[writes[k].0]
  {
    hide Contract, CellOf, Writes, Requested, TileShaped, Contracted, WriteServes, Product;
    var writes := Writes(plan.scatter, |plan.columns|);
    forall k | 0 <= k < |writes|
      ensures writes[k].0 < |targets| && writes[k].1 < |tile|
      ensures tile[writes[k].1] == Product(ops, left, right, inner, targets[writes[k].0])
    {
      WriteInside(plan, writes[k], targets);
      EntryIsProduct(ops, left, right, inner, plan, tile, writes[k], targets);
    }
  }

  lemma WriteInside(plan: Plan, write: (nat, nat), targets: seq<Coord>)
    requires WriteServes(plan, write, targets)
    ensures write.0 < |targets|
  {}

  lemma ScatteredNext<T>(plans: seq<Plan>, n: nat, before: seq<T>, after: seq<T>, want: seq<T>)
    requires n < |plans| && Scattered(plans, n, before, want) && |after| == |before|
    requires var writes := Writes(plans[n].scatter, |plans[n].columns|);
             forall k :: 0 <= k < |writes| ==> writes[k].0 < |want| && after[writes[k].0] == want[writes[k].0]
    requires forall p :: 0 <= p < |before| ==> after[p] == before[p] || after[p] == want[p]
    ensures Scattered(plans, n + 1, after, want)
  {
    hide Writes;
    forall p | 0 <= p < |want| && Written(plans[..n + 1], p) ensures after[p] == want[p] {
      var i :| 0 <= i < n + 1 && WritesTo(plans[..n + 1][i], p);
      if i < n {
        assert plans[..n][i] == plans[..n + 1][i];
        assert Written(plans[..n], p);
      }
    }
  }

  /** Compute one tile and scatter it. */
  method ScatterTile<T(!new, ==)>(ops: Arithmetic<T>, leftTree: Trees.Expr<T>, rightTree: Trees.Expr<T>, ghost left: Operand<T>,
                                  ghost right: Operand<T>, ghost shape: seq<nat>, plans: seq<Plan>, n: nat,
                                  ghost targets: seq<Coord>, values: array<T>) returns (r: Outcome)
    requires Operands(leftTree, rightTree, left, right)
    requires Monoid(ops) && Compatible(left.shape, right.shape, shape) && n < |plans|
    requires ServesExactly(plans, targets) && AllInside(targets, shape) && RankAtLeastTwo(targets)
    requires Scattered(plans, n, values[..], Products(ops, left, right, left.shape[|left.shape| - 1], targets))
    modifies values
    ensures r.Pass? <==> OperandsEvaluate(leftTree, rightTree)
    ensures r.Pass? ==> Scattered(plans, n + 1, values[..], Products(ops, left, right, left.shape[|left.shape| - 1], targets))
  {
    hide Trees.WellFormed, Trees.Valuation, Trees.Shape, OperandsEvaluate, Contract, Contracted, Monoid, Serves,
         Written, Writes, Apply, Copies, Scattered, Product, Size, PlanInside;
    ghost var want := Products(ops, left, right, left.shape[|left.shape| - 1], targets);
    ghost var before := values[..];
    var plan := plans[n];
    ServesInside(plan, targets, shape);
    var computed := ComputeTile(ops, leftTree, rightTree, left, right, shape, plan);
    if computed.Err? {
      return Fail(computed.error);
    }
    var tile := computed.value;
    TileCopies(ops, left, right, left.shape[|left.shape| - 1], plan, tile, targets);
    ScatteredLength(plans, n, before, want);
    Each(plan.scatter, |plan.columns|, tile, values);
    CopiesExpected(before, Writes(plan.scatter, |plan.columns|), tile, want);
    ScatteredNext(plans, n, before, values[..], want);
    return Pass;
  }

  lemma ScatteredLength<T>(plans: seq<Plan>, n: nat, values: seq<T>, want: seq<T>)
    requires n <= |plans| && Scattered(plans, n, values, want)
    ensures |values| == |want|
  {}

  lemma NothingScattered<T>(plans: seq<Plan>, values: seq<T>, want: seq<T>)
    requires |values| == |want|
    ensures Scattered(plans, 0, values, want)
  {}

  lemma AllScattered<T>(plans: seq<Plan>, values: seq<T>, want: seq<T>, targets: seq<Coord>)
    requires Scattered(plans, |plans|, values, want) && ServesExactly(plans, targets) && |want| == |targets|
    ensures values == want
  {
    hide AllServe, WriteCount;
    assert plans[..|plans|] == plans;
  }

  /** The row of an output at a contraction index. */
  function InRow(cell: Coord, k: nat): Coord
    requires |cell| >= 2
  {
    cell[..|cell| - 2] + [cell[|cell| - 2], k]
  }

  /** The column of an output at a contraction index. */
  function InColumn(cell: Coord, k: nat): Coord
    requires |cell| >= 2
  {
    cell[..|cell| - 2] + [k, cell[|cell| - 1]]
  }

  /** How one output adds up: its row times its column, one product at a time. */
  ghost predicate AddsUp<T>(ops: Arithmetic<T>, leftTree: Trees.Expr<T>, rightTree: Trees.Expr<T>, inner: nat,
                            cell: Coord, sums: seq<T>, value: T)
    requires |cell| >= 2
  {
    && |sums| == inner + 1 && sums[0] == ops.zero && sums[inner] == value
    && forall k: nat :: k < inner ==>
         sums[k + 1] == ops.add(sums[k], ops.mul(Trees.Value(leftTree, InRow(cell, k)), Trees.Value(rightTree, InColumn(cell, k))))
  }

  lemma ProductAddsUp<T(!new)>(ops: Arithmetic<T>, leftTree: Trees.Expr<T>, rightTree: Trees.Expr<T>, inner: nat,
                               cell: Coord)
    requires |cell| >= 2
    ensures var left, right := OperandOf(leftTree), OperandOf(rightTree);
            AddsUp(ops, leftTree, rightTree, inner, cell, RunningSums(ops, left, right, inner, cell),
                   Product(ops, left, right, inner, cell))
  {
    hide Trees.Value, Product, Contract;
    var left, right := OperandOf(leftTree), OperandOf(rightTree);
    var sums := RunningSums(ops, left, right, inner, cell);
    forall k: nat | k < inner
      ensures sums[k + 1] == ops.add(sums[k], ops.mul(Trees.Value(leftTree, InRow(cell, k)), Trees.Value(rightTree, InColumn(cell, k))))
    {
      assert left.at(InRow(cell, k)) == Trees.Value(leftTree, InRow(cell, k));
      assert right.at(InColumn(cell, k)) == Trees.Value(rightTree, InColumn(cell, k));
    }
  }

  /** The running sums of every requested output. */
  ghost function AllSums<T>(ops: Arithmetic<T>, left: Operand<T>, right: Operand<T>, inner: nat, targets: seq<Coord>)
    : (s: seq<seq<T>>)
    requires RankAtLeastTwo(targets)
    ensures |s| == |targets| && forall i :: 0 <= i < |s| ==> s[i] == RunningSums(ops, left, right, inner, targets[i])
  {
    seq(|targets|, i requires 0 <= i < |targets| => RunningSums(ops, left, right, inner, targets[i]))
  }

  lemma Unfolded<T(!new)>(ops: Arithmetic<T>, leftTree: Trees.Expr<T>, rightTree: Trees.Expr<T>, inner: nat,
                          targets: seq<Coord>, values: seq<T>, sums: seq<seq<T>>)
    requires RankAtLeastTwo(targets) && |targets| == |values| == |sums|
    requires forall i :: 0 <= i < |targets| ==> AddsUp(ops, leftTree, rightTree, inner, targets[i], sums[i], values[i])
    ensures forall i :: 0 <= i < |targets| ==>
              var cell := targets[i];
              && |sums[i]| == inner + 1 && sums[i][0] == ops.zero && sums[i][inner] == values[i]
              && forall k: nat :: k < inner ==>
                   sums[i][k + 1] == ops.add(sums[i][k], ops.mul(Trees.Value(leftTree, InRow(cell, k)), Trees.Value(rightTree, InColumn(cell, k))))
  {
    hide Trees.Value, InRow, InColumn;
  }

  lemma OutputsAddUp<T(!new)>(ops: Arithmetic<T>, leftTree: Trees.Expr<T>, rightTree: Trees.Expr<T>, inner: nat,
                              targets: seq<Coord>, values: seq<T>, sums: seq<seq<T>>)
    requires RankAtLeastTwo(targets)
    requires values == Products(ops, OperandOf(leftTree), OperandOf(rightTree), inner, targets)
    requires sums == AllSums(ops, OperandOf(leftTree), OperandOf(rightTree), inner, targets)
    ensures |targets| == |values| == |sums|
    ensures forall i :: 0 <= i < |targets| ==>
              var cell := targets[i];
              && |sums[i]| == inner + 1 && sums[i][0] == ops.zero && sums[i][inner] == values[i]
              && forall k: nat :: k < inner ==>
                   sums[i][k + 1] == ops.add(sums[i][k], ops.mul(Trees.Value(leftTree, InRow(cell, k)), Trees.Value(rightTree, InColumn(cell, k))))
  {
    hide Product, AddsUp, Trees.Value;
    forall i | 0 <= i < |targets| ensures AddsUp(ops, leftTree, rightTree, inner, targets[i], sums[i], values[i]) {
      ProductAddsUp(ops, leftTree, rightTree, inner, targets[i]);
    }
    Unfolded(ops, leftTree, rightTree, inner, targets, values, sums);
  }

  /** `build`: every requested value is the naive product of its row and column; `sums` shows how each
      adds up. */
  method Build<T(!new, ==)>(ops: Arithmetic<T>, leftTree: Trees.Expr<T>, rightTree: Trees.Expr<T>, m: CoordinateMap,
                            request: BatchRequest, shape: seq<nat>, strides: seq<nat>)
    returns (r: Result<seq<T>>, ghost sums: seq<seq<T>>)
    requires Trees.WellFormed(leftTree) && Trees.WellFormed(rightTree)
    requires Monoid(ops) && Compatible(Trees.Shape(leftTree), Trees.Shape(rightTree), shape)
    requires m.Good(Size(shape)) && |m.shape| <= MAX_RANK && request.Valid(m.shape) && strides == Strides(shape)
    ensures r.Ok? <==> PrefixesFit(m, request, shape) && (request.len == 0 || OperandsEvaluate(leftTree, rightTree))
    ensures RankAtLeastTwo(Targets(m, request, shape))
    ensures r.Ok? ==> r.value == Products(ops, OperandOf(leftTree), OperandOf(rightTree),
                                          Trees.Shape(leftTree)[|Trees.Shape(leftTree)| - 1], Targets(m, request, shape))
    ensures r.Ok? ==> |r.value| == |sums| == request.len
    ensures r.Ok? ==> forall i :: 0 <= i < |sums| ==>
              |sums[i]| == Trees.Shape(leftTree)[|Trees.Shape(leftTree)| - 1] + 1
              && sums[i][0] == ops.zero && sums[i][|sums[i]| - 1] == r.value[i]
    ensures r.Ok? ==> forall i, k: nat :: 0 <= i < |sums| && k < |sums[i]| - 1 ==>
              var cell := Targets(m, request, shape)[i];
              sums[i][k + 1] == ops.add(sums[i][k], ops.mul(Trees.Value(leftTree, InRow(cell, k)), Trees.Value(rightTree, InColumn(cell, k))))
  {
    hide Trees.WellFormed, Trees.Valuation, Trees.Value, Trees.Shape, OperandsEvaluate, Monoid, CoordinateMap.Offset,
         Strides, Size, ServesExactly, PrefixesFit, Product, Scattered, BatchRequest.Coords, Decode, AddsUp;
    ghost var targets := Targets(m, request, shape);
    ghost var left, right := OperandOf(leftTree), OperandOf(rightTree);
    sums := [];
    TargetsAllInside(m, request, shape);
    var planned := PlanRequest(m, request, shape, strides);
    if planned.Err? {
      return Err(planned.error), sums;
    }
    var plans := planned.value;
    SomePlan(plans, targets);
    var zero := ops.zero;
    var values := new T[request.len](_ => zero);
    ghost var want := Products(ops, left, right, left.shape[|left.shape| - 1], targets);
    NothingScattered(plans, values[..], want);
    for n := 0 to |plans|
      invariant Scattered(plans, n, values[..], want) && (n > 0 ==> OperandsEvaluate(leftTree, rightTree))
    {
      var scattered := ScatterTile(ops, leftTree, rightTree, left, right, shape, plans, n, targets, values);
      if scattered.Fail? {
        return Err(scattered.error), sums;
      }
    }
    AllScattered(plans, values[..], want, targets);
    ghost var inner := left.shape[|left.shape| - 1];
    sums := AllSums(ops, left, right, inner, targets);
    OutputsAddUp(ops, leftTree, rightTree, inner, targets, values[..], sums);
    return Ok(values[..]), sums;
  }

  /** There is a tile to compute exactly when something is requested. */
  lemma SomePlan(plans: seq<Plan>, targets: seq<Coord>)
    requires ServesExactly(plans, targets)
    ensures plans == [] <==> targets == []
  {
    hide Serves, WritesTo;
    if targets != [] {
      assert Written(plans, 0);
    }
    if plans != [] {
      assert Serves(plans[0], targets);
      ServedTargets(plans[0], targets);
    }
  }

  lemma ServedTargets(plan: Plan, targets: seq<Coord>)
    requires Serves(plan, targets)
    ensures targets != []
  {
    hide WriteServes, Writes;
    assert RowRequested(plan.prefix, plan.rows[0], targets);
  }

  lemma TargetsAllInside(m: CoordinateMap, request: BatchRequest, shape: seq<nat>)
    requires m.Valid() && request.Valid(m.shape) && Positive(shape) && |shape| >= 2
    ensures AllInside(Targets(m, request, shape), shape) && RankAtLeastTwo(Targets(m, request, shape))
  {
    forall i | 0 <= i < request.len ensures InShape(Targets(m, request, shape)[i], shape) {
      TargetsInside(m, request, shape, i);
    }
  }
}
