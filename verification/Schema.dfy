/** Shapes, strides and block shapes: how storage geometry is derived and checked. */
module Schema {
  import opened Radix
  import opened Wrappers
  import opened Geometry
  import opened Odometer

  lemma {:induction false} ZeroSize(dims: seq<nat>, i: nat)
    requires i < |dims| && dims[i] == 0
    ensures Size(dims) == 0
  {
    if i > 0 {
      ZeroSize(dims[1..], i - 1);
    }
  }

  lemma {:induction false} PrefixSize(dims: seq<nat>, k: nat)
    requires Positive(dims) && k <= |dims|
    ensures 0 < Size(dims[..k]) <= Size(dims)
    ensures 0 < Size(dims[k..]) <= Size(dims)
  {
    assert dims == dims[..k] + dims[k..];
    SizeConcat(dims[..k], dims[k..]);
    SizePositive(dims[..k]);
    SizePositive(dims[k..]);
    MulMonotone(1, Size(dims[k..]), Size(dims[..k]));
    MulMonotone(1, Size(dims[..k]), Size(dims[k..]));
  }

  /** No leading product overflows; a zero dimension does not undo an overflow before it. */
  predicate ProductFits(dims: seq<nat>) {
    forall k :: 0 <= k <= |dims| ==> Size(dims[..k]) <= U64_MAX
  }

  /** For nonzero dimensions only the whole product matters. */
  lemma PositiveProduct(dims: seq<nat>)
    requires Positive(dims)
    ensures ProductFits(dims) <==> Size(dims) <= U64_MAX
  {
    hide Size;
    assert dims[..|dims|] == dims;
    forall k | 0 <= k <= |dims| ensures Size(dims[..k]) <= Size(dims) {
      PrefixSize(dims, k);
    }
  }

  /** The checked product is the element count, and fails exactly when a leading product overflows. */
  method CheckedProduct(dims: seq<nat>) returns (r: Option<nat>)
    ensures r.Some? <==> ProductFits(dims)
    ensures r.Some? ==> r.value == Size(dims)
    ensures Positive(dims) ==> (r.Some? <==> Size(dims) <= U64_MAX)
  {
    hide Size;
    if Positive(dims) {
      PositiveProduct(dims);
    }
    var n := 1;
    NoDims(dims);
    for i := 0 to |dims|
      invariant n == Size(dims[..i]) && forall k :: 0 <= k <= i ==> Size(dims[..k]) <= U64_MAX
    {
      SizeNext(dims, i);
      if n * dims[i] > U64_MAX {
        return None;
      }
      n := n * dims[i];
    }
    assert dims[..|dims|] == dims;
    return Some(n);
  }

  lemma NoDims(dims: seq<nat>)
    ensures Size(dims[..0]) == 1
  {}

  lemma SizeNext(dims: seq<nat>, i: nat)
    requires i < |dims|
    ensures Size(dims[..i + 1]) == Size(dims[..i]) * dims[i]
  {
    assert dims[..i + 1] == dims[..i] + [dims[i]];
    SizeConcat(dims[..i], [dims[i]]);
    assert [dims[i]][1..] == [] && Size([dims[i]]) == dims[i];
  }

  /** Each stride is the next one times the next dimension, and none exceeds the element count. */
  lemma NextStride(shape: seq<nat>, i: nat)
    requires Positive(shape) && i < |shape|
    ensures i + 1 < |shape| ==> Strides(shape)[i] == Strides(shape)[i + 1] * shape[i + 1] <= Size(shape)
    ensures i + 1 == |shape| ==> Strides(shape)[i] == 1
  {
    hide Size, Strides;
    StridesAt(shape, i);
    if i + 1 < |shape| {
      StridesAt(shape, i + 1);
      SizeFrom(shape, i + 1);
      PrefixSize(shape, i + 1);
    } else {
      SizeOfOnes(shape[i + 1..]);
    }
  }

  lemma SizeFrom(shape: seq<nat>, i: nat)
    requires i < |shape|
    ensures Size(shape[i..]) == Size(shape[i + 1..]) * shape[i]
  {
    assert shape[i..][1..] == shape[i + 1..];
  }

  /** `contiguous_strides`: once the element count fits, no stride overflows. */
  method ContiguousStrides(shape: seq<nat>) returns (r: Result<seq<nat>>)
    ensures r.Ok? <==> shape != [] && Positive(shape) && Size(shape) <= U64_MAX
    ensures r.Ok? ==> r.value == Strides(shape)
    ensures r.Err? ==> r.error == InvalidSchema
  {
    hide Strides, Size;
    if shape == [] || exists i :: 0 <= i < |shape| && shape[i] == 0 {
      return Err(InvalidSchema);
    }
    var product := CheckedProduct(shape);
    if product.None? {
      return Err(InvalidSchema);
    }
    var strides: seq<nat> := seq(|shape|, _ => 1);
    var i: nat := |shape|;
    while i > 0
      invariant i <= |shape| == |strides|
      invariant forall k :: i <= k < |shape| ==> strides[k] == Strides(shape)[k]
      invariant forall k :: 0 <= k < i ==> strides[k] == 1
    {
      i := i - 1;
      NextStride(shape, i);
      if i + 1 < |shape| {
        if strides[i + 1] * shape[i + 1] > U64_MAX {
          return Err(InvalidSchema);
        }
        strides := strides[i := strides[i + 1] * shape[i + 1]];
      }
    }
    assert strides == Strides(shape);
    return Ok(strides);
  }

  // ---------------------------------------------------------------------
  // Greedy block shapes
  // ---------------------------------------------------------------------

  /** Whole axes after `p`, single indices before it. */
  predicate Packed(block: seq<nat>, shape: seq<nat>, p: nat)
    requires |block| == |shape|
  {
    && (forall i :: 0 <= i < |block| && i < p ==> block[i] == 1)
    && forall i :: p < i < |block| ==> block[i] == shape[i]
  }

  /** The suffix from `i` is chosen; `room` is how many copies of it the capacity still holds. */
  ghost predicate Filled(block: seq<nat>, shape: seq<nat>, cap: nat, i: nat, p: nat, room: nat) {
    && |block| == |shape| && i <= p <= |shape|
    && (forall j :: 0 <= j < |shape| ==> 1 <= block[j] <= shape[j])
    && (forall j :: 0 <= j < i ==> block[j] == 1)
    && (forall j :: i <= j < p && p < |shape| ==> block[j] == 1)
    && (forall j :: i <= j < |shape| && (p == |shape| || p < j) ==> block[j] == shape[j])
    && Size(block[i..]) > 0 && room == cap / Size(block[i..]) && room >= 1
    && (p < |shape| ==> room == 1)
  }

  lemma FilledNext(block: seq<nat>, shape: seq<nat>, cap: nat, i: nat, p: nat, room: nat, take: nat)
    requires i < |shape| && shape[i] > 0 && Filled(block, shape, cap, i + 1, p, room)
    requires take == Min(shape[i], room)
    ensures take > 0
    ensures Filled(block[i := take], shape, cap, i, if p < |shape| || take == shape[i] then p else i, room / take)
  {
    var next := block[i := take];
    assert next[i..][1..] == block[i + 1..];
    MulMonotone(1, take, Size(block[i + 1..]));
    DivDiv(cap, Size(block[i + 1..]), take);
    DivMonotone(take, room, take);
    DivUnique(1, 0, take);
  }

  /** Dividing the capacity bounds the filled size from both sides. */
  lemma RoomBounds(cap: nat, size: nat)
    requires size > 0 && cap / size >= 1
    ensures size <= cap && (cap / size == 1 ==> cap < 2 * size)
  {
    assert cap == cap / size * size + cap % size;
    MulMonotone(1, cap / size, size);
  }

  /** `greedy_block_shape`: fill the fastest axes first. The result is a contiguous row-major
      stretch within the capacity, and no axis shorter than its dimension could be doubled. */
  method GreedyBlockShape(shape: seq<nat>, cap: nat) returns (r: Result<seq<nat>>, ghost p: nat)
    ensures r.Ok? <==> shape != [] && Positive(shape) && cap > 0
    ensures r.Err? ==> r.error == InvalidSchema
    ensures r.Ok? ==> |r.value| == |shape| && p <= |shape|
    ensures r.Ok? ==> forall i :: 0 <= i < |shape| ==> 1 <= r.value[i] <= shape[i]
    ensures r.Ok? ==> 0 < Size(r.value) <= cap
    ensures r.Ok? ==> Packed(r.value, shape, p) && RowRuns(r.value, shape)
    ensures r.Ok? && r.value != shape ==> cap < 2 * Size(r.value)
  {
    p := |shape|;
    if shape == [] || (exists i :: 0 <= i < |shape| && shape[i] == 0) || cap == 0 {
      return Err(InvalidSchema), p;
    }
    var block: seq<nat> := seq(|shape|, _ => 1);
    var remaining: nat := cap;
    var i: nat := |shape|;
    assert block[i..] == [] && cap / 1 == cap;
    while i > 0
      invariant i <= |shape| && Filled(block, shape, cap, i, p, remaining)
    {
      i := i - 1;
      var take := Min(shape[i], remaining);
      FilledNext(block, shape, cap, i, p, remaining, take);
      p := if p < |shape| || take == shape[i] then p else i;
      block := block[i := take];
      remaining := remaining / take;
    }
    assert block[0..] == block;
    RoomBounds(cap, Size(block));
    if p == |shape| {
      assert block == shape;
      p := 0;
    }
    return Ok(block), p;
  }

  // ---------------------------------------------------------------------
  // Storage geometry
  // ---------------------------------------------------------------------

  datatype Layout = Dense | Sparse(axis: Option<nat>)

  /** How many leading axes must have single-index blocks, if the layout fits the rank. */
  function SparsePrefix(layout: Layout, rank: nat): Option<nat> {
    match layout
    case Dense => Some(0)
    case Sparse(None) => Some(rank)
    case Sparse(Some(axis)) => if axis < rank then Some(axis + 1) else None
  }

  /** A stored block never spans two sparse coordinates. */
  predicate RespectsSparsity(block: seq<nat>, layout: Layout, rank: nat) {
    && SparsePrefix(layout, rank).Some?
    && |block| >= SparsePrefix(layout, rank).value
    && forall i :: 0 <= i < SparsePrefix(layout, rank).value ==> block[i] == 1
  }

  predicate GeometryAccepts(shape: seq<nat>, layout: Layout, block: seq<nat>) {
    && shape != [] && Positive(shape) && Size(shape) <= U64_MAX
    && |block| == |shape| && Positive(block) && Size(block) <= MAX_BLOCK_CAPACITY
    && RespectsSparsity(block, layout, |shape|)
  }

  /** Cutting a shape into blocks never makes it larger. */
  lemma GridSize(shape: seq<nat>, block: seq<nat>)
    requires |shape| == |block| && Positive(shape) && Positive(block)
    ensures Positive(GridShape(shape, block))
    ensures 0 < Size(GridShape(shape, block)) <= Size(shape)
  {
    var grid := GridShape(shape, block);
    forall i | 0 <= i < |grid| ensures 0 < grid[i] <= shape[i] {
      CeilDivBound(shape[i], block[i], 0);
      CeilDivBound(shape[i], block[i], shape[i]);
      MulMonotone(1, block[i], shape[i]);
    }
    SizePositive(grid);
    SizeMonotone(grid, shape);
  }

  lemma {:induction false} SizeMonotone(a: seq<nat>, b: seq<nat>)
    requires |a| == |b| && forall i :: 0 <= i < |a| ==> a[i] <= b[i]
    ensures Size(a) <= Size(b)
  {
    if a != [] {
      SizeMonotone(a[1..], b[1..]);
      MulMonotone(a[0], b[0], Size(a[1..]));
      MulMonotone(Size(a[1..]), Size(b[1..]), b[0]);
    }
  }

  /** Validated geometry from a tensor shape, a layout and a block shape. */
  method NewGeometry(shape: seq<nat>, layout: Layout, block: seq<nat>) returns (r: Result<Storage>)
    ensures r.Ok? <==> GeometryAccepts(shape, layout, block)
    ensures r.Ok? <==>
              && shape != [] && Positive(shape) && Size(shape) <= U64_MAX
              && |block| == |shape| && Positive(block) && Size(block) <= MAX_BLOCK_CAPACITY
              && match layout
                 case Dense => true
                 case Sparse(None) => forall i :: 0 <= i < |block| ==> block[i] == 1
                 case Sparse(Some(axis)) => axis < |shape| && forall i :: 0 <= i <= axis ==> block[i] == 1
    ensures r.Ok? ==> r.value.Valid() && r.value.shape == shape && r.value.block == block
  {
    var strides := ContiguousStrides(shape);
    if strides.Err? {
      return Err(strides.error);
    }
    if |block| != |shape| {
      return Err(InvalidLayout);
    }
    var blockStrides := ContiguousStrides(block);
    if blockStrides.Err? || Size(block) > MAX_BLOCK_CAPACITY {
      return Err(InvalidLayout);
    }
    var prefix := SparsePrefix(layout, |shape|);
    if prefix.None? {
      return Err(InvalidSchema);
    }
    if exists i :: 0 <= i < prefix.value && block[i] != 1 {
      return Err(InvalidLayout);
    }
    var grid := GridShape(shape, block);
    GridSize(shape, block);
    var gridStrides := ContiguousStrides(grid);
    return Ok(Storage(shape, strides.value, block, blockStrides.value, grid, gridStrides.value));
  }

  /** The sparse axes of a shape are reduced to single indices before blocks are chosen. */
  function BlockRegion(shape: seq<nat>, prefix: nat): (region: seq<nat>)
    requires prefix <= |shape|
    ensures |region| == |shape|
    ensures forall i :: 0 <= i < |shape| ==> region[i] == if i < prefix then 1 else shape[i]
  {
    seq(|shape|, i requires 0 <= i < |shape| => if i < prefix then 1 else shape[i])
  }

  /** `StorageSchema::new`: the creation path always produces acceptable geometry. */
  method CreateGeometry(shape: seq<nat>, layout: Layout) returns (r: Result<Storage>)
    ensures r.Ok? <==>
              shape != [] && Positive(shape) && Size(shape) <= U64_MAX && SparsePrefix(layout, |shape|).Some?
    ensures r.Ok? ==> r.value.Valid() && r.value.shape == shape && GeometryAccepts(shape, layout, r.value.block)
    ensures r.Ok? ==> RowRuns(r.value.block, BlockRegion(shape, SparsePrefix(layout, |shape|).value))
  {
    if shape == [] || exists i :: 0 <= i < |shape| && shape[i] == 0 {
      return Err(InvalidSchema);
    }
    var prefix := SparsePrefix(layout, |shape|);
    if prefix.None? {
      return Err(InvalidSchema);
    }
    var region := BlockRegion(shape, prefix.value);
    var block, p := GreedyBlockShape(region, MAX_BLOCK_CAPACITY);
    r := NewGeometry(shape, layout, block.value);
  }

  // ---------------------------------------------------------------------
  // Row-major walks
  // ---------------------------------------------------------------------

  /** `row_major_coords`: a walk over a valid shape, and an error for any other. */
  method RowMajor(shape: seq<nat>) returns (r: Result<RowMajorCoords>)
    ensures r.Ok? <==> shape != [] && Positive(shape) && Size(shape) <= U64_MAX
    ensures r.Ok? ==> fresh(r.value) && r.value.Valid() && r.value.shape == shape && r.value.remaining == Size(shape)
    ensures r.Err? ==> r.error == InvalidSchema
  {
    hide Size;
    if shape == [] || exists i :: 0 <= i < |shape| && shape[i] == 0 {
      return Err(InvalidSchema);
    }
    var product := CheckedProduct(shape);
    if product.None? {
      return Err(InvalidSchema);
    }
    var walk := new RowMajorCoords(shape);
    return Ok(walk);
  }

  /** `RowMajorCoords`: one current coordinate and a counter of what remains. */
  class RowMajorCoords {
    const shape: seq<nat>
    var coord: Coord
    var remaining: nat

    ghost predicate Valid()
      reads this
    {
      && shape != [] && Positive(shape) && remaining <= Size(shape) <= U64_MAX
      && InShape(coord, shape)
      && (remaining > 0 ==> Flat(coord, shape) == Size(shape) - remaining)
    }

    constructor (shape: seq<nat>)
      requires shape != [] && Positive(shape) && Size(shape) <= U64_MAX
      ensures Valid() && this.shape == shape && remaining == Size(shape)
    {
      this.shape := shape;
      coord := Zeros(|shape|);
      remaining := Size(shape);
      new;
      ZerosFlat(shape);
    }

    /** Deliver every coordinate once, in row-major order. */
    method Next() returns (r: Option<Coord>)
      requires Valid()
      modifies this
      ensures Valid()
      ensures r.None? <==> old(remaining) == 0
      ensures r.None? ==> remaining == 0
      ensures r.Some? ==> remaining == old(remaining) - 1
      ensures r.Some? ==> r.value == Decode(Size(shape) - old(remaining), shape)
    {
      hide Size, Flat, Decode;
      if remaining == 0 {
        return None;
      }
      AtPosition(coord, shape, Size(shape) - remaining);
      r := Some(coord);
      remaining := remaining - 1;
      if remaining > 0 {
        Roll();
      }
    }

    method Roll()
      requires shape != [] && Positive(shape) && InShape(coord, shape) && Flat(coord, shape) + 1 < Size(shape)
      modifies this`coord
      ensures InShape(coord, shape) && Flat(coord, shape) == old(Flat(coord, shape)) + 1
    {
      hide Size, Flat;
      ghost var start := coord;
      RollStart(shape, start);
      var axis: nat := |shape| - 1;
      while true
        invariant axis < |shape| && Rolling(shape, start, axis + 1, coord)
        decreases axis
      {
        if coord[axis] + 1 < shape[axis] {
          RollStop(shape, start, axis, coord);
          coord := coord[axis := coord[axis] + 1];
          return;
        }
        RollReset(shape, start, axis, coord);
        coord := coord[axis := 0];
        if axis == 0 {
          RollDone(shape, start, coord);
          return;
        }
        axis := axis - 1;
      }
    }
  }
}
