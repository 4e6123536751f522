/** Logical blocks: locating coordinates, walking valid offsets and checking padding. */
module Blocks {
  import opened Radix
  import opened Wrappers
  import opened Geometry
  import opened Odometer

  // ---------------------------------------------------------------------
  // Positions and bounds
  // ---------------------------------------------------------------------

  /** `block_position`: one pass over the axes, accumulating block id and offset. */
  method BlockPosition(g: Storage, c: Coord) returns (r: Result<Position>)
    requires g.Valid()
    ensures r.Ok? <==> InShape(c, g.shape)
    ensures r.Ok? ==> r.value == g.At(c) && r.value.block < g.BlockCount() && r.value.offset < g.BlockLen()
    ensures r.Err? ==> r.error == InvalidCoord
  {
    hide Dot, Flat, Size, Quotients, Remainders, Strides;
    if !InShape(c, g.shape) {
      return Err(InvalidCoord);
    }
    ghost var q, l := Quotients(c, g.block), Remainders(c, g.block);
    DotZero(q[..0], g.gridStrides[..0]);
    DotZero(l[..0], g.blockStrides[..0]);
    var id, offset := 0, 0;
    for i := 0 to |c|
      invariant id == Dot(q[..i], g.gridStrides[..i])
      invariant offset == Dot(l[..i], g.blockStrides[..i])
    {
      DotNext(q, g.gridStrides, i);
      DotNext(l, g.blockStrides, i);
      id := id + c[i] / g.block[i] * g.gridStrides[i];
      offset := offset + c[i] % g.block[i] * g.blockStrides[i];
    }
    assert q[..|c|] == q && l[..|c|] == l && g.gridStrides[..|c|] == g.gridStrides && g.blockStrides[..|c|] == g.blockStrides;
    FlatIsDot(q, g.grid);
    FlatIsDot(l, g.block);
    AtInside(g, c);
    return Ok(Position(id, offset));
  }

  /** `block_bounds`: the region covered by a block, clipped to the tensor. */
  method BlockBounds(g: Storage, id: nat) returns (r: Result<Region>)
    requires g.Valid()
    ensures r.Ok? <==> id < g.BlockCount()
    ensures r.Ok? ==> r.value == g.Bounds(id)
    ensures r.Err? ==> r.error == InvalidCoord
  {
    if id >= g.BlockCount() {
      return Err(InvalidCoord);
    }
    GridPositive(g);
    StridesPositive(g.grid);
    var bounds: Region := [];
    for i := 0 to |g.shape|
      invariant |bounds| == i && forall k :: 0 <= k < i ==> bounds[k] == g.Bounds(id)[k]
    {
      DecodeAt(id, g.grid, i);
      DigitBlock(g, id, i);
      var digit := id / g.gridStrides[i] % g.grid[i];
      MulMonotone(0, digit, g.block[i]);
      var start: nat := digit * g.block[i];
      bounds := bounds + [(start, start + Min(g.block[i], g.shape[i] - start))];
    }
    assert bounds == g.Bounds(id);
    return Ok(bounds);
  }

  /** Every block of the grid starts inside the tensor. */
  lemma DigitBlock(g: Storage, id: nat, i: nat)
    requires g.Valid() && id < g.BlockCount() && i < |g.shape| && Positive(g.grid)
    ensures Decode(id, g.grid)[i] * g.block[i] < g.shape[i]
  {
    DecodeInShape(id, g.grid);
    BelowCeil(g.shape[i], g.block[i], Decode(id, g.grid)[i]);
  }

  lemma BelowCeil(dim: nat, b: nat, q: nat)
    requires b > 0 && q < CeilDiv(dim, b)
    ensures q * b < dim
  {
    CeilDivBound(dim, b, q);
  }

  // ---------------------------------------------------------------------
  // Offsets in use
  // ---------------------------------------------------------------------

  function Extents(bounds: Region): (e: seq<nat>)
    requires forall i :: 0 <= i < |bounds| ==> bounds[i].0 <= bounds[i].1
    ensures |e| == |bounds|
    ensures forall i :: 0 <= i < |e| ==> e[i] == bounds[i].1 - bounds[i].0
  {
    seq(|bounds|, i requires 0 <= i < |bounds| => bounds[i].1 - bounds[i].0)
  }

  function Local(c: Coord, bounds: Region): (l: Coord)
    requires |c| == |bounds| && forall i :: 0 <= i < |c| ==> bounds[i].0 <= c[i]
    ensures |l| == |c|
    ensures forall i :: 0 <= i < |l| ==> l[i] == c[i] - bounds[i].0
  {
    seq(|c|, i requires 0 <= i < |c| => c[i] - bounds[i].0)
  }

  /** A nonempty region no larger than the block. */
  predicate Fits(bounds: Region, block: seq<nat>) {
    && |bounds| == |block|
    && forall i :: 0 <= i < |bounds| ==> bounds[i].0 < bounds[i].1 <= bounds[i].0 + block[i]
  }

  lemma BoundsFit(g: Storage, id: nat)
    requires g.Valid() && id < g.BlockCount()
    ensures Fits(g.Bounds(id), g.block)
    ensures forall i :: 0 <= i < |g.shape| ==> g.Bounds(id)[i].1 <= g.shape[i]
  {
    GridPositive(g);
    forall i | 0 <= i < |g.shape|
      ensures g.Bounds(id)[i].0 < g.Bounds(id)[i].1 <= g.Bounds(id)[i].0 + g.block[i]
      ensures g.Bounds(id)[i].1 <= g.shape[i]
    {
      DigitBlock(g, id, i);
    }
  }

  /** The payload offset of the `k`-th coordinate of a region, in row-major order. */
  function OffsetAt(block: seq<nat>, extents: seq<nat>, k: nat): nat
    requires |block| == |extents| && Positive(extents)
  {
    Flat(Decode(k, extents), block)
  }

  /** Valid offsets strictly increase along the walk. */
  lemma OffsetsIncrease(block: seq<nat>, extents: seq<nat>, i: nat, j: nat)
    requires |block| == |extents| && Positive(extents) && i < j < Size(extents)
    requires forall k :: 0 <= k < |block| ==> extents[k] <= block[k]
    ensures OffsetAt(block, extents, i) < OffsetAt(block, extents, j) < Size(block)
  {
    FlatOfDecodeInside(i, extents);
    FlatOfDecodeInside(j, extents);
    var c, d := Decode(i, extents), Decode(j, extents);
    BeforeIsFlatOrder(c, d, extents);
    BeforeIsFlatOrder(c, d, block);
    FlatBound(d, block);
  }

  /** Some coordinate of the tensor is stored at this offset of this block. */
  ghost predicate Stored(g: Storage, id: nat, offset: nat)
    requires g.Valid()
  {
    exists c: Coord :: InShape(c, g.shape) && g.At(c) == Position(id, offset)
  }

  /** The coordinate `local` positions into block `id`. */
  function InBlock(g: Storage, id: nat, local: Coord): (c: Coord)
    requires g.Valid() && id < g.BlockCount() && |local| == |g.shape|
    ensures |c| == |local|
    ensures forall i :: 0 <= i < |c| ==> c[i] == g.Bounds(id)[i].0 + local[i]
  {
    seq(|local|, i requires 0 <= i < |local| => g.Bounds(id)[i].0 + local[i])
  }

  /** A coordinate of a block is located by its position relative to the block's origin. */
  lemma LocalLocates(g: Storage, id: nat, c: Coord)
    requires g.Valid() && id < g.BlockCount() && InRegion(c, g.Bounds(id))
    ensures InShape(c, g.shape) && InShape(Local(c, g.Bounds(id)), Extents(g.Bounds(id)))
    ensures g.At(c) == Position(id, Flat(Local(c, g.Bounds(id)), g.block))
  {
    BoundsFit(g, id);
    BoundsExact(g, id, c);
    GridPositive(g);
    var b, l := g.Bounds(id), Local(c, g.Bounds(id));
    assert l == Remainders(c, g.block) by {
      forall i | 0 <= i < |c| ensures l[i] == c[i] % g.block[i] {
        var q := Decode(id, g.grid)[i];
        DivUnique(q, l[i], g.block[i]);
      }
    }
  }

  lemma StoredIsOffset(g: Storage, id: nat, offset: nat)
    requires g.Valid() && id < g.BlockCount() && Fits(g.Bounds(id), g.block)
    ensures Positive(Extents(g.Bounds(id)))
    ensures Stored(g, id, offset) <==>
            exists k :: 0 <= k < Size(Extents(g.Bounds(id))) && OffsetAt(g.block, Extents(g.Bounds(id)), k) == offset
  {
    hide Flat, Decode, Storage.At, Storage.Bounds;
    var b := g.Bounds(id);
    var e := Extents(b);
    if Stored(g, id, offset) {
      var c: Coord :| InShape(c, g.shape) && g.At(c) == Position(id, offset);
      BoundsExact(g, id, c);
      LocalLocates(g, id, c);
      FlatBound(Local(c, b), e);
      DecodeOfFlat(Local(c, b), e);
      assert OffsetAt(g.block, e, Flat(Local(c, b), e)) == offset;
    }
    if k :| 0 <= k < Size(e) && OffsetAt(g.block, e, k) == offset {
      FlatOfDecodeInside(k, e);
      var c := InBlock(g, id, Decode(k, e));
      assert Local(c, b) == Decode(k, e);
      LocalLocates(g, id, c);
    }
  }

  /** The block cursor: valid offsets in logical order, with rank-sized state. */
  class BlockCursor {
    const blockStrides: seq<nat>
    ghost const block: seq<nat>
    const bounds: Region
    var coord: Coord
    var offset: nat
    var done: bool

    ghost predicate Valid()
      reads this
    {
      && Fits(bounds, block) && blockStrides == Strides(block) && |coord| == |bounds|
      && (!done ==> InRegion(coord, bounds) && offset == Flat(Local(coord, bounds), block))
    }

    ghost function Position(): nat
      requires Valid()
      reads this
    {
      if done then Size(Extents(bounds)) else Flat(Local(coord, bounds), Extents(bounds))
    }

    constructor (bounds: Region, blockStrides: seq<nat>, ghost block: seq<nat>)
      requires Fits(bounds, block) && blockStrides == Strides(block)
      ensures Valid() && this.bounds == bounds && this.block == block && !done && Position() == 0
    {
      this.bounds := bounds;
      this.blockStrides := blockStrides;
      this.block := block;
      coord := seq(|bounds|, i requires 0 <= i < |bounds| => bounds[i].0);
      offset := 0;
      done := false;
      new;
      assert Local(coord, bounds) == Zeros(|bounds|);
      ZerosFlat(block);
      ZerosFlat(Extents(bounds));
    }

    /** While the walk lasts, its offset is the one of its position. */
    lemma Current()
      requires Valid() && !done
      ensures Positive(Extents(bounds)) && Position() < Size(Extents(bounds))
      ensures offset == OffsetAt(block, Extents(bounds), Position())
    {
      FlatBound(Local(coord, bounds), Extents(bounds));
      DecodeOfFlat(Local(coord, bounds), Extents(bounds));
    }

    /** Move to the next valid offset, undoing exhausted axes on the way. */
    method Advance()
      requires Valid() && !done
      modifies this
      ensures Valid() && Position() == old(Position()) + 1
      ensures done <==> Position() == Size(Extents(bounds))
    {
      hide Flat, Size, Rolling, Strides;
      ghost var e, start := Extents(bounds), Local(coord, bounds);
      RollStart(e, start);
      var axis: nat := |coord|;
      while true
        invariant axis <= |bounds| == |coord| && !done && LowerBounded(coord, bounds)
        invariant Rolling(e, start, axis, Local(coord, bounds))
        invariant offset == Flat(Local(coord, bounds), block)
        decreases axis
      {
        if axis == 0 {
          RollDone(e, start, Local(coord, bounds));
          done := true;
          return;
        }
        axis := axis - 1;
        ghost var now := Local(coord, bounds);
        RollingAt(e, start, axis, now);
        StepAxis(coord, bounds, block, axis);
        var stride := blockStrides[axis];
        if coord[axis] + 1 < bounds[axis].1 {
          coord := coord[axis := coord[axis] + 1];
          offset := offset + stride;
          RollStop(e, start, axis, now);
          FlatBound(Local(coord, bounds), e);
          InExtents(coord, bounds);
          return;
        }
        // Past the end of the axis: the step is undone together with the whole extent.
        offset := offset + stride - Extent(bounds[axis]) * stride;
        coord := coord[axis := bounds[axis].0];
        RollReset(e, start, axis, now);
      }
    }
  }

  function Extent(b: (nat, nat)): int {
    b.1 - b.0
  }

  predicate LowerBounded(c: Coord, bounds: Region) {
    |c| == |bounds| && forall i :: 0 <= i < |c| ==> bounds[i].0 <= c[i]
  }

  lemma InExtents(c: Coord, bounds: Region)
    requires LowerBounded(c, bounds) && forall i :: 0 <= i < |bounds| ==> bounds[i].0 <= bounds[i].1
    requires InShape(Local(c, bounds), Extents(bounds))
    ensures InRegion(c, bounds)
  {
    forall i | 0 <= i < |c| ensures c[i] < bounds[i].1 {
      assert Local(c, bounds)[i] < Extents(bounds)[i];
    }
  }

  lemma RollingAt(dims: seq<nat>, start: Coord, axis: nat, now: Coord)
    requires axis < |dims| && Rolling(dims, start, axis + 1, now)
    ensures |start| == |now| == |dims| && now[axis] == start[axis] < dims[axis]
  {}

  /** Stepping one axis adds its stride; resetting it takes back the whole extent. */
  lemma StepAxis(coord: Coord, bounds: Region, block: seq<nat>, axis: nat)
    requires LowerBounded(coord, bounds) && |coord| == |block| && axis < |coord|
    ensures Local(coord[axis := coord[axis] + 1], bounds)
         == Local(coord, bounds)[axis := Local(coord, bounds)[axis] + 1]
    ensures Local(coord[axis := bounds[axis].0], bounds) == Local(coord, bounds)[axis := 0]
    ensures Flat(Local(coord[axis := coord[axis] + 1], bounds), block)
         == Flat(Local(coord, bounds), block) + Strides(block)[axis]
    ensures Local(coord, bounds)[axis] + 1 == Extent(bounds[axis]) ==>
              (Flat(Local(coord[axis := bounds[axis].0], bounds), block)
               == Flat(Local(coord, bounds), block) + Strides(block)[axis] - Extent(bounds[axis]) * Strides(block)[axis])
  {
    hide Flat, Strides;
    var now, stride := Local(coord, bounds), Strides(block)[axis];
    var o: int := now[axis];
    assert Local(coord[axis := coord[axis] + 1], bounds) == now[axis := now[axis] + 1];
    assert Local(coord[axis := bounds[axis].0], bounds) == now[axis := 0];
    FlatUpdate(now, block, axis, now[axis] + 1, 1);
    FlatUpdate(now, block, axis, 0, -o);
    MulAdd(o, 1, stride, o + 1);
    MulAdd(o, -o, stride, 0);
  }

  // ---------------------------------------------------------------------
  // Padding
  // ---------------------------------------------------------------------

  /** Offsets that store no coordinate hold zero. */
  ghost predicate PaddingZero<T>(g: Storage, id: nat, values: seq<T>, zero: T)
    requires g.Valid()
  {
    forall o :: 0 <= o < |values| && !Stored(g, id, o) ==> values[o] == zero
  }

  predicate ZeroBetween<T(==)>(values: seq<T>, from: nat, to: nat, zero: T)
    requires from <= to <= |values|
  {
    forall o :: from <= o < to ==> values[o] == zero
  }

  /** Nothing is stored strictly between two consecutive valid offsets. */
  lemma GapUnstored(g: Storage, id: nat, k: nat, o: nat)
    requires g.Valid() && id < g.BlockCount() && Fits(g.Bounds(id), g.block)
    requires Positive(Extents(g.Bounds(id))) && k <= Size(Extents(g.Bounds(id)))
    requires k > 0 ==> OffsetAt(g.block, Extents(g.Bounds(id)), k - 1) < o
    requires k < Size(Extents(g.Bounds(id))) ==> o < OffsetAt(g.block, Extents(g.Bounds(id)), k)
    ensures !Stored(g, id, o)
  {
    hide OffsetAt, Stored;
    var e := Extents(g.Bounds(id));
    StoredIsOffset(g, id, o);
    forall j | 0 <= j < Size(e) ensures OffsetAt(g.block, e, j) != o {
      if j < k - 1 {
        OffsetsIncrease(g.block, e, j, k - 1);
      } else if j > k {
        OffsetsIncrease(g.block, e, k, j);
      }
    }
  }

  /** A block not cut by the tensor's edge has no padding. */
  lemma FullBlock(g: Storage, id: nat, o: nat)
    requires g.Valid() && id < g.BlockCount() && o < g.BlockLen()
    requires Fits(g.Bounds(id), g.block) && Extents(g.Bounds(id)) == g.block
    ensures Stored(g, id, o)
  {
    hide Stored;
    StoredIsOffset(g, id, o);
    FlatOfDecodeInside(o, g.block);
    assert OffsetAt(g.block, g.block, o) == o;
  }

  /** `validate_block`: accepted exactly when the length is right and every padding offset is zero. */
  method ValidateBlock<T(==)>(g: Storage, id: nat, values: seq<T>, zero: T) returns (r: Outcome)
    requires g.Valid()
    ensures r.Pass? <==> id < g.BlockCount() && |values| == g.BlockLen() && PaddingZero(g, id, values, zero)
    ensures r.Fail? ==> r.error == if id < g.BlockCount() then InvalidLayout else InvalidCoord
  {
    hide Stored, OffsetAt, Storage.Bounds;
    var bounds := BlockBounds(g, id);
    if bounds.Err? {
      return Fail(bounds.error);
    }
    if |values| != g.BlockLen() {
      return Fail(InvalidLayout);
    }
    BoundsFit(g, id);
    if forall i :: 0 <= i < |g.block| ==> bounds.value[i].1 - bounds.value[i].0 == g.block[i] {
      assert Extents(bounds.value) == g.block;
      forall o | 0 <= o < |values| ensures Stored(g, id, o) {
        FullBlock(g, id, o);
      }
      return Pass;
    }
    r := CheckPadding(g, id, bounds.value, values, zero);
  }

  method CheckPadding<T(==)>(g: Storage, id: nat, bounds: Region, values: seq<T>, zero: T) returns (r: Outcome)
    requires g.Valid() && id < g.BlockCount() && bounds == g.Bounds(id) && Fits(bounds, g.block)
    requires |values| == g.BlockLen()
    ensures r.Pass? <==> PaddingZero(g, id, values, zero)
    ensures r.Fail? ==> r.error == InvalidLayout
  {
    hide Stored, OffsetAt, Storage.Bounds, Size, Flat;
    ghost var e := Extents(bounds);
    ghost var k := 0;
    var next: nat := 0;
    var cursor := new BlockCursor(bounds, g.blockStrides, g.block);
    cursor.Current();
    while !cursor.done
      invariant cursor.Valid() && cursor.bounds == bounds && cursor.block == g.block && Positive(e)
      invariant k == cursor.Position() <= Size(e) && (cursor.done <==> k == Size(e))
      invariant next == (if k == 0 then 0 else OffsetAt(g.block, e, k - 1) + 1) <= |values|
      invariant forall o :: 0 <= o < next ==> Stored(g, id, o) || values[o] == zero
      decreases Size(e) - k
    {
      cursor.Current();
      OffsetOrder(g, id, k);
      forall o | next <= o < cursor.offset ensures !Stored(g, id, o) {
        GapUnstored(g, id, k, o);
      }
      if !ZeroBetween(values, next, cursor.offset, zero) {
        return Fail(InvalidLayout);
      }
      next := cursor.offset + 1;
      cursor.Advance();
      k := k + 1;
    }
    forall o | next <= o < |values| ensures !Stored(g, id, o) {
      GapUnstored(g, id, k, o);
    }
    if !ZeroBetween(values, next, |values|, zero) {
      return Fail(InvalidLayout);
    }
    return Pass;
  }

  /** Offset `k` is stored, inside the block, and after offset `k - 1`. */
  lemma OffsetOrder(g: Storage, id: nat, k: nat)
    requires g.Valid() && id < g.BlockCount() && Fits(g.Bounds(id), g.block)
    requires Positive(Extents(g.Bounds(id))) && k < Size(Extents(g.Bounds(id)))
    ensures Stored(g, id, OffsetAt(g.block, Extents(g.Bounds(id)), k))
    ensures OffsetAt(g.block, Extents(g.Bounds(id)), k) < g.BlockLen()
    ensures k > 0 ==> OffsetAt(g.block, Extents(g.Bounds(id)), k - 1) < OffsetAt(g.block, Extents(g.Bounds(id)), k)
  {
    var e := Extents(g.Bounds(id));
    StoredIsOffset(g, id, OffsetAt(g.block, e, k));
    FlatOfDecodeInside(k, e);
    FlatBound(Decode(k, e), g.block);
    if k > 0 {
      OffsetsIncrease(g.block, e, k - 1, k);
    }
  }
}
