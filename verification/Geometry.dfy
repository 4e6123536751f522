/** Storage geometry: a tensor shape cut into a grid of equally shaped blocks. */
module Geometry {
  import opened Radix

  /** Maximum tensor values per storage block. */
  const MAX_BLOCK_CAPACITY: nat := 4096

  /** Half-open coordinate intervals, one per axis. */
  type Region = seq<(nat, nat)>

  predicate InRegion(c: Coord, r: Region) {
    |c| == |r| && forall i :: 0 <= i < |c| ==> r[i].0 <= c[i] < r[i].1
  }

  function GridShape(shape: seq<nat>, block: seq<nat>): (g: seq<nat>)
    requires |shape| == |block| && Positive(block)
    ensures |g| == |shape|
    ensures forall i :: 0 <= i < |g| ==> g[i] == CeilDiv(shape[i], block[i])
  {
    seq(|shape|, i requires 0 <= i < |shape| => CeilDiv(shape[i], block[i]))
  }

  /** Elementwise quotients and remainders by a block shape. */
  function Quotients(c: Coord, block: seq<nat>): (g: Coord)
    requires |c| == |block| && Positive(block)
    ensures |g| == |c|
    ensures forall i :: 0 <= i < |g| ==> g[i] == c[i] / block[i]
  {
    seq(|c|, i requires 0 <= i < |c| => c[i] / block[i])
  }

  function Remainders(c: Coord, block: seq<nat>): (l: Coord)
    requires |c| == |block| && Positive(block)
    ensures |l| == |c|
    ensures forall i :: 0 <= i < |l| ==> l[i] == c[i] % block[i]
  {
    seq(|c|, i requires 0 <= i < |c| => c[i] % block[i])
  }

  /** The part of an axis covered by the `q`-th block along it, clipped to the axis. */
  function Interval(q: nat, b: nat, dim: nat): (nat, nat) {
    MulMonotone(0, q, b);
    (q * b, q * b + Min(b, Max(0, dim - q * b)))
  }

  datatype Position = Position(block: nat, offset: nat)

  /** Validated tensor, block and grid geometry with its derived strides. */
  datatype Storage = Storage(
    shape: seq<nat>,
    strides: seq<nat>,
    block: seq<nat>,
    blockStrides: seq<nat>,
    grid: seq<nat>,
    gridStrides: seq<nat>)
  {
    predicate Valid() {
      && shape != []
      && |block| == |shape|
      && Positive(shape)
      && Positive(block)
      && Size(shape) <= U64_MAX
      && Size(block) <= MAX_BLOCK_CAPACITY
      && grid == GridShape(shape, block)
      && strides == Strides(shape)
      && blockStrides == Strides(block)
      && gridStrides == Strides(grid)
    }

    /** The block holding a coordinate, and the payload offset inside it. */
    function At(c: Coord): Position
      requires Valid() && |c| == |shape|
    {
      Position(Flat(Quotients(c, block), grid), Flat(Remainders(c, block), block))
    }

    function BlockLen(): nat {
      Size(block)
    }

    function BlockCount(): nat {
      Size(grid)
    }

    /** The in-shape region a block covers, as `block_bounds` computes it. */
    function Bounds(id: nat): (r: Region)
      requires Valid() && id < BlockCount()
      ensures |r| == |shape|
    {
      GridPositive(this);
      seq(|shape|, i requires 0 <= i < |shape| => Interval(Decode(id, grid)[i], block[i], shape[i]))
    }
  }

  lemma GridPositive(g: Storage)
    requires g.Valid()
    ensures Positive(g.grid)
    ensures Size(g.grid) > 0 && Size(g.block) > 0 && Size(g.shape) > 0
  {
    forall i | 0 <= i < |g.grid| ensures g.grid[i] > 0 {
      CeilDivBound(g.shape[i], g.block[i], 0);
    }
    SizePositive(g.grid);
    SizePositive(g.block);
    SizePositive(g.shape);
  }

  lemma QuotientBelow(c: nat, b: nat, dim: nat)
    requires b > 0 && c < dim
    ensures c / b < CeilDiv(dim, b)
  {
    CeilDivBound(dim, b, c / b);
    assert c == (c / b) * b + c % b;
  }

  lemma QuotientRemainder(c: nat, d: nat, b: nat)
    requires b > 0 && c / b == d / b && c % b == d % b
    ensures c == d
  {
    assert c == (c / b) * b + c % b;
    assert d == (d / b) * b + d % b;
  }

  lemma QuotientsInGrid(c: Coord, shape: seq<nat>, block: seq<nat>)
    requires |block| == |shape| && Positive(block) && InShape(c, shape)
    ensures InShape(Quotients(c, block), GridShape(shape, block))
    ensures InShape(Remainders(c, block), block)
  {
    forall i | 0 <= i < |c| ensures Quotients(c, block)[i] < GridShape(shape, block)[i] {
      QuotientBelow(c[i], block[i], shape[i]);
    }
  }

  /** An in-shape coordinate lies in an existing block, at an offset inside it. */
  lemma AtInside(g: Storage, c: Coord)
    requires g.Valid() && InShape(c, g.shape)
    ensures InShape(Quotients(c, g.block), g.grid) && InShape(Remainders(c, g.block), g.block)
    ensures g.At(c).block < g.BlockCount() && g.At(c).offset < g.BlockLen()
  {
    QuotientsInGrid(c, g.shape, g.block);
    FlatBound(Quotients(c, g.block), g.grid);
    FlatBound(Remainders(c, g.block), g.block);
  }

  /** The digits of a block id are the quotients of a coordinate by the block extents, the digits of an
      offset the remainders. */
  lemma AtDigits(g: Storage, c: Coord, i: nat)
    requires g.Valid() && InShape(c, g.shape) && i < |c|
    ensures Positive(g.grid) && Decode(g.At(c).block, g.grid)[i] == c[i] / g.block[i]
    ensures Decode(g.At(c).offset, g.block)[i] == c[i] % g.block[i]
  {
    GridPositive(g);
    AtInside(g, c);
    DecodeOfFlat(Quotients(c, g.block), g.grid);
    DecodeOfFlat(Remainders(c, g.block), g.block);
  }

  /** Different coordinates never share a block offset. */
  lemma AtInjective(g: Storage, c: Coord, d: Coord)
    requires g.Valid() && InShape(c, g.shape) && InShape(d, g.shape)
    requires g.At(c) == g.At(d)
    ensures c == d
  {
    AtInside(g, c);
    AtInside(g, d);
    FlatInjective(Quotients(c, g.block), Quotients(d, g.block), g.grid);
    FlatInjective(Remainders(c, g.block), Remainders(d, g.block), g.block);
    forall i | 0 <= i < |c| ensures c[i] == d[i] {
      assert Quotients(c, g.block)[i] == Quotients(d, g.block)[i];
      assert Remainders(c, g.block)[i] == Remainders(d, g.block)[i];
      QuotientRemainder(c[i], d[i], g.block[i]);
    }
  }

  /** One axis: the quotient by the block extent selects exactly one interval. */
  lemma QuotientInterval(c: nat, q: nat, b: nat, dim: nat)
    requires b > 0 && c < dim
    ensures c / b == q <==> Interval(q, b, dim).0 <= c < Interval(q, b, dim).1
  {
    if q * b <= c < q * b + b {
      DivUnique(q, c - q * b, b);
    } else {
      assert c == (c / b) * b + c % b;
    }
  }

  /** A block's bounds describe exactly the coordinates stored in that block. */
  lemma BoundsExact(g: Storage, id: nat, c: Coord)
    requires g.Valid() && id < g.BlockCount() && InShape(c, g.shape)
    ensures g.At(c).block == id <==> InRegion(c, g.Bounds(id))
  {
    GridPositive(g);
    AtInside(g, c);
    FlatOfDecodeInside(id, g.grid);
    var q := Decode(id, g.grid);
    forall i | 0 <= i < |c|
      ensures Quotients(c, g.block)[i] == q[i] <==> g.Bounds(id)[i].0 <= c[i] < g.Bounds(id)[i].1
    {
      QuotientInterval(c[i], q[i], g.block[i], g.shape[i]);
    }
    if g.At(c).block == id {
      FlatInjective(Quotients(c, g.block), q, g.grid);
    } else {
      assert Quotients(c, g.block) != q;
    }
  }

  /** Block ids never decrease when every coordinate grows. */
  lemma BlockMonotone(g: Storage, c: Coord, d: Coord)
    requires g.Valid() && |c| == |d| == |g.shape|
    requires forall i :: 0 <= i < |c| ==> c[i] <= d[i]
    ensures g.At(c).block <= g.At(d).block
  {
    forall i | 0 <= i < |c| ensures Quotients(c, g.block)[i] <= Quotients(d, g.block)[i] {
      DivMonotone(c[i], d[i], g.block[i]);
    }
    FlatMonotone(Quotients(c, g.block), Quotients(d, g.block), g.grid);
  }

  // ---------------------------------------------------------------------
  // Blocks that are contiguous row-major runs
  // ---------------------------------------------------------------------

  /** After the first axis a block spans, it covers every later axis completely. */
  predicate RowRuns(block: seq<nat>, shape: seq<nat>)
    requires |block| == |shape|
  {
    forall i, j :: 0 <= i < j < |block| && block[i] > 1 ==> block[j] >= shape[j]
  }

  /** With row-run blocks, row-major order of coordinates is an order of blocks. */
  lemma {:induction false} RowRunsOrdered(shape: seq<nat>, block: seq<nat>, c: Coord, d: Coord)
    requires |block| == |shape| && Positive(block)
    requires RowRuns(block, shape)
    requires InShape(c, shape) && InShape(d, shape)
    requires !Before(d, c)
    ensures Flat(Quotients(c, block), GridShape(shape, block))
         <= Flat(Quotients(d, block), GridShape(shape, block))
  {
    var g, p, q := GridShape(shape, block), Quotients(c, block), Quotients(d, block);
    if shape != [] {
      if block[0] > 1 {
        forall i | 0 <= i < |c| ensures p[i] <= q[i] {
          if i == 0 {
            DivMonotone(c[0], d[0], block[0]);
          } else {
            DivUnique(0, c[i], block[i]);
            DivUnique(0, d[i], block[i]);
          }
        }
        FlatMonotone(p, q, g);
      } else if c[0] < d[0] {
        QuotientsInGrid(c, shape, block);
        QuotientsInGrid(d, shape, block);
        LeadingDominates(p, q, g);
      } else {
        RowRunsOrdered(shape[1..], block[1..], c[1..], d[1..]);
        assert g[1..] == GridShape(shape[1..], block[1..]);
        assert p[1..] == Quotients(c[1..], block[1..]);
        assert q[1..] == Quotients(d[1..], block[1..]);
      }
    }
  }

  lemma BlocksInRowOrder(g: Storage, c: Coord, d: Coord)
    requires g.Valid() && RowRuns(g.block, g.shape)
    requires InShape(c, g.shape) && InShape(d, g.shape)
    requires !Before(d, c)
    ensures g.At(c).block <= g.At(d).block
  {
    RowRunsOrdered(g.shape, g.block, c, d);
  }
}
