/** Dense walks of a whole shape: flat spans, or whole matrix tiles packed into batches. */
module TiledRequests {
  import opened Radix
  import opened Wrappers
  import opened Request
  import opened Schema
  import opened SliceChunks
  import opened MatrixPlans
  import opened CartesianPlans

  // ---------------------------------------------------------------------
  // Flat spans
  // ---------------------------------------------------------------------

  /** Every coordinate of a shape in row-major order, from position `lo` to `hi`. */
  function RowMajor(shape: seq<nat>, lo: nat, hi: nat): (s: seq<Coord>)
    requires Positive(shape) && lo <= hi
    ensures |s| == hi - lo
  {
    seq(hi - lo, i requires 0 <= i < hi - lo => Decode(lo + i, shape))
  }

  /** `linear_requests`: consecutive spans enumerate the shape in row-major order. */
  method LinearRequests(shape: seq<nat>) returns (requests: seq<BatchRequest>)
    requires Positive(shape) && Size(shape) <= U64_MAX
    ensures forall i :: 0 <= i < |requests| ==> requests[i].Valid(shape) && 0 < requests[i].len
    ensures forall i :: 0 <= i < |requests| - 1 ==> requests[i].len == MAX_BATCH_ELEMENTS
    ensures AllCoords(requests, shape) == RowMajor(shape, 0, Size(shape))
  {
    hide Size, Decode, AllCoords, RowMajor;
    requests := [];
    NoCoords(shape);
    var total := Size(shape);
    var start := 0;
    while start < total
      invariant 0 <= start <= total
      invariant forall i :: 0 <= i < |requests| ==> requests[i].Valid(shape) && 0 < requests[i].len
      invariant forall i :: 0 <= i < |requests| && (start < total || i < |requests| - 1) ==> requests[i].len == MAX_BATCH_ELEMENTS
      invariant AllCoords(requests, shape) == RowMajor(shape, 0, start)
    {
      var request := BatchRequest(Linear(start), Min(total - start, MAX_BATCH_ELEMENTS));
      NextSpan(requests, request, shape, start);
      requests := requests + [request];
      start := start + request.len;
    }
  }

  lemma NoCoords(shape: seq<nat>)
    requires Positive(shape)
    ensures AllCoords([], shape) == RowMajor(shape, 0, 0)
  {}

  lemma NextSpan(requests: seq<BatchRequest>, request: BatchRequest, shape: seq<nat>, start: nat)
    requires Positive(shape) && request.kind == Linear(start) && request.Valid(shape)
    requires forall i :: 0 <= i < |requests| ==> requests[i].Valid(shape)
    requires AllCoords(requests, shape) == RowMajor(shape, 0, start)
    ensures AllCoords(requests + [request], shape) == RowMajor(shape, 0, start + request.len)
  {
    hide Size, Decode, BatchRequest.Valid, RowMajor, AllCoords, BatchRequest.Coords;
    CoordsSnoc(requests, request, shape);
    SpanCoords(request, shape, start);
  }

  lemma CoordsSnoc(requests: seq<BatchRequest>, request: BatchRequest, shape: seq<nat>)
    requires request.Valid(shape) && forall i :: 0 <= i < |requests| ==> requests[i].Valid(shape)
    ensures AllCoords(requests + [request], shape) == AllCoords(requests, shape) + request.Coords(shape)
  {
    hide BatchRequest.Valid, BatchRequest.Coords;
    assert (requests + [request])[..|requests|] == requests;
  }

  lemma SpanCoords(request: BatchRequest, shape: seq<nat>, start: nat)
    requires Positive(shape) && request.kind == Linear(start) && request.Valid(shape)
    ensures RowMajor(shape, 0, start + request.len) == RowMajor(shape, 0, start) + request.Coords(shape)
  {
    hide Size, Decode;
    var all, front, more := RowMajor(shape, 0, start + request.len), RowMajor(shape, 0, start), request.Coords(shape);
    forall i | 0 <= i < |all| ensures all[i] == (front + more)[i] {
      if i >= start {
        assert start + (i - start) == i;
      }
    }
  }

  // ---------------------------------------------------------------------
  // Tiles
  // ---------------------------------------------------------------------

  /** The side of a tile along an axis: the last two axes are tiled. */
  function Side(rank: nat, i: nat): nat {
    if i + 2 >= rank then TILE_SIDE else 1
  }

  function TileGrid(shape: seq<nat>): (g: seq<nat>)
    ensures |g| == |shape|
    ensures forall i :: 0 <= i < |g| ==> g[i] == CeilDiv(shape[i], Side(|shape|, i))
  {
    seq(|shape|, i requires 0 <= i < |shape| => CeilDiv(shape[i], Side(|shape|, i)))
  }

  /** The last position of an axis has a tile. */
  lemma TileDigit(dim: nat, side: nat, x: nat)
    requires x < dim && side > 0
    ensures x / side < CeilDiv(dim, side)
  {
    CeilDivBound(dim, side, x / side);
    assert x / side * side <= x;
  }

  lemma TileStart(dim: nat, side: nat, t: nat)
    requires side > 0 && t < CeilDiv(dim, side)
    ensures t * side < dim
  {
    CeilDivBound(dim, side, t);
  }

  lemma GridPositive(shape: seq<nat>)
    requires Positive(shape)
    ensures Positive(TileGrid(shape))
  {
    forall i | 0 <= i < |shape| ensures TileGrid(shape)[i] > 0 {
      TileDigit(shape[i], Side(|shape|, i), 0);
    }
  }

  /** There are no more tiles than coordinates. */
  lemma GridFits(shape: seq<nat>)
    requires Positive(shape)
    ensures Size(TileGrid(shape)) <= Size(shape)
  {
    forall i | 0 <= i < |shape| ensures TileGrid(shape)[i] <= shape[i] {
      CeilDivBound(shape[i], Side(|shape|, i), shape[i]);
    }
    SizeMonotone(TileGrid(shape), shape);
  }

  /** The part of one axis inside a tile. */
  function TileAxis(dim: nat, side: nat, t: nat): Axis
    requires side > 0 && t < CeilDiv(dim, side)
  {
    TileStart(dim, side, t);
    Span(t * side, 1, Min(dim - t * side, side))
  }

  function TileRect(shape: seq<nat>, tile: Coord): (r: Cartesian)
    requires InShape(tile, TileGrid(shape))
    ensures |r.axes| == |shape|
    ensures forall i :: 0 <= i < |shape| ==> r.axes[i] == TileAxis(shape[i], Side(|shape|, i), tile[i])
  {
    Cartesian(seq(|shape|, i requires 0 <= i < |shape| => TileAxis(shape[i], Side(|shape|, i), tile[i])))
  }

  /** A tile is a nonempty, bounded rectangle inside the shape. */
  lemma TileBounded(shape: seq<nat>, tile: Coord)
    requires |shape| >= 2 && InShape(tile, TileGrid(shape))
    ensures var r := TileRect(shape, tile);
            AxesValid(r.axes, shape) && r.Bounded() && 0 < r.Len() <= TILE_SIDE * TILE_SIDE
  {
    hide Size;
    var r, n := TileRect(shape, tile), |shape| - 2;
    forall i | 0 <= i < |shape| ensures r.axes[i].Valid(shape[i]) && 0 < r.axes[i].Len() <= Side(|shape|, i) {
      TileStart(shape[i], Side(|shape|, i), tile[i]);
    }
    LensSplitTwo(r.axes);
    SizeOfOnes(Lens(r.axes[..n]));
    Square(r.axes[n].Len(), r.axes[n + 1].Len(), TILE_SIDE);
  }

  lemma Square(a: nat, b: nat, side: nat)
    requires 0 < a <= side && 0 < b <= side
    ensures 0 < a * b <= side * side
  {
    MulMonotone(a, side, b);
    MulMonotone(b, side, side);
    MulMonotone(1, a, b);
  }

  /** The rectangles of consecutive tiles. */
  function TileRects(shape: seq<nat>, lo: nat, hi: nat): (rects: seq<Cartesian>)
    requires Positive(shape) && lo <= hi <= Size(TileGrid(shape))
    ensures |rects| == hi - lo
  {
    GridPositive(shape);
    seq(hi - lo, k requires 0 <= k < hi - lo =>
      DecodeInShape(lo + k, TileGrid(shape));
      TileRect(shape, Decode(lo + k, TileGrid(shape))))
  }

  /** All coordinates, tile by tile. */
  function Tiling(shape: seq<nat>): seq<Coord>
    requires Positive(shape)
  {
    RectCoords(TileRects(shape, 0, Size(TileGrid(shape))))
  }

  // ---------------------------------------------------------------------
  // Every coordinate, once
  // ---------------------------------------------------------------------

  /** The tile of a coordinate and its place inside. */
  function TileOf(c: Coord): (t: Coord)
    ensures |t| == |c| && forall i :: 0 <= i < |t| ==> t[i] == c[i] / Side(|c|, i)
  {
    seq(|c|, i requires 0 <= i < |c| => c[i] / Side(|c|, i))
  }

  function PlaceOf(c: Coord): (d: Coord)
    ensures |d| == |c| && forall i :: 0 <= i < |d| ==> d[i] == c[i] % Side(|c|, i)
  {
    seq(|c|, i requires 0 <= i < |c| => c[i] % Side(|c|, i))
  }

  lemma PlaceInside(c: Coord, shape: seq<nat>)
    requires InShape(c, shape)
    ensures InShape(TileOf(c), TileGrid(shape))
    ensures var r := TileRect(shape, TileOf(c)); InShape(PlaceOf(c), Lens(r.axes)) && Pick(r.axes, PlaceOf(c)) == c
  {
    forall i | 0 <= i < |c| ensures TileOf(c)[i] < TileGrid(shape)[i] {
      TileDigit(shape[i], Side(|c|, i), c[i]);
    }
    var r := TileRect(shape, TileOf(c));
    forall i | 0 <= i < |c| ensures PlaceOf(c)[i] < r.axes[i].Len() && r.axes[i].At(PlaceOf(c)[i]) == c[i] {
      DigitPlace(shape[i], Side(|c|, i), c[i]);
    }
    assert Pick(r.axes, PlaceOf(c)) == c;
  }

  lemma DigitPlace(dim: nat, side: nat, x: nat)
    requires side > 0 && x < dim
    ensures x / side < CeilDiv(dim, side)
    ensures var axis := TileAxis(dim, side, x / side); x % side < axis.Len() && axis.At(x % side) == x
  {
    TileDigit(dim, side, x);
    assert x == x / side * side + x % side;
  }

  /** A coordinate picked from a tile belongs to that tile, at its own place. */
  lemma PickedFrom(shape: seq<nat>, tile: Coord, d: Coord)
    requires InShape(tile, TileGrid(shape)) && InShape(d, Lens(TileRect(shape, tile).axes))
    ensures var c := Pick(TileRect(shape, tile).axes, d); |c| == |shape| && TileOf(c) == tile && PlaceOf(c) == d
  {
    var r := TileRect(shape, tile);
    var c := Pick(r.axes, d);
    forall i | 0 <= i < |c| ensures TileOf(c)[i] == tile[i] && PlaceOf(c)[i] == d[i] {
      TileStart(shape[i], Side(|c|, i), tile[i]);
      DivUnique(tile[i], d[i], Side(|c|, i));
    }
  }

  /** The tile rectangle of a position of the tiling, and the place inside it. */
  lemma {:induction false} Locate(rects: seq<Cartesian>, p: nat) returns (i: nat, k: nat)
    requires p < |RectCoords(rects)|
    ensures i < |rects| && k < rects[i].Len() && p == |RectCoords(rects[..i])| + k
    decreases |rects|
  {
    hide Cartesian.Coordinate, Cartesian.Len;
    var n := |rects| - 1;
    if p < |RectCoords(rects[..n])| {
      i, k := Locate(rects[..n], p);
      assert rects[..n][..i] == rects[..i];
    } else {
      i, k := n, p - |RectCoords(rects[..n])|;
    }
  }

  /** The position of a coordinate in the tiling. */
  function PositionOf(shape: seq<nat>, c: Coord): nat
    requires Positive(shape) && InShape(c, shape)
  {
    PlaceInside(c, shape);
    var grid := TileGrid(shape);
    FlatBound(TileOf(c), grid);
    |RectCoords(TileRects(shape, 0, Size(grid))[..Flat(TileOf(c), grid)])| + Flat(PlaceOf(c), Lens(TileRect(shape, TileOf(c)).axes))
  }

  /** Every coordinate of the shape is in the tiling. */
  lemma TilingCovers(shape: seq<nat>, c: Coord)
    requires Positive(shape) && InShape(c, shape)
    ensures PositionOf(shape, c) < |Tiling(shape)| && Tiling(shape)[PositionOf(shape, c)] == c
  {
    hide Size, Flat, Decode, TileRect;
    PlaceInside(c, shape);
    var grid, t, d := TileGrid(shape), TileOf(c), PlaceOf(c);
    var rects := TileRects(shape, 0, Size(grid));
    var r := TileRect(shape, t);
    FlatBound(t, grid);
    DecodeOfFlat(t, grid);
    assert rects[Flat(t, grid)] == r;
    FlatBound(d, Lens(r.axes));
    DecodeOfFlat(d, Lens(r.axes));
    RectCoordsAt(rects, Flat(t, grid), Flat(d, Lens(r.axes)));
  }

  /** Every position of the tiling is the position of its coordinate, so none repeats. */
  lemma TilingOnce(shape: seq<nat>, p: nat)
    requires Positive(shape) && p < |Tiling(shape)|
    ensures InShape(Tiling(shape)[p], shape) && PositionOf(shape, Tiling(shape)[p]) == p
  {
    hide Size, Flat, Decode, TileRect;
    GridPositive(shape);
    var grid := TileGrid(shape);
    var rects := TileRects(shape, 0, Size(grid));
    var i, k := Locate(rects, p);
    RectCoordsAt(rects, i, k);
    DecodeInShape(i, grid);
    var t := Decode(i, grid);
    var r := TileRect(shape, t);
    assert rects[i] == r by { assert 0 + i == i; }
    EmptySize(Lens(r.axes));
    DecodeInShape(k, Lens(r.axes));
    var d := Decode(k, Lens(r.axes));
    PickedFrom(shape, t, d);
    PickedInside(shape, t, d);
    FlatOfDecodeInside(i, grid);
    FlatOfDecodeInside(k, Lens(r.axes));
  }

  lemma PickedInside(shape: seq<nat>, tile: Coord, d: Coord)
    requires InShape(tile, TileGrid(shape)) && InShape(d, Lens(TileRect(shape, tile).axes))
    ensures InShape(Pick(TileRect(shape, tile).axes, d), shape)
  {
    var r := TileRect(shape, tile);
    forall i | 0 <= i < |shape| ensures Pick(r.axes, d)[i] < shape[i] {
      TileStart(shape[i], Side(|shape|, i), tile[i]);
    }
  }

  // ---------------------------------------------------------------------
  // Packing tiles into batches
  // ---------------------------------------------------------------------

  /** `tiled_requests`: a walk of the tile grid with one tile of lookahead. */
  class TileWalk {
    const shape: seq<nat>
    const tiles: RowMajorCoords
    var peeked: Option<Coord>

    ghost predicate Valid()
      reads this, tiles
    {
      && |shape| >= 2 && Positive(shape) && Size(shape) <= U64_MAX
      && tiles.Valid() && tiles.shape == TileGrid(shape)
      && match peeked
         case None => tiles.remaining == 0
         case Some(tile) => tiles.remaining < Size(TileGrid(shape)) && tile == Decode(Size(TileGrid(shape)) - tiles.remaining - 1, TileGrid(shape))
    }

    /** How many tiles have been packed. */
    ghost function Index(): nat
      requires Valid()
      reads this, tiles
    {
      if peeked.Some? then Size(TileGrid(shape)) - tiles.remaining - 1 else Size(TileGrid(shape))
    }

    constructor (shape: seq<nat>)
      requires |shape| >= 2 && Positive(shape) && Size(shape) <= U64_MAX
      ensures Valid() && this.shape == shape && Index() == 0 && fresh(tiles)
    {
      this.shape := shape;
      GridPositive(shape);
      GridFits(shape);
      SizePositive(TileGrid(shape));
      var walk := new RowMajorCoords(TileGrid(shape));
      tiles := walk;
      peeked := None;
      new;
      peeked := tiles.Next();
    }

    /** The next batch: as many whole tiles as fit, and at least one. */
    method Next() returns (r: Option<BatchRequest>)
      requires Valid()
      modifies this, tiles
      ensures Valid()
      ensures r.None? <==> old(Index()) == Size(TileGrid(shape))
      ensures r.None? ==> Index() == old(Index())
      ensures r.Some? ==> old(Index()) < Index() && r.value.Valid(shape) && 0 < r.value.len
      ensures r.Some? ==> r.value.kind == Rectangles(TileRects(shape, old(Index()), Index()))
      ensures r.Some? && peeked.Some? ==>
                InShape(peeked.value, TileGrid(shape)) && r.value.len + TileRect(shape, peeked.value).Len() > MAX_BATCH_ELEMENTS
    {
      hide Size, Decode, Cartesian.Coordinate, RectCoords, TileRects, TileRect, CeilDiv, TileGrid;
      var rectangles: seq<Cartesian> := [];
      var size: nat := 0;
      ghost var from := Index();
      GridPositive(shape);
      NothingPacked(shape, from);
      while peeked.Some?
        invariant Valid() && from <= Index()
        invariant TilesPacked(shape, from, Index(), rectangles, size)
        decreases tiles.remaining, peeked.Some?
      {
        DecodeInShape(Index(), TileGrid(shape));
        var rect := TileRect(shape, peeked.value);
        if size + rect.Len() > MAX_BATCH_ELEMENTS {
          break;
        }
        NextPacked(shape, from, Index(), rectangles, size, peeked.value);
        size := size + rect.Len();
        rectangles := rectangles + [rect];
        peeked := tiles.Next();
      }
      if peeked.Some? {
        DecodeInShape(Index(), TileGrid(shape));
        TileBounded(shape, peeked.value);
      }
      if rectangles == [] {
        return None;
      }
      return Some(BatchRequest(Rectangles(rectangles), size));
    }
  }

  /** Consecutive tiles collected so far. */
  predicate TilesPacked(shape: seq<nat>, lo: nat, hi: nat, rectangles: seq<Cartesian>, size: nat)
    requires Positive(shape)
  {
    && lo <= hi <= Size(TileGrid(shape)) && rectangles == TileRects(shape, lo, hi)
    && size == |RectCoords(rectangles)| <= MAX_BATCH_ELEMENTS
    && (lo < hi ==> size > 0)
    && forall i :: 0 <= i < |rectangles| ==> AxesValid(rectangles[i].axes, shape)
  }

  lemma NothingPacked(shape: seq<nat>, lo: nat)
    requires Positive(shape) && lo <= Size(TileGrid(shape))
    ensures TilesPacked(shape, lo, lo, [], 0)
  {}

  lemma NextPacked(shape: seq<nat>, lo: nat, hi: nat, rectangles: seq<Cartesian>, size: nat, tile: Coord)
    requires |shape| >= 2 && Positive(shape) && TilesPacked(shape, lo, hi, rectangles, size)
    requires hi < Size(TileGrid(shape)) && InShape(tile, TileGrid(shape))
    requires Positive(TileGrid(shape)) && tile == Decode(hi, TileGrid(shape))
    requires size + TileRect(shape, tile).Len() <= MAX_BATCH_ELEMENTS
    ensures TilesPacked(shape, lo, hi + 1, rectangles + [TileRect(shape, tile)], size + TileRect(shape, tile).Len())
  {
    hide Size, Decode, Cartesian.Coordinate, TileRects, TileRect, RectCoords, AxesValid, TileGrid, CeilDiv;
    TileBounded(shape, tile);
    RectCoordsSnoc(rectangles, TileRect(shape, tile));
    NextRect(shape, lo, hi, tile);
  }

  lemma NextRect(shape: seq<nat>, lo: nat, hi: nat, tile: Coord)
    requires Positive(shape) && lo <= hi < Size(TileGrid(shape)) && InShape(tile, TileGrid(shape))
    requires Positive(TileGrid(shape)) && tile == Decode(hi, TileGrid(shape))
    ensures TileRects(shape, lo, hi + 1) == TileRects(shape, lo, hi) + [TileRect(shape, tile)]
  {
    hide TileRect, Size, Decode;
    assert lo + (hi - lo) == hi;
  }

  lemma {:induction false} RectCoordsConcat(a: seq<Cartesian>, b: seq<Cartesian>)
    ensures RectCoords(a + b) == RectCoords(a) + RectCoords(b)
    decreases |b|
  {
    hide RectCoords, Cartesian.Coords;
    NoRects();
    if b == [] {
      assert a + b == a && RectCoords(a) + [] == RectCoords(a);
    } else {
      var front, last := b[..|b| - 1], b[|b| - 1];
      RectCoordsConcat(a, front);
      RectCoordsSnoc(a + front, last);
      RectCoordsSnoc(front, last);
      assert b == front + [last] && a + b == (a + front) + [last];
    }
  }

  lemma NoRects()
    ensures RectCoords([]) == []
  {}

  lemma RectsConcat(shape: seq<nat>, lo: nat, mid: nat, hi: nat)
    requires Positive(shape) && lo <= mid <= hi <= Size(TileGrid(shape))
    ensures TileRects(shape, lo, hi) == TileRects(shape, lo, mid) + TileRects(shape, mid, hi)
  {
    hide TileRect, Size, Decode;
    GridPositive(shape);
    forall k | 0 <= k < hi - lo
      ensures TileRects(shape, lo, hi)[k] == (TileRects(shape, lo, mid) + TileRects(shape, mid, hi))[k]
    {
      if k >= mid - lo {
        assert mid + (k - (mid - lo)) == lo + k;
      }
    }
  }

  /** The batches are bounded and together hold every coordinate exactly once, tile by tile. */
  method TileBatches(shape: seq<nat>) returns (requests: seq<BatchRequest>)
    requires |shape| >= 2 && Positive(shape) && Size(shape) <= U64_MAX
    ensures forall i :: 0 <= i < |requests| ==> requests[i].Valid(shape) && 0 < requests[i].len
    ensures AllCoords(requests, shape) == Tiling(shape)
  {
    hide Size, Cartesian.Coordinate, TileRects, RectCoords, AllCoords;
    requests := [];
    var walk := new TileWalk(shape);
    ghost var at := 0;
    NoTileCoords(shape);
    var next := walk.Next();
    while next.Some?
      invariant fresh(walk) && fresh(walk.tiles) && walk.Valid() && walk.shape == shape
      invariant at <= Size(TileGrid(shape))
      invariant next.None? ==> at == Size(TileGrid(shape))
      invariant next.Some? ==> at < walk.Index() && next.value.Valid(shape) && 0 < next.value.len
      invariant next.Some? ==> next.value.kind == Rectangles(TileRects(shape, at, walk.Index()))
      invariant forall i :: 0 <= i < |requests| ==> requests[i].Valid(shape) && 0 < requests[i].len
      invariant AllCoords(requests, shape) == RectCoords(TileRects(shape, 0, at))
      decreases Size(TileGrid(shape)) - at
    {
      ghost var mid := walk.Index();
      CoordsSnoc(requests, next.value, shape);
      requests := requests + [next.value];
      RectsConcat(shape, 0, at, mid);
      RectCoordsConcat(TileRects(shape, 0, at), TileRects(shape, at, mid));
      at := mid;
      next := walk.Next();
    }
  }

  lemma NoTileCoords(shape: seq<nat>)
    requires Positive(shape)
    ensures RectCoords(TileRects(shape, 0, 0)) == [] == AllCoords([], shape)
  {}
}
