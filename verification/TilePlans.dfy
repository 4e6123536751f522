/** Planning a matrix request: the general route through a mapping, and the choice of route. */
module TilePlans {
  import opened Radix
  import opened Wrappers
  import opened Request
  import opened Mapping
  import opened Mapped
  import opened Buckets
  import opened MatrixPlans
  import opened RectanglePlans
  import opened CartesianPlans
  import opened LinearPlans

  type CellGroups = Groups<Coord, Cell>

  const ONE: (Cell) -> nat := (cell: Cell) => 1

  /** The reference: the output coordinate behind every requested coordinate. */
  ghost function Targets(m: CoordinateMap, request: BatchRequest, shape: seq<nat>): (t: seq<Coord>)
    requires m.Valid() && request.Valid(m.shape) && Positive(shape)
    ensures |t| == request.len
    ensures forall i :: 0 <= i < |t| ==>
              var c := request.Coords(m.shape)[i]; InShape(c, m.shape) && t[i] == Decode(Max(0, m.Offset(c)), shape)
  {
    var o := MapOffsets(m, request);
    assert forall i :: 0 <= i < |o| ==> InShape(request.Coords(m.shape)[i], m.shape) && o[i] == m.Offset(request.Coords(m.shape)[i]);
    seq(|o|, i requires 0 <= i < |o| => Decode(Max(0, o[i]), shape))
  }

  lemma TargetsInside(m: CoordinateMap, request: BatchRequest, shape: seq<nat>, i: nat)
    requires m.Valid() && request.Valid(m.shape) && Positive(shape) && i < request.len
    ensures InShape(Targets(m, request, shape)[i], shape)
  {
    DecodeInShape(Max(0, MapOffsets(m, request)[i]), shape);
  }

  predicate CellFits(cell: Cell, key: Coord, target: seq<Coord>) {
    && |key| >= 2 && cell.0 < |target|
    && key[|key| - 2] == cell.1 / TILE_SIDE && key[|key| - 1] == cell.2 / TILE_SIDE
    && target[cell.0] == key[..|key| - 2] + [cell.1, cell.2]
  }

  ghost predicate HasCell(groups: CellGroups, p: nat) {
    exists key: Coord, cell: Cell :: Buckets.Holds(groups, key, cell) && cell.0 == p
  }

  /** The first `n` positions, each under the tile of its cell. */
  ghost predicate Gathered(groups: CellGroups, target: seq<Coord>, n: nat) {
    && DistinctKeys(groups) && NoneEmpty(groups)
    && (forall key: Coord, cell: Cell :: Buckets.Holds(groups, key, cell) ==> CellFits(cell, key, target))
    && (forall p: nat :: p < n ==> HasCell(groups, p))
    && TotalWeight(groups, ONE) == n
  }

  lemma NothingGathered(target: seq<Coord>)
    ensures Gathered([], target, 0)
  {}

  method Gather(groups: CellGroups, position: nat, mapped: Coord, ghost target: seq<Coord>) returns (r: CellGroups)
    requires Gathered(groups, target, position) && position < |target| && target[position] == mapped && |mapped| >= 2
    ensures Gathered(r, target, position + 1)
  {
    hide Buckets.Holds, TotalWeight;
    var rank := |mapped|;
    var row, column := mapped[rank - 2], mapped[rank - 1];
    var key: Coord := mapped[..rank - 2] + [row / TILE_SIDE, column / TILE_SIDE];
    var cell: Cell := (position, row, column);
    assert key[..|key| - 2] == mapped[..rank - 2] && mapped == mapped[..rank - 2] + [row, column];
    assert CellFits(cell, key, target);
    r := Push<Coord, Cell>(groups, key, cell, ONE);
    forall p: nat | p < position + 1 ensures HasCell(r, p) {
      if p < position {
        assert HasCell(groups, p);
        var k: Coord, v: Cell :| Buckets.Holds(groups, k, v) && v.0 == p;
        assert Buckets.Holds(r, k, v);
      } else {
        assert Buckets.Holds(r, key, cell);
      }
    }
    assert ONE(cell) == 1;
    forall k: Coord, v: Cell | Buckets.Holds(r, k, v) ensures CellFits(v, k, target) {}
  }

  /** `plan_tiles`: every requested coordinate is resolved and filed under its tile. */
  method GatherTiles(m: CoordinateMap, request: BatchRequest, shape: seq<nat>,
                     strides: seq<nat>) returns (r: Result<CellGroups>)
    requires m.Good(Size(shape)) && |m.shape| <= MAX_RANK && request.Valid(m.shape)
    requires |shape| >= 2 && Positive(shape) && Size(shape) <= U64_MAX && strides == Strides(shape)
    ensures r.Ok? && Gathered(r.value, Targets(m, request, shape), request.len)
  {
    hide CoordinateMap.Offset, BatchRequest.Coords, Tracks, Size, Decode, Gathered, Strides;
    ghost var target := Targets(m, request, shape);
    var groups: CellGroups := [];
    NothingGathered(target);
    var cursor := new Cursor(request, m.shape);
    var position: nat := 0;
    var more, coord := cursor.NextInto();
    while more
      invariant cursor.Valid() && position <= request.len
      invariant cursor.position == if more then position + 1 else position
      invariant more ==> position < request.len && coord == request.Coords(m.shape)[position]
      invariant !more ==> position == request.len
      invariant Gathered(groups, target, position)
      decreases request.len - position
    {
      var mapped := Resolve(m, coord, shape, strides);
      groups := Gather(groups, position, mapped.value, target);
      position := position + 1;
      more, coord := cursor.NextInto();
    }
    return Ok(groups);
  }

  // ---------------------------------------------------------------------
  // Rectangles per tile
  // ---------------------------------------------------------------------

  /** The positions of the first `n` tiles are all written. */
  predicate CellsWritten(plans: seq<Plan>, groups: CellGroups, n: nat)
    requires n <= |groups|
  {
    forall t, k :: 0 <= t < n && 0 <= k < |groups[t].1| ==> Written(plans, groups[t].1[k].0)
  }

  lemma GroupCells(groups: CellGroups, target: seq<Coord>, t: nat)
    requires Gathered(groups, target, |target|) && t < |groups|
    ensures var (key, cells) := groups[t];
            && |key| >= 2 && cells != [] && CellsAre(cells, key[..|key| - 2], target)
            && InTile(cells, key[|key| - 2], key[|key| - 1])
  {
    var (key, cells) := groups[t];
    forall k | 0 <= k < |cells| ensures CellFits(cells[k], key, target) {
      assert Buckets.Holds(groups, key, cells[k]);
    }
    assert CellFits(cells[0], key, target);
  }

  lemma NoTilesPlanned(groups: CellGroups, target: seq<Coord>)
    ensures AllServe([], target) && CellsWritten([], groups, 0) && WriteCount([]) == TotalWeight(groups[..0], ONE)
  {}

  lemma TilePlanned(plans: seq<Plan>, more: seq<Plan>, groups: CellGroups, t: nat, target: seq<Coord>)
    requires t < |groups| && AllServe(plans, target) && AllServe(more, target) && CellsWritten(plans, groups, t)
    requires forall k :: 0 <= k < |groups[t].1| ==> Written(more, groups[t].1[k].0)
    requires WriteCount(plans) == TotalWeight(groups[..t], ONE) && WriteCount(more) == |groups[t].1|
    ensures AllServe(plans + more, target) && CellsWritten(plans + more, groups, t + 1)
    ensures WriteCount(plans + more) == TotalWeight(groups[..t + 1], ONE)
  {
    hide Serves, Written, WriteCount;
    WriteCountConcat(plans, more);
    UnitWeight(groups[t].1, ONE);
    assert groups[..t + 1][..t] == groups[..t];
    forall s, k | 0 <= s < t + 1 && 0 <= k < |groups[s].1| ensures Written(plans + more, groups[s].1[k].0) {
      WrittenConcat(plans, more, groups[s].1[k].0);
    }
  }

  lemma GatheredServed(plans: seq<Plan>, groups: CellGroups, target: seq<Coord>)
    requires Gathered(groups, target, |target|) && AllServe(plans, target)
    requires CellsWritten(plans, groups, |groups|) && WriteCount(plans) == TotalWeight(groups, ONE)
    ensures ServesExactly(plans, target)
  {
    hide AllServe, Written, CellFits;
    forall p: nat | p < |target| ensures Written(plans, p) {
      assert HasCell(groups, p);
      var key: Coord, cell: Cell :| Buckets.Holds(groups, key, cell) && cell.0 == p;
      var t :| 0 <= t < |groups| && groups[t].0 == key && cell in groups[t].1;
      var k :| 0 <= k < |groups[t].1| && groups[t].1[k] == cell;
      assert Written(plans, groups[t].1[k].0);
    }
  }

  /** The general route: rectangles over the cells of each tile. */
  method PlanMapped(m: CoordinateMap, request: BatchRequest, shape: seq<nat>,
                    strides: seq<nat>) returns (r: Result<seq<Plan>>)
    requires m.Good(Size(shape)) && |m.shape| <= MAX_RANK && request.Valid(m.shape)
    requires |shape| >= 2 && Positive(shape) && Size(shape) <= U64_MAX && strides == Strides(shape)
    ensures r.Ok? && ServesExactly(r.value, Targets(m, request, shape))
  {
    hide Gathered, AllServe, CellsWritten, CellsAre, InTile, TotalWeight, WriteCount, Written, ServesExactly,
         Strides, CoordinateMap.Offset;
    var gathered := GatherTiles(m, request, shape, strides);
    var groups := gathered.value;
    ghost var target := Targets(m, request, shape);
    var plans: seq<Plan> := [];
    NoTilesPlanned(groups, target);
    for t := 0 to |groups|
      invariant AllServe(plans, target) && CellsWritten(plans, groups, t)
      invariant WriteCount(plans) == TotalWeight(groups[..t], ONE)
    {
      GroupCells(groups, target, t);
      var (key, cells) := groups[t];
      var more, _ := PlanRectangles(cells, key[..|key| - 2], key[|key| - 2], key[|key| - 1], target);
      TilePlanned(plans, more, groups, t, target);
      plans := plans + more;
    }
    assert groups[..|groups|] == groups;
    GatheredServed(plans, groups, target);
    return Ok(plans);
  }

  // ---------------------------------------------------------------------
  // Choosing a route
  // ---------------------------------------------------------------------

  /** Under the identity mapping the targets are the requested coordinates. */
  lemma IdentityTargets(m: CoordinateMap, request: BatchRequest, shape: seq<nat>)
    requires m.Valid() && request.Valid(m.shape) && Positive(shape) && Size(shape) <= U64_MAX && IsIdentity(m, shape)
    ensures Targets(m, request, shape) == request.Coords(shape)
  {
    hide Decode, CoordinateMap.Offset, BatchRequest.Coords, BatchRequest.Valid, IdentityAxes;
    forall i | 0 <= i < request.len ensures Targets(m, request, shape)[i] == request.Coords(shape)[i] {
      var c := request.Coords(shape)[i];
      CoordsInside(request, shape, i);
      IdentityIs(m, shape, c);
      DecodeOfFlat(c, shape);
    }
  }

  /** A rectangle request of the untransformed product needs prefixes that fit a batch. */
  predicate PrefixesFit(m: CoordinateMap, request: BatchRequest, shape: seq<nat>)
    requires |shape| >= 2
  {
    IsIdentity(m, shape) && request.kind.Rectangles? ==> PrefixesBounded(request.kind.rects, |shape|)
  }

  /** `plan_request`: whichever route is taken, every position of a valid request is written once, from
      the tile cell holding its row and column under its prefix. */
  method PlanRequest(m: CoordinateMap, request: BatchRequest, shape: seq<nat>, strides: seq<nat>)
    returns (r: Result<seq<Plan>>)
    requires m.Good(Size(shape)) && |m.shape| <= MAX_RANK
    requires |shape| >= 2 && Positive(shape) && Size(shape) <= U64_MAX && strides == Strides(shape)
    ensures r.Ok? <==> request.Valid(m.shape) && PrefixesFit(m, request, shape)
    ensures r.Ok? ==> ServesExactly(r.value, Targets(m, request, shape))
  {
    hide ServesExactly, PrefixesBounded, CoordinateMap.Offset, IdentityAxes, Strides, Decode, Size, PrefixesFit;
    if !request.Valid(m.shape) {
      return Err(InvalidCoord);
    }
    r := PlanValid(m, request, shape, strides);
  }

  /** The route of a valid request. */
  method PlanValid(m: CoordinateMap, request: BatchRequest, shape: seq<nat>, strides: seq<nat>)
    returns (r: Result<seq<Plan>>)
    requires m.Good(Size(shape)) && |m.shape| <= MAX_RANK && request.Valid(m.shape)
    requires |shape| >= 2 && Positive(shape) && Size(shape) <= U64_MAX && strides == Strides(shape)
    ensures r.Ok? <==> PrefixesFit(m, request, shape)
    ensures r.Ok? ==> ServesExactly(r.value, Targets(m, request, shape))
  {
    hide ServesExactly, PrefixesBounded, CoordinateMap.Offset, IdentityAxes, Strides, Decode, Size;
    if IsIdentity(m, shape) {
      IdentityTargets(m, request, shape);
      match request.kind {
        case Rectangles(rects) =>
          r := PlanProducts(rects, shape);
          return;
        case Linear(start) =>
          var plans := PlanSpan(start, request.len, shape);
          return Ok(plans);
        case Explicit(_) =>
        case FlatRuns(_) =>
      }
    }
    r := PlanMapped(m, request, shape, strides);
  }
}
