/** Planning a product of axis selections: one grid scatter per pair of axis tiles. */
module CartesianPlans {
  import opened Radix
  import opened Wrappers
  import opened Request
  import opened KeyScans
  import opened Buckets
  import opened MatrixPlans

  /** Axis positions by tile, each with its value. */
  type AxisTileGroups = Groups<nat, (nat, nat)>

  const EACH_ONE: ((nat, nat)) -> nat := (v: (nat, nat)) => 1

  /** The tiles hold exactly the positions of the axis. */
  ghost predicate TilesOf(tiles: AxisTileGroups, axis: Axis, n: nat)
    requires n <= axis.Len()
  {
    && DistinctKeys(tiles) && NoneEmpty(tiles)
    && (forall k: nat, v: (nat, nat) :: Buckets.Holds(tiles, k, v) <==> v.0 < n && v.1 == axis.At(v.0) && k == v.1 / TILE_SIDE)
    && TotalWeight(tiles, EACH_ONE) == n
  }

  /** `axis_tiles`: every position under the tile of its value. */
  method AxisTiles(axis: Axis) returns (tiles: AxisTileGroups)
    ensures TilesOf(tiles, axis, axis.Len())
  {
    hide Buckets.Holds, TotalWeight;
    tiles := [];
    NoTiles(axis);
    for position := 0 to axis.Len()
      invariant TilesOf(tiles, axis, position)
    {
      var value := axis.At(position);
      var entry: (nat, nat) := (position, value);
      tiles := Push<nat, (nat, nat)>(tiles, value / TILE_SIDE, entry, EACH_ONE);
    }
  }

  lemma NoTiles(axis: Axis)
    ensures TilesOf([], axis, 0)
  {}

  /** The position and value pairs of one tile. */
  predicate TilePositions(positions: seq<(nat, nat)>, axis: Axis, tile: nat) {
    && positions != []
    && forall k :: 0 <= k < |positions| ==>
         positions[k].0 < axis.Len() && positions[k].1 == axis.At(positions[k].0) && positions[k].1 / TILE_SIDE == tile
  }

  lemma TileAt(tiles: AxisTileGroups, axis: Axis, t: nat)
    requires TilesOf(tiles, axis, axis.Len()) && t < |tiles|
    ensures TilePositions(tiles[t].1, axis, tiles[t].0)
  {
    forall k | 0 <= k < |tiles[t].1|
      ensures var x := tiles[t].1[k]; x.0 < axis.Len() && x.1 == axis.At(x.0) && x.1 / TILE_SIDE == tiles[t].0
    {
      assert Buckets.Holds(tiles, tiles[t].0, tiles[t].1[k]);
    }
  }

  /** Some tile among the first `n` holds the position. */
  predicate HasPosition(tiles: AxisTileGroups, n: nat, position: nat)
    requires n <= |tiles|
  {
    exists t :: 0 <= t < n && InTilePositions(tiles[t].1, position)
  }

  predicate InTilePositions(positions: seq<(nat, nat)>, position: nat) {
    exists k :: 0 <= k < |positions| && positions[k].0 == position
  }

  lemma EveryPosition(tiles: AxisTileGroups, axis: Axis, position: nat)
    requires TilesOf(tiles, axis, axis.Len()) && position < axis.Len()
    ensures HasPosition(tiles, |tiles|, position)
  {
    hide Buckets.Holds;
    var entry: (nat, nat) := (position, axis.At(position));
    var key: nat := entry.1 / TILE_SIDE;
    assert Buckets.Holds<nat, (nat, nat)>(tiles, key, entry);
    HeldPosition(tiles, key, entry);
  }

  lemma HeldPosition(tiles: AxisTileGroups, key: nat, entry: (nat, nat))
    requires Buckets.Holds(tiles, key, entry)
    ensures HasPosition(tiles, |tiles|, entry.0)
  {
    var t :| 0 <= t < |tiles| && tiles[t].0 == key && entry in tiles[t].1;
    var k :| 0 <= k < |tiles[t].1| && tiles[t].1[k] == entry;
    assert tiles[t].1[k].0 == entry.0;
  }

  function ValuesOf(positions: seq<(nat, nat)>): (v: seq<nat>)
    ensures |v| == |positions| && forall k :: 0 <= k < |v| ==> v[k] == positions[k].1
  {
    seq(|positions|, k requires 0 <= k < |positions| => positions[k].1)
  }

  /** A grid axis: each position with the index of its value. */
  ghost predicate SelectedAs(positions: seq<(nat, nat)>, values: seq<nat>, scatter: seq<(nat, nat)>) {
    && Ascending(values) && |scatter| == |positions|
    && (forall v :: v in values ==> v in ValuesOf(positions))
    && forall k :: 0 <= k < |positions| ==>
         scatter[k].0 == positions[k].0 && scatter[k].1 < |values| && values[scatter[k].1] == positions[k].1
  }

  /** `selected_axis`: the sorted distinct values, and each position's place among them. */
  method SelectedAxis(positions: seq<(nat, nat)>) returns (values: seq<nat>, scatter: seq<(nat, nat)>)
    ensures SelectedAs(positions, values, scatter)
    ensures positions != [] ==> values != []
  {
    hide SortDedup, IndexOf;
    values := SortDedup(ValuesOf(positions));
    SortedMembers(ValuesOf(positions));
    scatter := [];
    for k := 0 to |positions|
      invariant |scatter| == k
      invariant forall j :: 0 <= j < k ==>
                  scatter[j].0 == positions[j].0 && scatter[j].1 < |values| && values[scatter[j].1] == positions[j].1
    {
      assert ValuesOf(positions)[k] in values;
      scatter := scatter + [(positions[k].0, IndexOf(values, positions[k].1))];
    }
  }

  lemma SelectedBound(positions: seq<(nat, nat)>, values: seq<nat>, scatter: seq<(nat, nat)>, axis: Axis, tile: nat)
    requires SelectedAs(positions, values, scatter) && TilePositions(positions, axis, tile)
    ensures |values| <= TILE_SIDE
  {
    forall k | 0 <= k < |values| ensures values[k] / TILE_SIDE == tile {
      assert values[k] in values;
      var j :| 0 <= j < |positions| && ValuesOf(positions)[j] == values[k];
    }
    TileBound(values, tile);
  }

  // ---------------------------------------------------------------------
  // Grid writes
  // ---------------------------------------------------------------------

  lemma {:induction false} GridCount(start: nat, width: nat, rows: seq<(nat, nat)>, selected: seq<(nat, nat)>,
                                     columns: nat)
    ensures |GridWrites(start, width, rows, selected, columns)| == |rows| * |selected|
    decreases |rows|
  {
    if rows != [] {
      GridCount(start, width, rows[..|rows| - 1], selected, columns);
      assert |rows| * |selected| == (|rows| - 1) * |selected| + |selected|;
    }
  }

  /** The write for row entry `r` and column entry `c`. */
  function GridWrite(start: nat, width: nat, row: (nat, nat), column: (nat, nat), columns: nat): (nat, nat) {
    (start + row.0 * width + column.0, row.1 * columns + column.1)
  }

  /** Each write belongs to one row entry and one column entry. */
  lemma {:induction false} GridForm(start: nat, width: nat, rows: seq<(nat, nat)>, selected: seq<(nat, nat)>,
                                    columns: nat, k: nat)
    returns (r: nat, c: nat)
    requires k < |GridWrites(start, width, rows, selected, columns)|
    ensures r < |rows| && c < |selected|
    ensures GridWrites(start, width, rows, selected, columns)[k] == GridWrite(start, width, rows[r], selected[c], columns)
    decreases |rows|
  {
    var n := |rows| - 1;
    var front := GridWrites(start, width, rows[..n], selected, columns);
    if k < |front| {
      r, c := GridForm(start, width, rows[..n], selected, columns, k);
    } else {
      r, c := n, k - |front|;
    }
  }

  /** Every pair of entries is written. */
  lemma {:induction false} GridPair(start: nat, width: nat, rows: seq<(nat, nat)>, selected: seq<(nat, nat)>,
                                    columns: nat, r: nat, c: nat)
    returns (k: nat)
    requires r < |rows| && c < |selected|
    ensures k < |GridWrites(start, width, rows, selected, columns)|
    ensures GridWrites(start, width, rows, selected, columns)[k] == GridWrite(start, width, rows[r], selected[c], columns)
    decreases |rows|
  {
    var n := |rows| - 1;
    if r < n {
      k := GridPair(start, width, rows[..n], selected, columns, r, c);
    } else {
      k := |GridWrites(start, width, rows[..n], selected, columns)| + c;
    }
  }

  // ---------------------------------------------------------------------
  // One block of positions: fixed prefix, all rows and columns
  // ---------------------------------------------------------------------

  predicate BlockCell(cells: seq<Coord>, prefix: Coord, start: nat, rows: Axis, columns: Axis, i: nat, j: nat)
    requires i < rows.Len() && j < columns.Len()
  {
    && start + i * columns.Len() + j < |cells|
    && cells[start + i * columns.Len() + j] == prefix + [rows.At(i), columns.At(j)]
  }

  /** The positions from `start` hold the whole product of the two axes under one prefix. */
  predicate BlockCells(cells: seq<Coord>, prefix: Coord, start: nat, rows: Axis, columns: Axis) {
    forall i: nat, j: nat :: 0 <= i < rows.Len() && 0 <= j < columns.Len() ==> BlockCell(cells, prefix, start, rows, columns, i, j)
  }

  lemma GridRequested(cells: seq<Coord>, prefix: Coord, start: nat, rows: Axis, columns: Axis,
                      rowPositions: seq<(nat, nat)>, rowValues: seq<nat>, rowScatter: seq<(nat, nat)>, rowTile: nat,
                      columnPositions: seq<(nat, nat)>, columnValues: seq<nat>, columnScatter: seq<(nat, nat)>, columnTile: nat)
    requires BlockCells(cells, prefix, start, rows, columns)
    requires TilePositions(rowPositions, rows, rowTile) && TilePositions(columnPositions, columns, columnTile)
    requires SelectedAs(rowPositions, rowValues, rowScatter) && SelectedAs(columnPositions, columnValues, columnScatter)
    ensures Requested(Plan(prefix, rowValues, columnValues, Grid(start, columns.Len(), rowScatter, columnScatter)), cells)
  {
    hide Axis.At, RowRequested, ColumnRequested;
    forall i | 0 <= i < |rowValues| ensures RowRequested(prefix, rowValues[i], cells) {
      var r := ValueAt(rowPositions, rowValues, rowScatter, i);
      PairRequested(cells, prefix, start, rows, columns, rowPositions[r], columnPositions[0]);
    }
    forall j | 0 <= j < |columnValues| ensures ColumnRequested(prefix, columnValues[j], cells) {
      var c := ValueAt(columnPositions, columnValues, columnScatter, j);
      PairRequested(cells, prefix, start, rows, columns, rowPositions[0], columnPositions[c]);
    }
  }

  lemma ValueAt(positions: seq<(nat, nat)>, values: seq<nat>, scatter: seq<(nat, nat)>, i: nat) returns (k: nat)
    requires SelectedAs(positions, values, scatter) && i < |values|
    ensures k < |positions| && positions[k].1 == values[i]
  {
    assert values[i] in values;
    k :| 0 <= k < |positions| && ValuesOf(positions)[k] == values[i];
  }

  lemma PairRequested(cells: seq<Coord>, prefix: Coord, start: nat, rows: Axis, columns: Axis, row: (nat, nat),
                      column: (nat, nat))
    requires BlockCells(cells, prefix, start, rows, columns)
    requires row.0 < rows.Len() && row.1 == rows.At(row.0) && column.0 < columns.Len() && column.1 == columns.At(column.0)
    ensures RowRequested(prefix, row.1, cells) && ColumnRequested(prefix, column.1, cells)
  {
    hide RowRequested, ColumnRequested, Axis.At;
    assert BlockCell(cells, prefix, start, rows, columns, row.0, column.0);
    CellRequests(prefix, row.1, column.1, cells, start + row.0 * columns.Len() + column.0);
  }

  /** One grid plan: a row tile against a column tile. */
  lemma GridServes(cells: seq<Coord>, prefix: Coord, start: nat, rows: Axis, columns: Axis,
                   rowPositions: seq<(nat, nat)>, rowValues: seq<nat>, rowScatter: seq<(nat, nat)>, rowTile: nat,
                   columnPositions: seq<(nat, nat)>, columnValues: seq<nat>, columnScatter: seq<(nat, nat)>, columnTile: nat)
    requires BlockCells(cells, prefix, start, rows, columns)
    requires TilePositions(rowPositions, rows, rowTile) && TilePositions(columnPositions, columns, columnTile)
    requires SelectedAs(rowPositions, rowValues, rowScatter) && rowValues != []
    requires SelectedAs(columnPositions, columnValues, columnScatter) && columnValues != []
    ensures Serves(Plan(prefix, rowValues, columnValues, Grid(start, columns.Len(), rowScatter, columnScatter)), cells)
  {
    hide Axis.At, CellOf, GridWrites;
    var plan := Plan(prefix, rowValues, columnValues, Grid(start, columns.Len(), rowScatter, columnScatter));
    SelectedBound(rowPositions, rowValues, rowScatter, rows, rowTile);
    SelectedBound(columnPositions, columnValues, columnScatter, columns, columnTile);
    GridRequested(cells, prefix, start, rows, columns, rowPositions, rowValues, rowScatter, rowTile,
                  columnPositions, columnValues, columnScatter, columnTile);
    var writes := Writes(plan.scatter, |plan.columns|);
    forall k | 0 <= k < |writes| ensures WriteServes(plan, writes[k], cells) {
      var r, c := GridForm(start, columns.Len(), rowScatter, columnScatter, |columnValues|, k);
      assert BlockCell(cells, prefix, start, rows, columns, rowPositions[r].0, columnPositions[c].0);
      GridCell(plan, rowScatter[r].1, columnScatter[c].1);
    }
  }

  lemma GridCell(plan: Plan, i: nat, j: nat)
    requires i < |plan.rows| && j < |plan.columns|
    ensures i * |plan.columns| + j >= 0
    ensures plan.columns != [] && i * |plan.columns| + j < |plan.rows| * |plan.columns|
    ensures CellOf(plan, i * |plan.columns| + j) == plan.prefix + [plan.rows[i], plan.columns[j]]
  {
    var c := |plan.columns|;
    MulMonotone(i + 1, |plan.rows|, c);
    assert (i + 1) * c == i * c + c;
    MulMonotone(0, i, c);
    DivUnique(i, j, c);
  }

  lemma GridWrites2(plan: Plan, i: nat, j: nat)
    requires plan.scatter.Grid?
    requires InTilePositions(plan.scatter.rows, i) && InTilePositions(plan.scatter.columns, j)
    ensures WritesTo(plan, plan.scatter.start + i * plan.scatter.width + j)
  {
    hide GridWrites;
    var s := plan.scatter;
    var r :| 0 <= r < |s.rows| && s.rows[r].0 == i;
    var c :| 0 <= c < |s.columns| && s.columns[c].0 == j;
    var k := GridPair(s.start, s.width, s.rows, s.columns, |plan.columns|, r, c);
    assert Writes(s, |plan.columns|)[k].0 == s.start + i * s.width + j;
  }

  lemma SamePositions(positions: seq<(nat, nat)>, values: seq<nat>, scatter: seq<(nat, nat)>, position: nat)
    requires SelectedAs(positions, values, scatter) && InTilePositions(positions, position)
    ensures InTilePositions(scatter, position)
  {
    var k :| 0 <= k < |positions| && positions[k].0 == position;
    assert scatter[k].0 == position;
  }

  /** Row positions of the first `a` row tiles are written in every column. */
  ghost predicate RowsWritten(plans: seq<Plan>, tiles: AxisTileGroups, a: nat, start: nat, width: nat)
    requires a <= |tiles|
  {
    forall i: nat, j: nat :: HasPosition(tiles, a, i) && 0 <= j < width ==> WrittenAt(plans, start, width, i, j)
  }

  predicate WrittenAt(plans: seq<Plan>, start: nat, width: nat, i: nat, j: nat) {
    Written(plans, start + i * width + j)
  }

  /** The given row positions are written in the columns of the first `b` column tiles. */
  ghost predicate ColumnsWritten(plans: seq<Plan>, rows: seq<(nat, nat)>, tiles: AxisTileGroups, b: nat, start: nat,
                                 width: nat)
    requires b <= |tiles|
  {
    forall i: nat, j: nat :: InTilePositions(rows, i) && HasPosition(tiles, b, j) ==> WrittenAt(plans, start, width, i, j)
  }

  /** The plans of one row tile against every column tile. */
  method RowPlans(ghost cells: seq<Coord>, prefix: Coord, start: nat, ghost rows: Axis, columns: Axis,
                  rowPositions: seq<(nat, nat)>, ghost rowTile: nat, tiles: AxisTileGroups) returns (plans: seq<Plan>)
    requires BlockCells(cells, prefix, start, rows, columns) && TilePositions(rowPositions, rows, rowTile)
    requires TilesOf(tiles, columns, columns.Len())
    ensures AllServe(plans, cells) && WriteCount(plans) == |rowPositions| * columns.Len()
    ensures ColumnsWritten(plans, rowPositions, tiles, |tiles|, start, columns.Len())
  {
    hide Serves, BlockCells, TilesOf, TilePositions, SelectedAs, HasPosition, InTilePositions, Written, TotalWeight,
         Writes, Axis.Len;
    var rowValues, rowScatter := SelectedAxis(rowPositions);
    plans := [];
    NoColumns(rowPositions, tiles, start, columns.Len());
    PositionsExist(rowPositions, rows, rowTile);
    for b := 0 to |tiles|
      invariant AllServe(plans, cells)
      invariant WriteCount(plans) == |rowPositions| * TotalWeight(tiles[..b], EACH_ONE)
      invariant ColumnsWritten(plans, rowPositions, tiles, b, start, columns.Len())
    {
      TileAt(tiles, columns, b);
      PositionsExist(tiles[b].1, columns, tiles[b].0);
      var columnValues, columnScatter := SelectedAxis(tiles[b].1);
      var plan := Plan(prefix, rowValues, columnValues, Grid(start, columns.Len(), rowScatter, columnScatter));
      GridServes(cells, prefix, start, rows, columns, rowPositions, rowValues, rowScatter, rowTile,
                 tiles[b].1, columnValues, columnScatter, tiles[b].0);
      ColumnsNext(plans, plan, rowPositions, rowValues, tiles, b, start, columns.Len());
      PlanCountNext(plans, plan, rowPositions, rowValues, tiles, b);
      plans := plans + [plan];
    }
    assert tiles[..|tiles|] == tiles;
    AllWeight(tiles, columns);
  }

  lemma PositionsExist(positions: seq<(nat, nat)>, axis: Axis, tile: nat)
    requires TilePositions(positions, axis, tile)
    ensures positions != []
  {}

  lemma AllWeight(tiles: AxisTileGroups, axis: Axis)
    requires TilesOf(tiles, axis, axis.Len())
    ensures TotalWeight(tiles, EACH_ONE) == axis.Len()
  {}

  lemma NoColumns(rows: seq<(nat, nat)>, tiles: AxisTileGroups, start: nat, width: nat)
    ensures ColumnsWritten([], rows, tiles, 0, start, width)
    ensures TotalWeight(tiles[..0], EACH_ONE) == 0 && |rows| * 0 == 0
  {}

  lemma ColumnsNext(plans: seq<Plan>, plan: Plan, rows: seq<(nat, nat)>, rowValues: seq<nat>, tiles: AxisTileGroups,
                    b: nat, start: nat, width: nat)
    requires b < |tiles| && ColumnsWritten(plans, rows, tiles, b, start, width)
    requires plan.scatter.Grid? && plan.scatter.start == start && plan.scatter.width == width
    requires SelectedAs(rows, rowValues, plan.scatter.rows) && SelectedAs(tiles[b].1, plan.columns, plan.scatter.columns)
    ensures ColumnsWritten(plans + [plan], rows, tiles, b + 1, start, width)
  {
    hide Written, InTilePositions, SelectedAs, Writes;
    forall i: nat, j: nat | InTilePositions(rows, i) && HasPosition(tiles, b + 1, j)
      ensures WrittenAt(plans + [plan], start, width, i, j)
    {
      var p := start + i * width + j;
      WrittenConcat(plans, [plan], p);
      if HasPosition(tiles, b, j) {
        assert WrittenAt(plans, start, width, i, j);
      } else {
        assert InTilePositions(tiles[b].1, j);
        SamePositions(rows, rowValues, plan.scatter.rows, i);
        SamePositions(tiles[b].1, plan.columns, plan.scatter.columns, j);
        GridWrites2(plan, i, j);
        WrittenOne(plan, p);
      }
    }
  }

  lemma WrittenOne(plan: Plan, p: nat)
    requires WritesTo(plan, p)
    ensures Written([plan], p)
  {
    assert WritesTo([plan][0], p);
  }

  lemma SameCount(positions: seq<(nat, nat)>, values: seq<nat>, scatter: seq<(nat, nat)>)
    requires SelectedAs(positions, values, scatter)
    ensures |scatter| == |positions|
  {}

  lemma MulAddLeft(a: int, x: int, y: int, z: int)
    requires z == x + y
    ensures a * z == a * x + a * y
  {}

  lemma PlanCountNext(plans: seq<Plan>, plan: Plan, rows: seq<(nat, nat)>, rowValues: seq<nat>, tiles: AxisTileGroups,
                      b: nat)
    requires b < |tiles| && plan.scatter.Grid?
    requires SelectedAs(rows, rowValues, plan.scatter.rows) && SelectedAs(tiles[b].1, plan.columns, plan.scatter.columns)
    requires WriteCount(plans) == |rows| * TotalWeight(tiles[..b], EACH_ONE)
    ensures WriteCount(plans + [plan]) == |rows| * TotalWeight(tiles[..b + 1], EACH_ONE)
  {
    hide GridWrites, SelectedAs;
    var s := plan.scatter;
    SameCount(rows, rowValues, s.rows);
    SameCount(tiles[b].1, plan.columns, s.columns);
    GridCount(s.start, s.width, s.rows, s.columns, |plan.columns|);
    UnitWeight(tiles[b].1, EACH_ONE);
    assert (plans + [plan])[..|plans|] == plans && tiles[..b + 1][..b] == tiles[..b];
    MulAddLeft(|rows|, TotalWeight(tiles[..b], EACH_ONE), |tiles[b].1|, TotalWeight(tiles[..b + 1], EACH_ONE));
  }

  /** The plans of a whole block: every position once. */
  method BlockPlans(ghost cells: seq<Coord>, prefix: Coord, start: nat, rows: Axis, columns: Axis,
                    rowTiles: AxisTileGroups, columnTiles: AxisTileGroups) returns (plans: seq<Plan>)
    requires BlockCells(cells, prefix, start, rows, columns)
    requires TilesOf(rowTiles, rows, rows.Len()) && TilesOf(columnTiles, columns, columns.Len())
    ensures AllServe(plans, cells) && WriteCount(plans) == rows.Len() * columns.Len()
    ensures forall p :: start <= p < start + rows.Len() * columns.Len() ==> Written(plans, p)
  {
    hide Serves, BlockCells, TilesOf, TilePositions, HasPosition, Written, TotalWeight, WriteCount, ColumnsWritten,
         Axis.Len;
    plans := [];
    NoRows(rowTiles, start, columns.Len());
    for a := 0 to |rowTiles|
      invariant AllServe(plans, cells)
      invariant WriteCount(plans) == TotalWeight(rowTiles[..a], EACH_ONE) * columns.Len()
      invariant RowsWritten(plans, rowTiles, a, start, columns.Len())
    {
      TileAt(rowTiles, rows, a);
      var more := RowPlans(cells, prefix, start, rows, columns, rowTiles[a].1, rowTiles[a].0, columnTiles);
      RowsNext(plans, more, rowTiles, a, columnTiles, columns, start);
      WriteCountConcat(plans, more);
      TileWeight(rowTiles, a, columns.Len());
      plans := plans + more;
    }
    assert rowTiles[..|rowTiles|] == rowTiles;
    AllWeight(rowTiles, rows);
    BlockWritten(plans, rowTiles, rows, columns.Len(), start);
  }

  lemma NoRows(tiles: AxisTileGroups, start: nat, width: nat)
    ensures RowsWritten([], tiles, 0, start, width) && WriteCount([]) == 0 == TotalWeight(tiles[..0], EACH_ONE) * width
  {}

  lemma TileWeight(tiles: AxisTileGroups, a: nat, width: nat)
    requires a < |tiles|
    ensures TotalWeight(tiles[..a + 1], EACH_ONE) * width == TotalWeight(tiles[..a], EACH_ONE) * width + |tiles[a].1| * width
  {
    UnitWeight(tiles[a].1, EACH_ONE);
    assert tiles[..a + 1][..a] == tiles[..a];
    MulAdd(TotalWeight(tiles[..a], EACH_ONE), |tiles[a].1|, width, TotalWeight(tiles[..a + 1], EACH_ONE));
  }

  lemma RowsNext(plans: seq<Plan>, more: seq<Plan>, rowTiles: AxisTileGroups, a: nat, columnTiles: AxisTileGroups,
                 columns: Axis, start: nat)
    requires a < |rowTiles| && RowsWritten(plans, rowTiles, a, start, columns.Len())
    requires TilesOf(columnTiles, columns, columns.Len())
    requires ColumnsWritten(more, rowTiles[a].1, columnTiles, |columnTiles|, start, columns.Len())
    ensures RowsWritten(plans + more, rowTiles, a + 1, start, columns.Len())
  {
    hide Written, TilesOf, InTilePositions, Axis.Len;
    var width := columns.Len();
    forall i: nat, j: nat | HasPosition(rowTiles, a + 1, i) && 0 <= j < width ensures WrittenAt(plans + more, start, width, i, j) {
      WrittenConcat(plans, more, start + i * width + j);
      if HasPosition(rowTiles, a, i) {
        assert WrittenAt(plans, start, width, i, j);
      } else {
        assert InTilePositions(rowTiles[a].1, i);
        EveryPosition(columnTiles, columns, j);
        assert WrittenAt(more, start, width, i, j);
      }
    }
  }

  lemma BlockWritten(plans: seq<Plan>, tiles: AxisTileGroups, rows: Axis, width: nat, start: nat)
    requires TilesOf(tiles, rows, rows.Len()) && RowsWritten(plans, tiles, |tiles|, start, width)
    ensures forall p :: start <= p < start + rows.Len() * width ==> Written(plans, p)
  {
    hide Written, TilesOf, HasPosition, Axis.Len;
    forall p | start <= p < start + rows.Len() * width ensures Written(plans, p) {
      if width > 0 {
        var k := p - start;
        CellInside(k, rows.Len(), width);
        EveryPosition(tiles, rows, k / width);
        assert WrittenAt(plans, start, width, k / width, k % width);
        assert k == k / width * width + k % width;
      }
    }
  }

  // ---------------------------------------------------------------------
  // Whole requests
  // ---------------------------------------------------------------------

  lemma LensSplitTwo(axes: seq<Axis>)
    requires |axes| >= 2
    ensures var n := |axes| - 2; Lens(axes) == Lens(axes[..n]) + [axes[n].Len(), axes[n + 1].Len()]
    ensures var n := |axes| - 2;
            Cartesian(axes).Len() == Cartesian(axes[..n]).Len() * (axes[n].Len() * axes[n + 1].Len())
  {
    var n := |axes| - 2;
    var pair := [axes[n].Len(), axes[n + 1].Len()];
    assert Lens(axes) == Lens(axes[..n]) + pair;
    SizeConcat(Lens(axes[..n]), pair);
    PairSize(axes[n].Len(), axes[n + 1].Len());
  }

  lemma PairSize(r: nat, c: nat)
    ensures Size([r, c]) == r * c
  {
    assert [r, c][1..] == [c] && [c][1..] == [];
    assert Size([c]) == c * Size([]);
  }

  lemma PairDecode(r: nat, c: nat, i: nat, j: nat, k: int)
    requires i < r && j < c && k == i * c + j
    ensures 0 <= k < Size([r, c]) && Decode(k, [r, c]) == [i, j]
  {
    PairSize(r, c);
    MulMonotone(i + 1, r, c);
    assert (i + 1) * c == i * c + c;
    MulMonotone(0, i, c);
    DivUnique(i, j, c);
    DivUnique(0, i, r);
    DivUnique(0, j, c);
    assert [r, c][1..] == [c] && [c][1..] == [];
    assert Size([c]) == c * Size([]) == c;
    var tail := Decode(k, [c]);
    assert tail == [k / Size([]) % c] + Decode(k, []);
    assert k / 1 == k;
  }

  /** The cell of one block position, as a coordinate of the rectangle. */
  lemma RectangleCell(axes: seq<Axis>, q: nat, i: nat, j: nat, index: int)
    requires |axes| >= 2 && q < Cartesian(axes[..|axes| - 2]).Len()
    requires i < axes[|axes| - 2].Len() && j < axes[|axes| - 1].Len()
    requires index == q * (axes[|axes| - 2].Len() * axes[|axes| - 1].Len()) + (i * axes[|axes| - 1].Len() + j)
    ensures 0 <= index < Cartesian(axes).Len()
    ensures Cartesian(axes).Coordinate(index)
         == Cartesian(axes[..|axes| - 2]).Coordinate(q) + [axes[|axes| - 2].At(i), axes[|axes| - 1].At(j)]
  {
    hide Size, Decode, Axis.At, Axis.Len;
    var n := |axes| - 2;
    var r, c := axes[n].Len(), axes[n + 1].Len();
    var front := Lens(axes[..n]);
    LensSplitTwo(axes);
    EmptySize(front);
    PairDecode(r, c, i, j, i * c + j);
    PairSize(r, c);
    DecodeConcat(q, i * c + j, front, [r, c], index);
    EmptySize(Lens(axes));
    DecodeInShape(q, front);
    PickPair(axes, Decode(q, front), i, j);
  }

  lemma PickPair(axes: seq<Axis>, d: Coord, i: nat, j: nat)
    requires |axes| >= 2 && InShape(d, Lens(axes[..|axes| - 2]))
    requires i < axes[|axes| - 2].Len() && j < axes[|axes| - 1].Len()
    ensures InShape(d + [i, j], Lens(axes))
    ensures Pick(axes, d + [i, j]) == Pick(axes[..|axes| - 2], d) + [axes[|axes| - 2].At(i), axes[|axes| - 1].At(j)]
  {
    hide Axis.At, Axis.Len;
    var n := |axes| - 2;
    forall k | 0 <= k < |axes| ensures (d + [i, j])[k] < Lens(axes)[k] {
      if k < n {
        assert Lens(axes[..n])[k] == Lens(axes)[k];
      }
    }
  }

  /** The positions of prefix `q` of rectangle `r` form one block. */
  lemma RectangleBlock(rects: seq<Cartesian>, r: nat, q: nat, start: nat, rank: nat)
    requires r < |rects| && rank >= 2 && |rects[r].axes| == rank
    requires q < Cartesian(rects[r].axes[..rank - 2]).Len()
    requires start == BlockStart(|RectCoords(rects[..r])|, q, rects[r].axes[rank - 2].Len(), rects[r].axes[rank - 1].Len())
    ensures BlockCells(RectCoords(rects), Cartesian(rects[r].axes[..rank - 2]).Coordinate(q), start,
                       rects[r].axes[rank - 2], rects[r].axes[rank - 1])
  {
    hide Cartesian.Coordinate, Size, Axis.At, Axis.Len, RectCoords;
    var axes := rects[r].axes;
    var rows, columns := axes[rank - 2], axes[rank - 1];
    var cells, prefix := RectCoords(rects), Cartesian(axes[..rank - 2]).Coordinate(q);
    forall i: nat, j: nat | 0 <= i < rows.Len() && 0 <= j < columns.Len() ensures BlockCell(cells, prefix, start, rows, columns, i, j) {
      var w := columns.Len();
      MulMonotone(0, i, w);
      MulMonotone(0, q, rows.Len() * w);
      var index: nat := q * (rows.Len() * w) + (i * w + j);
      RectangleCell(axes, q, i, j, index);
      assert rects[r] == Cartesian(axes);
      RectCoordsAt(rects, r, index);
    }
  }

  /** The prefix selection of every rectangle fits a batch of its own. */
  predicate PrefixesBounded(rects: seq<Cartesian>, rank: nat)
    requires rank >= 2
  {
    forall r :: 0 <= r < |rects| ==> |rects[r].axes| == rank && Cartesian(rects[r].axes[..rank - 2]).Bounded()
  }

  /** What the planner keeps: all positions below `start` are served. */
  ghost predicate ServedTo(plans: seq<Plan>, cells: seq<Coord>, start: nat) {
    && AllServe(plans, cells) && WriteCount(plans) == start
    && forall p :: 0 <= p < start ==> Written(plans, p)
  }

  lemma ServedNext(plans: seq<Plan>, more: seq<Plan>, cells: seq<Coord>, start: nat, size: nat)
    requires ServedTo(plans, cells, start) && AllServe(more, cells) && WriteCount(more) == size
    requires forall p :: start <= p < start + size ==> Written(more, p)
    ensures ServedTo(plans + more, cells, start + size)
  {
    hide Serves, Written, WriteCount;
    WriteCountConcat(plans, more);
    forall p | 0 <= p < start + size ensures Written(plans + more, p) {
      WrittenConcat(plans, more, p);
    }
  }

  /** Where the block of prefix `q` starts. */
  function BlockStart(start: nat, q: nat, rows: nat, columns: nat): nat {
    start + q * (rows * columns)
  }

  lemma BlockNext(start: nat, q: nat, rows: nat, columns: nat)
    ensures BlockStart(start, 0, rows, columns) == start
    ensures BlockStart(start, q + 1, rows, columns) == BlockStart(start, q, rows, columns) + rows * columns
  {
    assert (q + 1) * (rows * columns) == q * (rows * columns) + rows * columns;
  }

  /** The plans of prefix `q` of a rectangle. */
  method PlanPrefix(ghost rects: seq<Cartesian>, ghost r: nat, ghost q: nat, rank: nat, coord: Coord, rows: Axis,
                    columns: Axis,
                    rowTiles: AxisTileGroups, columnTiles: AxisTileGroups, plans: seq<Plan>, at: nat, ghost start: nat)
    returns (out: seq<Plan>, end: nat)
    requires r < |rects| && rank >= 2 && |rects[r].axes| == rank && q < Cartesian(rects[r].axes[..rank - 2]).Len()
    requires rows == rects[r].axes[rank - 2] && columns == rects[r].axes[rank - 1]
    requires coord == Cartesian(rects[r].axes[..rank - 2]).Coordinate(q)
    requires TilesOf(rowTiles, rows, rows.Len()) && TilesOf(columnTiles, columns, columns.Len())
    requires start == |RectCoords(rects[..r])| && at == BlockStart(start, q, rows.Len(), columns.Len())
    requires ServedTo(plans, RectCoords(rects), at)
    ensures end == BlockStart(start, q + 1, rows.Len(), columns.Len()) && ServedTo(out, RectCoords(rects), end)
  {
    hide Cartesian.Coordinate, Size, Axis.At, Axis.Len, RectCoords, ServedTo, TilesOf, BlockCells, BlockStart,
         Cartesian.Len, AllServe, WriteCount, Written;
    RectangleBlock(rects, r, q, at, rank);
    var block := BlockPlans(RectCoords(rects), coord, at, rows, columns, rowTiles, columnTiles);
    ServedNext(plans, block, RectCoords(rects), at, rows.Len() * columns.Len());
    BlockNext(start, q, rows.Len(), columns.Len());
    out, end := plans + block, at + rows.Len() * columns.Len();
  }

  /** One rectangle: a block per prefix coordinate. */
  method PlanProduct(rects: seq<Cartesian>, r: nat, shape: seq<nat>, plans: seq<Plan>, start: nat)
    returns (result: Result<(seq<Plan>, nat)>)
    requires r < |rects| && |shape| >= 2 && Positive(shape) && AxesValid(rects[r].axes, shape)
    requires start == |RectCoords(rects[..r])| && ServedTo(plans, RectCoords(rects), start)
    ensures result.Ok? <==> Cartesian(rects[r].axes[..|shape| - 2]).Bounded()
    ensures result.Ok? ==> result.value.1 == |RectCoords(rects[..r + 1])|
    ensures result.Ok? ==> ServedTo(result.value.0, RectCoords(rects), result.value.1)
  {
    hide Cartesian.Coordinate, Size, Axis.At, Axis.Len, RectCoords, ServedTo, TilesOf, BatchRequest.Coords, Tracks,
         BlockStart;
    var rank := |shape|;
    var axes := rects[r].axes;
    var built := NewCartesian(axes[..rank - 2]);
    if built.Err? {
      return Err(built.error);
    }
    var prefix := built.value;
    var request := BatchRequest(Rectangles([prefix]), prefix.Len());
    PrefixRequest(prefix, axes, shape);
    var rows, columns := axes[rank - 2], axes[rank - 1];
    var rowTiles := AxisTiles(rows);
    var columnTiles := AxisTiles(columns);
    RectangleEnd(rects, r, rank);
    BlockNext(start, 0, rows.Len(), columns.Len());
    var cursor := new Cursor(request, shape[..rank - 2]);
    var out, at := plans, start;
    ghost var q := 0;
    var more, coord := cursor.NextInto();
    while more
      invariant cursor.Valid() && q <= request.len
      invariant cursor.position == if more then q + 1 else q
      invariant more ==> q < request.len && coord == request.Coords(shape[..rank - 2])[q]
      invariant !more ==> q == request.len
      invariant at == BlockStart(start, q, rows.Len(), columns.Len()) && ServedTo(out, RectCoords(rects), at)
      decreases request.len - q
    {
      out, at := PlanPrefix(rects, r, q, rank, coord, rows, columns, rowTiles, columnTiles, out, at, start);
      q := q + 1;
      more, coord := cursor.NextInto();
    }
    return Ok((out, at));
  }

  lemma RectangleEnd(rects: seq<Cartesian>, r: nat, rank: nat)
    requires r < |rects| && rank >= 2 && |rects[r].axes| == rank
    ensures var axes := rects[r].axes;
            |RectCoords(rects[..r + 1])|
            == BlockStart(|RectCoords(rects[..r])|, Cartesian(axes[..rank - 2]).Len(), axes[rank - 2].Len(), axes[rank - 1].Len())
  {
    hide Size, Axis.Len, RectCoords;
    LensSplitTwo(rects[r].axes);
    RectanglesNext(rects, r);
  }

  lemma RectanglesNext(rects: seq<Cartesian>, r: nat)
    requires r < |rects|
    ensures |RectCoords(rects[..r + 1])| == |RectCoords(rects[..r])| + rects[r].Len()
  {
    assert rects[..r + 1] == rects[..r] + [rects[r]];
    RectCoordsSnoc(rects[..r], rects[r]);
  }

  lemma PrefixRequest(prefix: Cartesian, axes: seq<Axis>, shape: seq<nat>)
    requires |shape| >= 2 && Positive(shape) && AxesValid(axes, shape) && prefix.axes == axes[..|shape| - 2] && prefix.Bounded()
    ensures var request := BatchRequest(Rectangles([prefix]), prefix.Len());
            request.Valid(shape[..|shape| - 2]) && request.Coords(shape[..|shape| - 2]) == prefix.Coords()
  {
    hide Axis.Valid, Cartesian.Coordinate, Size;
    RectCoordsSnoc([], prefix);
    assert [] + [prefix] == [prefix] && [] + prefix.Coords() == prefix.Coords();
  }

  /** `cartesian_plans`: rectangles are planned without listing their cells. A valid request fails
      exactly when some rectangle's prefix selection alone exceeds a batch, which only an empty
      rectangle can have. */
  method PlanProducts(rects: seq<Cartesian>, shape: seq<nat>) returns (result: Result<seq<Plan>>)
    requires |shape| >= 2 && BatchRequest(Rectangles(rects), |RectCoords(rects)|).Valid(shape)
    ensures result.Ok? <==> PrefixesBounded(rects, |shape|)
    ensures NoEmptyRectangle(rects) ==> result.Ok?
    ensures result.Ok? ==> ServesExactly(result.value, RectCoords(rects))
  {
    hide Cartesian.Coordinate, Size, Axis.Len, RectCoords, ServedTo, Cartesian.Bounded, NoEmptyRectangle;
    NonemptyBounded(rects, shape);
    var plans: seq<Plan> := [];
    var start := 0;
    NothingServed(rects);
    for r := 0 to |rects|
      invariant start == |RectCoords(rects[..r])| && ServedTo(plans, RectCoords(rects), start)
      invariant forall k :: 0 <= k < r ==> Cartesian(rects[k].axes[..|shape| - 2]).Bounded()
    {
      var next := PlanProduct(rects, r, shape, plans, start);
      if next.Err? {
        return Err(next.error);
      }
      plans, start := next.value.0, next.value.1;
    }
    assert rects[..|rects|] == rects;
    ServedAll(plans, RectCoords(rects));
    return Ok(plans);
  }

  /** Every producer of rectangles in the crate keeps to this. */
  predicate NoEmptyRectangle(rects: seq<Cartesian>) {
    forall r :: 0 <= r < |rects| ==> rects[r].Len() > 0
  }

  /** Without empty rectangles no prefix selection exceeds a batch. */
  lemma NonemptyBounded(rects: seq<Cartesian>, shape: seq<nat>)
    requires |shape| >= 2 && BatchRequest(Rectangles(rects), |RectCoords(rects)|).Valid(shape)
    ensures NoEmptyRectangle(rects) ==> PrefixesBounded(rects, |shape|)
  {
    hide Size, RectCoords, Axis.Valid, Axis.Len;
    forall r | 0 <= r < |rects| && NoEmptyRectangle(rects) ensures Cartesian(rects[r].axes[..|shape| - 2]).Bounded() {
      var axes := rects[r].axes;
      var prefix := Cartesian(axes[..|shape| - 2]);
      RectLength(rects, r);
      LensSplitTwo(axes);
      FactorAtMost(prefix.Len(), axes[|axes| - 2].Len() * axes[|axes| - 1].Len());
      forall i | 0 <= i < |prefix.axes| ensures prefix.axes[i].Len() <= prefix.Len() {
        FactorOfSize(Lens(prefix.axes), i);
      }
    }
  }

  lemma {:induction false} RectLength(rects: seq<Cartesian>, r: nat)
    requires r < |rects|
    ensures rects[r].Len() <= |RectCoords(rects)|
    decreases |rects|
  {
    var front, last := rects[..|rects| - 1], rects[|rects| - 1];
    assert rects == front + [last];
    RectCoordsSnoc(front, last);
    if r < |front| {
      RectLength(front, r);
    }
  }

  lemma {:induction false} FactorOfSize(dims: seq<nat>, i: nat)
    requires i < |dims|
    ensures Size(dims) > 0 ==> dims[i] <= Size(dims)
  {
    if Size(dims) > 0 {
      var rest := Size(dims[1..]);
      FactorAtMost(dims[0], rest);
      if i > 0 {
        FactorOfSize(dims[1..], i - 1);
        FactorAtMost(rest, dims[0]);
      }
    }
  }

  lemma NothingServed(rects: seq<Cartesian>)
    ensures |RectCoords(rects[..0])| == 0 && ServedTo([], RectCoords(rects), 0)
  {}

  lemma ServedAll(plans: seq<Plan>, cells: seq<Coord>)
    requires ServedTo(plans, cells, |cells|)
    ensures ServesExactly(plans, cells)
  {}

  /** Only an empty rectangle can have an oversized prefix. */
  lemma OversizedIsEmpty(axes: seq<Axis>)
    requires |axes| >= 2 && Cartesian(axes).Len() <= MAX_BATCH_ELEMENTS
    requires Cartesian(axes[..|axes| - 2]).Len() > MAX_BATCH_ELEMENTS
    ensures Cartesian(axes).Len() == 0
  {
    LensSplitTwo(axes);
    var n := |axes| - 2;
    FactorAtMost(Cartesian(axes[..n]).Len(), axes[n].Len() * axes[n + 1].Len());
  }

  lemma FactorAtMost(a: nat, b: nat)
    ensures b > 0 ==> a <= a * b
    ensures b == 0 ==> a * b == 0
  {}

  /** A valid request of no elements whose planning fails. */
  lemma EmptyRectangleFails()
    ensures var rect := Cartesian([Span(0, 1, 5000), Span(0, 1, 0), Span(0, 1, 1)]);
            && BatchRequest(Rectangles([rect]), |RectCoords([rect])|).Valid([5000, 1, 1])
            && !PrefixesBounded([rect], 3)
  {
    var rect := Cartesian([Span(0, 1, 5000), Span(0, 1, 0), Span(0, 1, 1)]);
    LensSplitTwo(rect.axes);
    assert rect.axes[1].Len() == 0 && rect.Len() == 0;
    RectCoordsSnoc([], rect);
    assert [] + [rect] == [rect];
    assert rect.axes[..1] == [Span(0, 1, 5000)];
    assert Lens(rect.axes[..1]) == [5000] && Size([5000]) == 5000 * Size([]);
  }
}
