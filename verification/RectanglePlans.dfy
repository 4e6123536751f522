/** Covering the requested cells of one tile with few, mostly full rectangles. */
module RectanglePlans {
  import opened Radix
  import opened KeyScans
  import opened Buckets
  import opened MatrixPlans

  /** Maximum computed rectangle area per unique requested cell. */
  const MAX_RECTANGLE_AMPLIFICATION: nat := 2

  /** A requested output: its position, row and column. */
  type Cell = (nat, nat, nat)

  function RowsOf(cells: seq<Cell>): (r: seq<nat>)
    ensures |r| == |cells| && forall k :: 0 <= k < |r| ==> r[k] == cells[k].1
  {
    seq(|cells|, k requires 0 <= k < |cells| => cells[k].1)
  }

  function ColumnsOf(cells: seq<Cell>): (c: seq<nat>)
    ensures |c| == |cells| && forall k :: 0 <= k < |c| ==> c[k] == cells[k].2
  {
    seq(|cells|, k requires 0 <= k < |cells| => cells[k].2)
  }

  /** The columns requested in one row, with repetitions. */
  function ColumnsAt(cells: seq<Cell>, row: nat): seq<nat> {
    if cells == [] then []
    else
      var last := cells[|cells| - 1];
      ColumnsAt(cells[..|cells| - 1], row) + if last.1 == row then [last.2] else []
  }

  lemma {:induction false} ColumnsAtMembers(cells: seq<Cell>, row: nat)
    ensures forall c :: c in ColumnsAt(cells, row) <==> exists k :: 0 <= k < |cells| && cells[k].1 == row && cells[k].2 == c
  {
    if cells != [] {
      var n := |cells| - 1;
      ColumnsAtMembers(cells[..n], row);
      forall c ensures c in ColumnsAt(cells, row) <==> exists k :: 0 <= k < |cells| && cells[k].1 == row && cells[k].2 == c {
        if c in ColumnsAt(cells[..n], row) {
          var k :| 0 <= k < n && cells[..n][k].1 == row && cells[..n][k].2 == c;
          assert cells[k].1 == row && cells[k].2 == c;
        }
        if k :| 0 <= k < |cells| && cells[k].1 == row && cells[k].2 == c {
          if k < n {
            assert cells[..n][k].1 == row && cells[..n][k].2 == c;
          }
        }
      }
    }
  }

  /** The sorted distinct columns of a row. */
  function RowColumns(cells: seq<Cell>, row: nat): seq<nat> {
    SortDedup(ColumnsAt(cells, row))
  }

  lemma RowColumnsMember(cells: seq<Cell>, k: nat)
    requires k < |cells|
    ensures cells[k].2 in RowColumns(cells, cells[k].1)
  {
    ColumnsAtMembers(cells, cells[k].1);
    SortedMembers(ColumnsAt(cells, cells[k].1));
  }

  // ---------------------------------------------------------------------
  // Unique pairs
  // ---------------------------------------------------------------------

  /** The distinct requested (row, column) pairs. */
  function Pairs(cells: seq<Cell>): set<(nat, nat)> {
    set k | 0 <= k < |cells| :: (cells[k].1, cells[k].2)
  }

  /** Distinct pairs counted row by row. */
  function Unique(cells: seq<Cell>, rows: seq<nat>): nat {
    if rows == [] then 0 else Unique(cells, rows[..|rows| - 1]) + |RowColumns(cells, rows[|rows| - 1])|
  }

  function RowPairs(row: nat, columns: seq<nat>): set<(nat, nat)> {
    set k | 0 <= k < |columns| :: (row, columns[k])
  }

  lemma {:induction false} RowPairsSize(row: nat, columns: seq<nat>)
    requires Ascending(columns)
    ensures |RowPairs(row, columns)| == |columns|
  {
    if columns != [] {
      var n := |columns| - 1;
      RowPairsSize(row, columns[..n]);
      assert RowPairs(row, columns) == RowPairs(row, columns[..n]) + {(row, columns[n])};
      forall k | 0 <= k < n ensures columns[..n][k] != columns[n] {
        assert columns[k] < columns[n];
      }
    }
  }

  ghost function PairsIn(cells: seq<Cell>, rows: seq<nat>): set<(nat, nat)> {
    set x | x in Pairs(cells) && x.0 in rows
  }

  lemma {:induction false} UniqueIsPairs(cells: seq<Cell>, rows: seq<nat>)
    requires Ascending(rows)
    ensures Unique(cells, rows) == |PairsIn(cells, rows)|
  {
    hide Pairs, RowColumns, RowPairs;
    if rows == [] {
      assert PairsIn(cells, rows) == {};
    } else {
      var n := |rows| - 1;
      var row, front := rows[n], rows[..n];
      UniqueIsPairs(cells, front);
      RowColumnsAscend(cells, row);
      RowPairsSize(row, RowColumns(cells, row));
      assert rows == front + [row];
      assert row !in front;
      PairsSplit(cells, front, row);
    }
  }

  lemma PairsSplit(cells: seq<Cell>, front: seq<nat>, row: nat)
    requires row !in front
    ensures PairsIn(cells, front + [row]) == PairsIn(cells, front) + RowPairs(row, RowColumns(cells, row))
    ensures PairsIn(cells, front) !! RowPairs(row, RowColumns(cells, row))
  {
    hide Pairs, RowColumns, RowPairs;
    RowPairsAre(cells, row);
  }

  /** The pairs of one row. */
  lemma RowPairsAre(cells: seq<Cell>, row: nat)
    ensures forall x :: x in RowPairs(row, RowColumns(cells, row)) <==> x in Pairs(cells) && x.0 == row
  {
    ColumnsAtMembers(cells, row);
    SortedMembers(ColumnsAt(cells, row));
    var columns := RowColumns(cells, row);
    forall x ensures x in RowPairs(row, columns) <==> x in Pairs(cells) && x.0 == row {
      if x in RowPairs(row, columns) {
        var k :| 0 <= k < |columns| && x == (row, columns[k]);
        assert columns[k] in columns;
        var j :| 0 <= j < |cells| && cells[j].1 == row && cells[j].2 == columns[k];
        assert x == (cells[j].1, cells[j].2);
      }
      if x in Pairs(cells) && x.0 == row {
        var j :| 0 <= j < |cells| && x == (cells[j].1, cells[j].2);
        assert x.1 in columns;
        var k :| 0 <= k < |columns| && columns[k] == x.1;
      }
    }
  }

  lemma AllPairs(cells: seq<Cell>, rows: seq<nat>)
    requires forall r :: r in rows <==> r in RowsOf(cells)
    ensures PairsIn(cells, rows) == Pairs(cells)
  {
    forall x | x in Pairs(cells) ensures x.0 in rows {
      var j :| 0 <= j < |cells| && x == (cells[j].1, cells[j].2);
      assert RowsOf(cells)[j] == x.0;
    }
  }

  // ---------------------------------------------------------------------
  // Groups
  // ---------------------------------------------------------------------

  /** Groups of rows sharing a column list. */
  type RowGroups = Groups<seq<nat>, nat>

  /** Every row lies in exactly one group, whose columns include the row's. */
  ghost predicate Partitions(groups: RowGroups, cells: seq<Cell>) {
    && (forall i :: 0 <= i < |groups| ==> GroupShaped(groups[i]))
    && (forall k :: 0 <= k < |cells| ==> GroupsWith(groups, cells[k].1) == 1)
    && AllColumns(groups, cells)
  }

  predicate GroupShaped(group: (seq<nat>, seq<nat>)) {
    Ascending(group.0) && Ascending(group.1) && group.0 != [] && group.1 != []
  }

  predicate GroupColumns(group: (seq<nat>, seq<nat>), cells: seq<Cell>) {
    forall k :: 0 <= k < |cells| && cells[k].1 in group.1 ==> cells[k].2 in group.0
  }

  predicate AllColumns(groups: RowGroups, cells: seq<Cell>) {
    forall i :: 0 <= i < |groups| ==> GroupColumns(groups[i], cells)
  }

  lemma PartitionColumns(groups: RowGroups, cells: seq<Cell>)
    requires Partitions(groups, cells)
    ensures AllColumns(groups, cells)
  {}

  function GroupsWith(groups: RowGroups, row: nat): nat {
    if groups == [] then 0 else GroupsWith(groups[..|groups| - 1], row) + if row in groups[|groups| - 1].1 then 1 else 0
  }

  function Area(groups: RowGroups): nat {
    if groups == [] then 0 else Area(groups[..|groups| - 1]) + |groups[|groups| - 1].1| * |groups[|groups| - 1].0|
  }

  lemma {:induction false} GroupsWithNone(groups: RowGroups, row: nat)
    requires forall i :: 0 <= i < |groups| ==> row !in groups[i].1
    ensures GroupsWith(groups, row) == 0
  {
    if groups != [] {
      GroupsWithNone(groups[..|groups| - 1], row);
    }
  }

  /** A row of one key is in exactly one group. */
  lemma {:induction false} GroupsWithOne(groups: RowGroups, row: nat, key: seq<nat>, i: nat)
    requires DistinctKeys(groups) && i < |groups| && groups[i].0 == key && row in groups[i].1
    requires forall j :: 0 <= j < |groups| && row in groups[j].1 ==> groups[j].0 == key
    ensures GroupsWith(groups, row) == 1
    decreases |groups|
  {
    var n := |groups| - 1;
    if i < n {
      GroupsWithOne(groups[..n], row, key, i);
    } else {
      GroupsWithNone(groups[..n], row);
    }
  }

  /** Rows taken so far, each under its own column list. */
  ghost predicate RowsGrouped(groups: RowGroups, cells: seq<Cell>, rows: seq<nat>, n: nat)
    requires n <= |rows|
  {
    && DistinctKeys(groups) && NoneEmpty(groups)
    && (forall key, row :: Buckets.Holds(groups, key, row) <==> row in rows[..n] && key == RowColumns(cells, row))
    && (forall i :: 0 <= i < |groups| ==> Ascending(groups[i].1) && forall r :: r in groups[i].1 ==> r in rows[..n])
  }

  /** The grouped plan: rows with the same columns share one full rectangle. */
  method GroupRows(cells: seq<Cell>, rows: seq<nat>) returns (groups: RowGroups)
    requires rows == SortDedup(RowsOf(cells))
    ensures Partitions(groups, cells) && GroupsInside(groups, cells) && Area(groups) == Unique(cells, rows)
  {
    hide SortDedup, RowColumns, Weight, TotalWeight, Buckets.Holds, Unique;
    SortedMembers(RowsOf(cells));
    ghost var w := (row: nat) => |RowColumns(cells, row)|;
    groups := [];
    NoneGrouped(cells, rows, w);
    for n := 0 to |rows|
      invariant RowsGrouped(groups, cells, rows, n)
      invariant TotalWeight(groups, w) == Unique(cells, rows[..n])
    {
      var key := RowColumns(cells, rows[n]);
      var next := Push(groups, key, rows[n], w);
      RowsGroupedNext(groups, next, cells, rows, n);
      UniqueNext(cells, rows, n);
      groups := next;
    }
    assert rows[..|rows|] == rows;
    GroupedPartition(groups, cells, rows, w);
  }

  lemma NoneGrouped(cells: seq<Cell>, rows: seq<nat>, w: nat -> nat)
    ensures RowsGrouped([], cells, rows, 0) && TotalWeight<seq<nat>, nat>([], w) == Unique(cells, rows[..0])
  {}

  lemma UniqueNext(cells: seq<Cell>, rows: seq<nat>, n: nat)
    requires n < |rows|
    ensures Unique(cells, rows[..n + 1]) == Unique(cells, rows[..n]) + |RowColumns(cells, rows[n])|
  {
    hide RowColumns;
    assert rows[..n + 1][..n] == rows[..n];
  }

  lemma RowsGroupedNext(groups: RowGroups, next: RowGroups, cells: seq<Cell>, rows: seq<nat>, n: nat)
    requires n < |rows| && Ascending(rows) && RowsGrouped(groups, cells, rows, n)
    requires DistinctKeys(next) && NoneEmpty(next)
    requires forall k, v :: Buckets.Holds(next, k, v) <==> Buckets.Holds(groups, k, v) || (k == RowColumns(cells, rows[n]) && v == rows[n])
    requires forall i :: 0 <= i < |next| ==>
               if i < |groups| then next[i].0 == groups[i].0 && next[i].1 == groups[i].1 + (if groups[i].0 == RowColumns(cells, rows[n]) then [rows[n]] else [])
               else next[i] == (RowColumns(cells, rows[n]), [rows[n]])
    ensures RowsGrouped(next, cells, rows, n + 1)
  {
    hide RowColumns, Buckets.Holds;
    assert rows[..n + 1] == rows[..n] + [rows[n]];
    forall i | 0 <= i < |next| ensures Ascending(next[i].1) && forall r :: r in next[i].1 ==> r in rows[..n + 1] {
      if i < |groups| {
        AscendingEnd(groups[i].1, rows, n);
      }
    }
  }

  lemma AscendingEnd(list: seq<nat>, rows: seq<nat>, n: nat)
    requires n < |rows| && Ascending(rows) && Ascending(list) && forall r :: r in list ==> r in rows[..n]
    ensures Ascending(list + [rows[n]])
  {
    forall i | 0 <= i < |list| ensures list[i] < rows[n] {
      assert list[i] in list;
      var k :| 0 <= k < n && rows[k] == list[i];
    }
  }

  lemma GroupedPartition(groups: RowGroups, cells: seq<Cell>, rows: seq<nat>, w: nat -> nat)
    requires RowsGrouped(groups, cells, rows, |rows|)
    requires forall r :: r in rows <==> r in RowsOf(cells)
    requires forall row :: w(row) == |RowColumns(cells, row)|
    ensures Partitions(groups, cells) && GroupsInside(groups, cells) && Area(groups) == TotalWeight(groups, w)
  {
    hide SortDedup, RowColumns, Weight, TotalWeight;
    assert rows[..|rows|] == rows;
    forall i | 0 <= i < |groups|
      ensures GroupShaped(groups[i]) && GroupColumns(groups[i], cells) && GroupInside(groups[i], cells)
      ensures forall row :: row in groups[i].1 ==> RowColumns(cells, row) == groups[i].0
    {
      GroupKey(groups, cells, rows, i);
    }
    forall k | 0 <= k < |cells| ensures GroupsWith(groups, cells[k].1) == 1 {
      var row := cells[k].1;
      assert RowsOf(cells)[k] == row;
      assert Buckets.Holds(groups, RowColumns(cells, row), row);
      var i :| 0 <= i < |groups| && groups[i].0 == RowColumns(cells, row) && row in groups[i].1;
      GroupsWithOne(groups, row, RowColumns(cells, row), i);
    }
    GroupAreas(groups, cells, w);
  }

  lemma GroupKey(groups: RowGroups, cells: seq<Cell>, rows: seq<nat>, i: nat)
    requires RowsGrouped(groups, cells, rows, |rows|) && i < |groups|
    requires forall r :: r in rows <==> r in RowsOf(cells)
    ensures forall row :: row in groups[i].1 ==> RowColumns(cells, row) == groups[i].0
    ensures GroupShaped(groups[i]) && GroupColumns(groups[i], cells) && GroupInside(groups[i], cells)
  {
    hide SortDedup, RowColumns;
    forall row | row in groups[i].1 ensures RowColumns(cells, row) == groups[i].0 {
      assert Buckets.Holds(groups, groups[i].0, row);
    }
    var first := groups[i].1[0];
    assert first in groups[i].1;
    assert rows[..|rows|] == rows && first in rows && first in RowsOf(cells);
    var k :| 0 <= k < |cells| && RowsOf(cells)[k] == first;
    RowColumnsMember(cells, k);
    RowColumnsAscend(cells, first);
    forall j | 0 <= j < |cells| && cells[j].1 in groups[i].1 ensures cells[j].2 in groups[i].0 {
      RowColumnsMember(cells, j);
    }
    forall c | c in groups[i].0 ensures c in ColumnsOf(cells) {
      RowColumnsInside(cells, first, c);
    }
  }

  lemma RowColumnsInside(cells: seq<Cell>, row: nat, c: nat)
    requires c in RowColumns(cells, row)
    ensures c in ColumnsOf(cells)
  {
    ColumnsAtMembers(cells, row);
    SortedMembers(ColumnsAt(cells, row));
    var k :| 0 <= k < |cells| && cells[k].1 == row && cells[k].2 == c;
    assert ColumnsOf(cells)[k] == c;
  }

  lemma RowColumnsAscend(cells: seq<Cell>, row: nat)
    ensures Ascending(RowColumns(cells, row))
  {
    SortedMembers(ColumnsAt(cells, row));
  }

  lemma {:induction false} GroupAreas(groups: RowGroups, cells: seq<Cell>, w: nat -> nat)
    requires forall row :: w(row) == |RowColumns(cells, row)|
    requires forall i :: 0 <= i < |groups| ==> forall row :: row in groups[i].1 ==> RowColumns(cells, row) == groups[i].0
    ensures Area(groups) == TotalWeight(groups, w)
    decreases |groups|
  {
    hide RowColumns;
    if groups != [] {
      var n := |groups| - 1;
      GroupAreas(groups[..n], cells, w);
      SameWeights(groups[n].1, w, |groups[n].0|);
    }
  }

  lemma {:induction false} SameWeights(values: seq<nat>, w: nat -> nat, each: nat)
    requires forall v :: v in values ==> w(v) == each
    ensures Weight(values, w) == |values| * each
  {
    if values != [] {
      var n := |values| - 1;
      assert forall v :: v in values[..n] ==> v in values;
      SameWeights(values[..n], w, each);
      assert values[n] in values;
      assert |values| * each == n * each + each;
    }
  }

  // ---------------------------------------------------------------------
  // Scattering requests
  // ---------------------------------------------------------------------

  /** The requests whose row belongs to a group, each at its tile offset. */
  function GroupPoints(cells: seq<Cell>, rows: seq<nat>, columns: seq<nat>): (p: seq<(nat, nat)>)
    requires GroupColumns((columns, rows), cells)
    decreases |cells|
  {
    if cells == [] then []
    else
      var n := |cells| - 1;
      var (position, row, column) := cells[n];
      assert GroupColumns((columns, rows), cells[..n]) by {
        forall k | 0 <= k < n && cells[..n][k].1 in rows ensures cells[..n][k].2 in columns {
          assert cells[k].2 in columns;
        }
      }
      GroupPoints(cells[..n], rows, columns)
      + if row in rows then [(position, IndexOf(rows, row) * |columns| + IndexOf(columns, column))] else []
  }

  predicate CellsAre(cells: seq<Cell>, prefix: Coord, target: seq<Coord>) {
    forall k :: 0 <= k < |cells| ==> cells[k].0 < |target| && target[cells[k].0] == prefix + [cells[k].1, cells[k].2]
  }

  predicate InTile(cells: seq<Cell>, rowTile: nat, columnTile: nat) {
    forall k :: 0 <= k < |cells| ==> cells[k].1 / TILE_SIDE == rowTile && cells[k].2 / TILE_SIDE == columnTile
  }

  /** The offset of a cell decodes back to its row and column. */
  lemma OffsetCell(plan: Plan, row: nat, column: nat, offset: int)
    requires row in plan.rows && column in plan.columns
    requires offset == IndexOf(plan.rows, row) * |plan.columns| + IndexOf(plan.columns, column)
    ensures plan.columns != [] && 0 <= offset < |plan.rows| * |plan.columns|
    ensures CellOf(plan, offset) == plan.prefix + [row, column]
  {
    var i, j, c := IndexOf(plan.rows, row), IndexOf(plan.columns, column), |plan.columns|;
    MulMonotone(i + 1, |plan.rows|, c);
    assert (i + 1) * c == i * c + c;
    MulMonotone(0, i, c);
    DivUnique(i, j, c);
  }

  lemma {:induction false} GroupServes(cells: seq<Cell>, plan: Plan, target: seq<Coord>)
    requires GroupColumns((plan.columns, plan.rows), cells) && CellsAre(cells, plan.prefix, target)
    ensures forall k :: 0 <= k < |GroupPoints(cells, plan.rows, plan.columns)| ==>
              WriteServes(plan, GroupPoints(cells, plan.rows, plan.columns)[k], target)
    ensures forall k :: 0 <= k < |cells| && cells[k].1 in plan.rows ==>
              exists j :: 0 <= j < |GroupPoints(cells, plan.rows, plan.columns)|
                          && GroupPoints(cells, plan.rows, plan.columns)[j].0 == cells[k].0
    decreases |cells|
  {
    hide IndexOf, CellOf;
    if cells != [] {
      var n := |cells| - 1;
      var front := cells[..n];
      FrontColumns(cells, plan.rows, plan.columns);
      assert CellsAre(front, plan.prefix, target);
      GroupServes(front, plan, target);
      var points, before := GroupPoints(cells, plan.rows, plan.columns), GroupPoints(front, plan.rows, plan.columns);
      if cells[n].1 in plan.rows {
        OffsetCell(plan, cells[n].1, cells[n].2,
                   IndexOf(plan.rows, cells[n].1) * |plan.columns| + IndexOf(plan.columns, cells[n].2));
      }
      forall k | 0 <= k < |cells| && cells[k].1 in plan.rows
        ensures exists j :: 0 <= j < |points| && points[j].0 == cells[k].0
      {
        if k < n {
          assert front[k].1 in plan.rows;
          var j :| 0 <= j < |before| && before[j].0 == front[k].0;
          assert points[j].0 == cells[k].0;
        } else {
          assert points[|before|].0 == cells[n].0;
        }
      }
    }
  }

  lemma FrontColumns(cells: seq<Cell>, rows: seq<nat>, columns: seq<nat>)
    requires cells != [] && GroupColumns((columns, rows), cells)
    ensures GroupColumns((columns, rows), cells[..|cells| - 1])
  {
    var front := cells[..|cells| - 1];
    forall k | 0 <= k < |front| && front[k].1 in rows ensures front[k].2 in columns {
      assert cells[k].2 in columns;
    }
  }

  function GroupPlan(group: (seq<nat>, seq<nat>), cells: seq<Cell>, prefix: Coord): Plan
    requires GroupColumns(group, cells)
  {
    Plan(prefix, group.1, group.0, Points(GroupPoints(cells, group.1, group.0)))
  }

  function GroupPlans(groups: RowGroups, cells: seq<Cell>, prefix: Coord): (p: seq<Plan>)
    requires AllColumns(groups, cells)
    ensures |p| == |groups| && forall i :: 0 <= i < |p| ==> p[i] == GroupPlan(groups[i], cells, prefix)
  {
    seq(|groups|, i requires 0 <= i < |groups| => GroupPlan(groups[i], cells, prefix))
  }

  /** How many groups the rows of all requests are in, together. */
  ghost function Memberships(groups: RowGroups, cells: seq<Cell>): nat {
    if cells == [] then 0 else Memberships(groups, cells[..|cells| - 1]) + GroupsWith(groups, cells[|cells| - 1].1)
  }

  lemma {:induction false} MembershipsOne(groups: RowGroups, cells: seq<Cell>)
    requires forall k :: 0 <= k < |cells| ==> GroupsWith(groups, cells[k].1) == 1
    ensures Memberships(groups, cells) == |cells|
  {
    if cells != [] {
      var n := |cells| - 1;
      assert forall k :: 0 <= k < n ==> cells[..n][k] == cells[k];
      MembershipsOne(groups, cells[..n]);
    }
  }

  lemma {:induction false} MembershipsNone(cells: seq<Cell>)
    ensures Memberships([], cells) == 0
  {
    if cells != [] {
      MembershipsNone(cells[..|cells| - 1]);
    }
  }

  lemma {:induction false} MembershipsSnoc(groups: RowGroups, group: (seq<nat>, seq<nat>), cells: seq<Cell>)
    requires GroupColumns(group, cells)
    ensures Memberships(groups + [group], cells) == Memberships(groups, cells) + |GroupPoints(cells, group.1, group.0)|
    decreases |cells|
  {
    if cells != [] {
      var n := |cells| - 1;
      FrontColumns(cells, group.1, group.0);
      MembershipsSnoc(groups, group, cells[..n]);
      assert (groups + [group])[..|groups|] == groups;
    }
  }

  lemma {:induction false} PlanCount(groups: RowGroups, cells: seq<Cell>, prefix: Coord)
    requires AllColumns(groups, cells)
    ensures WriteCount(GroupPlans(groups, cells, prefix)) == Memberships(groups, cells)
    decreases |groups|
  {
    hide GroupPoints;
    if groups == [] {
      MembershipsNone(cells);
    } else {
      var n := |groups| - 1;
      PlanCount(groups[..n], cells, prefix);
      MembershipsSnoc(groups[..n], groups[n], cells);
      assert groups[..n] + [groups[n]] == groups;
      assert GroupPlans(groups, cells, prefix)[..n] == GroupPlans(groups[..n], cells, prefix);
    }
  }

  /** The plans of one tile: exactly the requested positions, each from its own cell, computing at
      most twice the distinct cells, and exactly the distinct cells when rows are grouped. */
  method PlanRectangles(cells: seq<Cell>, prefix: Coord, ghost rowTile: nat, ghost columnTile: nat,
                        ghost target: seq<Coord>)
    returns (plans: seq<Plan>, grouped: bool)
    requires cells != [] && CellsAre(cells, prefix, target) && InTile(cells, rowTile, columnTile)
    ensures AllServe(plans, target) && WriteCount(plans) == |cells|
    ensures forall k :: 0 <= k < |cells| ==> Written(plans, cells[k].0)
    ensures PlanArea(plans) <= MAX_RECTANGLE_AMPLIFICATION * |Pairs(cells)|
    ensures grouped ==> PlanArea(plans) == |Pairs(cells)|
    ensures grouped <==>
              |SortDedup(RowsOf(cells))| * |SortDedup(ColumnsOf(cells))| > MAX_RECTANGLE_AMPLIFICATION * |Pairs(cells)|
  {
    hide SortDedup, RowColumns, Unique, Serves, Written, GroupPoints, Partitions, GroupsInside, Pairs, Area;
    var rows := SortDedup(RowsOf(cells));
    var columns := SortDedup(ColumnsOf(cells));
    SortedMembers(RowsOf(cells));
    SortedMembers(ColumnsOf(cells));
    UniqueIsPairs(cells, rows);
    AllPairs(cells, rows);
    var unique := Unique(cells, rows);
    var groups: RowGroups;
    grouped := |rows| * |columns| > MAX_RECTANGLE_AMPLIFICATION * unique;
    if grouped {
      groups := GroupRows(cells, rows);
    } else {
      groups := [(columns, rows)];
      OneGroup(cells, rows, columns);
    }
    PartitionColumns(groups, cells);
    plans := GroupPlans(groups, cells, prefix);
    GroupsServe(groups, cells, prefix, rowTile, columnTile, target);
    PlanAreas(groups, cells, prefix);
  }

  function PlanArea(plans: seq<Plan>): nat {
    if plans == [] then 0 else PlanArea(plans[..|plans| - 1]) + |plans[|plans| - 1].rows| * |plans[|plans| - 1].columns|
  }

  lemma {:induction false} PlanAreas(groups: RowGroups, cells: seq<Cell>, prefix: Coord)
    requires AllColumns(groups, cells)
    ensures PlanArea(GroupPlans(groups, cells, prefix)) == Area(groups)
    decreases |groups|
  {
    hide GroupPoints;
    if groups != [] {
      var n := |groups| - 1;
      PlanAreas(groups[..n], cells, prefix);
      assert GroupPlans(groups, cells, prefix)[..n] == GroupPlans(groups[..n], cells, prefix);
    }
  }

  lemma OneGroup(cells: seq<Cell>, rows: seq<nat>, columns: seq<nat>)
    requires cells != [] && Ascending(rows) && Ascending(columns)
    requires forall r :: r in rows <==> r in RowsOf(cells)
    requires forall c :: c in columns <==> c in ColumnsOf(cells)
    ensures Partitions([(columns, rows)], cells) && GroupsInside([(columns, rows)], cells)
    ensures Area([(columns, rows)]) == |rows| * |columns|
  {
    var groups: RowGroups := [(columns, rows)];
    assert groups[..0] == [];
    assert RowsOf(cells)[0] in rows && ColumnsOf(cells)[0] in columns;
    forall k | 0 <= k < |cells| ensures GroupsWith(groups, cells[k].1) == 1 && cells[k].2 in columns {
      assert RowsOf(cells)[k] in rows && ColumnsOf(cells)[k] in columns;
      assert GroupsWith(groups[..0], cells[k].1) == 0;
    }
    assert Area(groups[..0]) == 0;
  }

  lemma GroupsServe(groups: RowGroups, cells: seq<Cell>, prefix: Coord, rowTile: nat, columnTile: nat,
                    target: seq<Coord>)
    requires Partitions(groups, cells) && CellsAre(cells, prefix, target) && InTile(cells, rowTile, columnTile)
    requires GroupsInside(groups, cells)
    ensures AllColumns(groups, cells)
    ensures AllServe(GroupPlans(groups, cells, prefix), target)
    ensures WriteCount(GroupPlans(groups, cells, prefix)) == |cells|
    ensures forall k :: 0 <= k < |cells| ==> Written(GroupPlans(groups, cells, prefix), cells[k].0)
  {
    hide GroupPoints, CellOf, GroupInside, GroupShaped, GroupColumns, CellsAre, InTile, GroupPlan, GroupsWith,
         Serves, Written, WritesTo;
    var plans := GroupPlans(groups, cells, prefix);
    forall i | 0 <= i < |groups| ensures Serves(plans[i], target) {
      PlanServes(groups[i], cells, prefix, rowTile, columnTile, target);
    }
    MembershipsOne(groups, cells);
    PlanCount(groups, cells, prefix);
    forall k | 0 <= k < |cells| ensures Written(plans, cells[k].0) {
      var i := GroupOf(groups, cells[k].1);
      PlanWrites(groups[i], cells, prefix, target, k);
      WrittenBy(plans, i, cells[k].0);
    }
  }

  lemma WrittenBy(plans: seq<Plan>, i: nat, p: nat)
    requires i < |plans| && WritesTo(plans[i], p)
    ensures Written(plans, p)
  {}

  lemma PlanServes(group: (seq<nat>, seq<nat>), cells: seq<Cell>, prefix: Coord, rowTile: nat, columnTile: nat,
                   target: seq<Coord>)
    requires GroupShaped(group) && GroupInside(group, cells) && GroupColumns(group, cells)
    requires CellsAre(cells, prefix, target) && InTile(cells, rowTile, columnTile)
    ensures Serves(GroupPlan(group, cells, prefix), target)
  {
    hide GroupPoints, CellOf;
    assert group == (group.0, group.1);
    GroupServes(cells, GroupPlan(group, cells, prefix), target);
    GroupTile(group, cells, rowTile, columnTile);
    GroupRequested(group, cells, prefix, target);
  }

  lemma GroupRequested(group: (seq<nat>, seq<nat>), cells: seq<Cell>, prefix: Coord, target: seq<Coord>)
    requires GroupColumns(group, cells) && GroupInside(group, cells) && CellsAre(cells, prefix, target)
    ensures Requested(GroupPlan(group, cells, prefix), target)
  {
    hide GroupPoints, RowRequested, ColumnRequested;
    forall i | 0 <= i < |group.1| ensures RowRequested(prefix, group.1[i], target) {
      assert group.1[i] in group.1;
      var k :| 0 <= k < |cells| && RowsOf(cells)[k] == group.1[i];
      CellRequests(prefix, cells[k].1, cells[k].2, target, cells[k].0);
    }
    forall j | 0 <= j < |group.0| ensures ColumnRequested(prefix, group.0[j], target) {
      assert group.0[j] in group.0;
      var k :| 0 <= k < |cells| && ColumnsOf(cells)[k] == group.0[j];
      CellRequests(prefix, cells[k].1, cells[k].2, target, cells[k].0);
    }
  }

  lemma PlanWrites(group: (seq<nat>, seq<nat>), cells: seq<Cell>, prefix: Coord, target: seq<Coord>, k: nat)
    requires GroupColumns(group, cells) && CellsAre(cells, prefix, target) && k < |cells| && cells[k].1 in group.1
    ensures WritesTo(GroupPlan(group, cells, prefix), cells[k].0)
  {
    hide GroupPoints, CellOf;
    assert group == (group.0, group.1);
    var plan := GroupPlan(group, cells, prefix);
    GroupServes(cells, plan, target);
    var points := GroupPoints(cells, plan.rows, plan.columns);
    var j :| 0 <= j < |points| && points[j].0 == cells[k].0;
    assert Writes(plan.scatter, |plan.columns|) == points;
    assert Writes(plan.scatter, |plan.columns|)[j].0 == cells[k].0;
  }

  /** Rows and columns of groups are rows and columns of requests. */
  predicate GroupsInside(groups: RowGroups, cells: seq<Cell>) {
    forall i :: 0 <= i < |groups| ==> GroupInside(groups[i], cells)
  }

  predicate GroupInside(group: (seq<nat>, seq<nat>), cells: seq<Cell>) {
    && (forall r :: r in group.1 ==> r in RowsOf(cells))
    && forall c :: c in group.0 ==> c in ColumnsOf(cells)
  }

  lemma GroupTile(group: (seq<nat>, seq<nat>), cells: seq<Cell>, rowTile: nat, columnTile: nat)
    requires GroupShaped(group) && GroupInside(group, cells) && InTile(cells, rowTile, columnTile)
    ensures 0 < |group.0| <= TILE_SIDE && 0 < |group.1| <= TILE_SIDE
  {
    forall k | 0 <= k < |group.1| ensures group.1[k] / TILE_SIDE == rowTile {
      assert group.1[k] in group.1;
      var j :| 0 <= j < |cells| && RowsOf(cells)[j] == group.1[k];
    }
    forall k | 0 <= k < |group.0| ensures group.0[k] / TILE_SIDE == columnTile {
      assert group.0[k] in group.0;
      var j :| 0 <= j < |cells| && ColumnsOf(cells)[j] == group.0[k];
    }
    TileBound(group.1, rowTile);
    TileBound(group.0, columnTile);
  }

  lemma {:induction false} GroupOf(groups: RowGroups, row: nat) returns (i: nat)
    requires GroupsWith(groups, row) > 0
    ensures i < |groups| && row in groups[i].1
  {
    if row in groups[|groups| - 1].1 {
      i := |groups| - 1;
    } else {
      i := GroupOf(groups[..|groups| - 1], row);
    }
  }
}
