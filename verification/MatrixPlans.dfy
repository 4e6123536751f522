/** Matrix plans: which tile cell every requested output is copied from. */
module MatrixPlans {
  import opened Radix
  import opened KeyScans
  import opened BlockData

  /** Most rows and columns of one tile. */
  const TILE_SIDE: nat := 32

  // ---------------------------------------------------------------------
  // Scattering
  // ---------------------------------------------------------------------

  /** Where tile cells go: listed points, a grid of row and column positions, or row segments. */
  datatype Scatter =
    | Points(points: seq<(nat, nat)>)
    | Grid(start: nat, width: nat, rows: seq<(nat, nat)>, columns: seq<(nat, nat)>)
    | Spans(spans: seq<(nat, nat, nat)>)

  /** One tile computation: the batch prefix, its rows and columns, and its scatter. */
  datatype Plan = Plan(prefix: Coord, rows: seq<nat>, columns: seq<nat>, scatter: Scatter)

  /** One grid row: every selected column at its position. */
  function RowWrites(at: nat, i: nat, selected: seq<(nat, nat)>, columns: nat): (w: seq<(nat, nat)>)
    ensures |w| == |selected|
    ensures forall k :: 0 <= k < |w| ==> w[k] == (at + selected[k].0, i * columns + selected[k].1)
  {
    seq(|selected|, k requires 0 <= k < |selected| => (at + selected[k].0, i * columns + selected[k].1))
  }

  function GridWrites(start: nat, width: nat, rows: seq<(nat, nat)>, selected: seq<(nat, nat)>,
                      columns: nat): seq<(nat, nat)> {
    if rows == [] then []
    else
      var (position, i) := rows[|rows| - 1];
      GridWrites(start, width, rows[..|rows| - 1], selected, columns) + RowWrites(start + position * width, i, selected, columns)
  }

  function SpanWrites(span: (nat, nat, nat)): (w: seq<(nat, nat)>)
    ensures |w| == span.2
    ensures forall j :: 0 <= j < |w| ==> w[j] == (span.0 + j, span.1 + j)
  {
    seq(span.2, j requires 0 <= j < span.2 => (span.0 + j, span.1 + j))
  }

  function SpansWrites(spans: seq<(nat, nat, nat)>): seq<(nat, nat)> {
    if spans == [] then [] else SpansWrites(spans[..|spans| - 1]) + SpanWrites(spans[|spans| - 1])
  }

  /** The (position, tile offset) pairs of a scatter, in writing order. */
  function Writes(scatter: Scatter, columns: nat): seq<(nat, nat)> {
    match scatter
    case Points(points) => points
    case Grid(start, width, rows, selected) => GridWrites(start, width, rows, selected, columns)
    case Spans(spans) => SpansWrites(spans)
  }

  predicate CellsFit(writes: seq<(nat, nat)>, cells: nat) {
    forall k :: 0 <= k < |writes| ==> writes[k].1 < cells
  }

  predicate WritesFit(writes: seq<(nat, nat)>, positions: nat, cells: nat) {
    forall k :: 0 <= k < |writes| ==> writes[k].0 < positions && writes[k].1 < cells
  }

  /** Each write as an update of the output. */
  function Copies<T>(writes: seq<(nat, nat)>, tile: seq<T>): (u: seq<(nat, T)>)
    requires CellsFit(writes, |tile|)
    ensures |u| == |writes|
    ensures forall k :: 0 <= k < |u| ==> u[k] == (writes[k].0, tile[writes[k].1])
  {
    seq(|writes|, k requires 0 <= k < |writes| => (writes[k].0, tile[writes[k].1]))
  }

  /** Copy one stretch of writes. */
  method CopyWrites<T>(writes: seq<(nat, nat)>, tile: seq<T>, values: array<T>, ghost before: seq<T>,
                       ghost done: seq<(nat, nat)>)
    requires WritesFit(done + writes, values.Length, |tile|) && WritesFit(done, values.Length, |tile|) && |before| == values.Length
    requires values[..] == Apply(before, Copies(done, tile))
    modifies values
    ensures values[..] == Apply(before, Copies(done + writes, tile))
  {
    hide Apply;
    assert done + writes[..0] == done;
    forall k | 0 <= k <= |writes| ensures WritesFit(done + writes[..k], values.Length, |tile|) {
      assert done + writes == (done + writes[..k]) + writes[k..];
      WritesFitPrefix(done + writes[..k], writes[k..], values.Length, |tile|);
    }
    for k := 0 to |writes|
      invariant WritesFit(done + writes[..k], values.Length, |tile|)
      invariant values[..] == Apply(before, Copies(done + writes[..k], tile))
    {
      assert (done + writes)[|done| + k] == writes[k];
      CopyNext(before, done + writes[..k], writes[k], tile, values.Length);
      assert done + writes[..k + 1] == (done + writes[..k]) + [writes[k]];
      values[writes[k].0] := tile[writes[k].1];
    }
    assert writes[..|writes|] == writes;
  }

  lemma CopyNext<T>(before: seq<T>, done: seq<(nat, nat)>, next: (nat, nat), tile: seq<T>, length: nat)
    requires |before| == length && WritesFit(done, length, |tile|) && next.0 < length && next.1 < |tile|
    ensures WritesFit(done + [next], length, |tile|)
    ensures Apply(before, Copies(done + [next], tile)) == Apply(before, Copies(done, tile))[next.0 := tile[next.1]]
  {
    ApplySnoc(before, Copies(done, tile), (next.0, tile[next.1]));
    assert Copies(done + [next], tile) == Copies(done, tile) + [(next.0, tile[next.1])];
  }

  lemma WritesFitPrefix(writes: seq<(nat, nat)>, more: seq<(nat, nat)>, positions: nat, cells: nat)
    requires WritesFit(writes + more, positions, cells)
    ensures WritesFit(writes, positions, cells)
  {
    forall k | 0 <= k < |writes| ensures writes[k].0 < positions && writes[k].1 < cells {
      assert (writes + more)[k] == writes[k];
    }
  }

  /** `Scatter::each`: the three forms perform their writes in order. */
  method Each<T>(scatter: Scatter, columns: nat, tile: seq<T>, values: array<T>)
    requires WritesFit(Writes(scatter, columns), values.Length, |tile|)
    modifies values
    ensures values[..] == Apply(old(values[..]), Copies(Writes(scatter, columns), tile))
  {
    hide Apply;
    ghost var before := values[..];
    NoCopies(before, tile);
    match scatter {
      case Points(points) =>
        assert [] + points == points;
        CopyWrites(points, tile, values, before, []);
      case Grid(start, width, rows, selected) =>
        EachGrid(start, width, rows, selected, columns, tile, values);
      case Spans(spans) =>
        EachSpan(spans, tile, values);
    }
  }

  method EachGrid<T>(start: nat, width: nat, rows: seq<(nat, nat)>, selected: seq<(nat, nat)>, columns: nat, tile: seq<T>,
                     values: array<T>)
    requires WritesFit(GridWrites(start, width, rows, selected, columns), values.Length, |tile|)
    modifies values
    ensures values[..] == Apply(old(values[..]), Copies(GridWrites(start, width, rows, selected, columns), tile))
  {
    hide Apply, Copies, GridWrites, RowWrites;
    ghost var before := values[..];
    NoRows(start, width, rows[..0], selected, columns);
    NoCopies(before, tile);
    assert rows[..|rows|] == rows;
    for r := 0 to |rows|
      invariant WritesFit(GridWrites(start, width, rows[..r], selected, columns), values.Length, |tile|)
      invariant values[..] == Apply(before, Copies(GridWrites(start, width, rows[..r], selected, columns), tile))
    {
      var (position, i) := rows[r];
      ghost var done := GridWrites(start, width, rows[..r], selected, columns);
      GridPrefix(start, width, rows, selected, columns, r, values.Length, |tile|);
      CopyWrites(RowWrites(start + position * width, i, selected, columns), tile, values, before, done);
    }
  }

  lemma NoRows(start: nat, width: nat, rows: seq<(nat, nat)>, selected: seq<(nat, nat)>, columns: nat)
    ensures rows == [] ==> GridWrites(start, width, rows, selected, columns) == []
  {}

  method EachSpan<T>(spans: seq<(nat, nat, nat)>, tile: seq<T>, values: array<T>)
    requires WritesFit(SpansWrites(spans), values.Length, |tile|)
    modifies values
    ensures values[..] == Apply(old(values[..]), Copies(SpansWrites(spans), tile))
  {
    hide Apply, Copies, SpanWrites;
    ghost var before := values[..];
    NoCopies(before, tile);
    assert spans[..0] == [] && spans[..|spans|] == spans;
    for s := 0 to |spans|
      invariant WritesFit(SpansWrites(spans[..s]), values.Length, |tile|)
      invariant values[..] == Apply(before, Copies(SpansWrites(spans[..s]), tile))
    {
      SpansPrefix(spans, s, values.Length, |tile|);
      CopyWrites(SpanWrites(spans[s]), tile, values, before, SpansWrites(spans[..s]));
    }
  }

  lemma NoCopies<T>(before: seq<T>, tile: seq<T>)
    ensures Apply(before, Copies([], tile)) == before
  {}

  lemma {:induction false} GridPrefix(start: nat, width: nat, rows: seq<(nat, nat)>, selected: seq<(nat, nat)>,
                                      columns: nat, r: nat,
                                      positions: nat, cells: nat)
    requires r < |rows| && WritesFit(GridWrites(start, width, rows, selected, columns), positions, cells)
    ensures var (position, i) := rows[r];
            GridWrites(start, width, rows[..r + 1], selected, columns)
            == GridWrites(start, width, rows[..r], selected, columns) + RowWrites(start + position * width, i, selected, columns)
    ensures WritesFit(GridWrites(start, width, rows[..r + 1], selected, columns), positions, cells)
    decreases |rows|
  {
    assert rows[..r + 1][..r] == rows[..r];
    if r + 1 < |rows| {
      var (position, i) := rows[|rows| - 1];
      WritesFitPrefix(GridWrites(start, width, rows[..|rows| - 1], selected, columns),
                      RowWrites(start + position * width, i, selected, columns), positions, cells);
      GridPrefix(start, width, rows[..|rows| - 1], selected, columns, r, positions, cells);
      assert rows[..|rows| - 1][..r] == rows[..r] && rows[..|rows| - 1][..r + 1] == rows[..r + 1];
    } else {
      assert rows[..r + 1] == rows;
    }
  }

  lemma {:induction false} SpansPrefix(spans: seq<(nat, nat, nat)>, s: nat, positions: nat, cells: nat)
    requires s < |spans| && WritesFit(SpansWrites(spans), positions, cells)
    ensures SpansWrites(spans[..s + 1]) == SpansWrites(spans[..s]) + SpanWrites(spans[s])
    ensures WritesFit(SpansWrites(spans[..s + 1]), positions, cells)
    decreases |spans|
  {
    assert spans[..s + 1][..s] == spans[..s];
    if s + 1 < |spans| {
      WritesFitPrefix(SpansWrites(spans[..|spans| - 1]), SpanWrites(spans[|spans| - 1]), positions, cells);
      SpansPrefix(spans[..|spans| - 1], s, positions, cells);
      assert spans[..|spans| - 1][..s] == spans[..s] && spans[..|spans| - 1][..s + 1] == spans[..s + 1];
    } else {
      assert spans[..s + 1] == spans;
    }
  }

  /** Copies that all carry the expected value leave it at every written position. */
  lemma {:induction false} CopiesExpected<T>(before: seq<T>, writes: seq<(nat, nat)>, tile: seq<T>, expected: seq<T>)
    requires WritesFit(writes, |before|, |tile|) && |expected| == |before|
    requires forall k :: 0 <= k < |writes| ==> tile[writes[k].1] == expected[writes[k].0]
    ensures var after := Apply(before, Copies(writes, tile));
            && |after| == |before|
            && (forall k :: 0 <= k < |writes| ==> after[writes[k].0] == expected[writes[k].0])
            && forall p :: 0 <= p < |before| ==> after[p] == before[p] || after[p] == expected[p]
    decreases |writes|
  {
    if writes == [] {
      assert Copies(writes, tile) == [];
    } else {
      var n := |writes| - 1;
      CopiesExpected(before, writes[..n], tile, expected);
      CopyNext(before, writes[..n], writes[n], tile, |before|);
      assert writes == writes[..n] + [writes[n]];
    }
  }

  // ---------------------------------------------------------------------
  // What a list of plans must do
  // ---------------------------------------------------------------------

  /** The output coordinate of a tile cell. */
  function CellOf(plan: Plan, offset: nat): Coord
    requires plan.columns != [] && offset < |plan.rows| * |plan.columns|
  {
    CellInside(offset, |plan.rows|, |plan.columns|);
    plan.prefix + [plan.rows[offset / |plan.columns|], plan.columns[offset % |plan.columns|]]
  }

  lemma CellInside(offset: nat, rows: nat, columns: nat)
    requires columns > 0 && offset < rows * columns
    ensures offset / columns < rows && offset % columns < columns
  {
    if offset / columns >= rows {
      MulMonotone(rows, offset / columns, columns);
    }
  }

  /** A bounded tile with sorted rows and columns. */
  predicate TileShaped(plan: Plan) {
    && 0 < |plan.rows| <= TILE_SIDE && 0 < |plan.columns| <= TILE_SIDE
    && Ascending(plan.rows) && Ascending(plan.columns)
  }

  predicate WriteServes(plan: Plan, write: (nat, nat), cells: seq<Coord>) {
    && write.0 < |cells| && plan.columns != [] && write.1 < |plan.rows| * |plan.columns|
    && cells[write.0] == CellOf(plan, write.1)
  }

  predicate InRowOf(cell: Coord, prefix: Coord, row: nat) {
    |cell| == |prefix| + 2 && cell[..|prefix|] == prefix && cell[|prefix|] == row
  }

  predicate InColumnOf(cell: Coord, prefix: Coord, column: nat) {
    |cell| == |prefix| + 2 && cell[..|prefix|] == prefix && cell[|prefix| + 1] == column
  }

  predicate RowRequested(prefix: Coord, row: nat, cells: seq<Coord>) {
    exists p :: 0 <= p < |cells| && InRowOf(cells[p], prefix, row)
  }

  predicate ColumnRequested(prefix: Coord, column: nat, cells: seq<Coord>) {
    exists p :: 0 <= p < |cells| && InColumnOf(cells[p], prefix, column)
  }

  /** No row or column is computed that no request names. */
  predicate Requested(plan: Plan, cells: seq<Coord>) {
    && (forall i :: 0 <= i < |plan.rows| ==> RowRequested(plan.prefix, plan.rows[i], cells))
    && forall j :: 0 <= j < |plan.columns| ==> ColumnRequested(plan.prefix, plan.columns[j], cells)
  }

  lemma CellRequests(prefix: Coord, row: nat, column: nat, cells: seq<Coord>, p: nat)
    requires p < |cells| && cells[p] == prefix + [row, column]
    ensures RowRequested(prefix, row, cells) && ColumnRequested(prefix, column, cells)
  {
    assert InRowOf(cells[p], prefix, row) && InColumnOf(cells[p], prefix, column);
  }

  /** Every write copies the requested cell of its position. */
  predicate Serves(plan: Plan, cells: seq<Coord>) {
    && TileShaped(plan) && Requested(plan, cells)
    && forall k :: 0 <= k < |Writes(plan.scatter, |plan.columns|)| ==>
         WriteServes(plan, Writes(plan.scatter, |plan.columns|)[k], cells)
  }

  predicate AllServe(plans: seq<Plan>, cells: seq<Coord>) {
    forall i :: 0 <= i < |plans| ==> Serves(plans[i], cells)
  }

  predicate WritesTo(plan: Plan, p: nat) {
    exists k :: 0 <= k < |Writes(plan.scatter, |plan.columns|)| && Writes(plan.scatter, |plan.columns|)[k].0 == p
  }

  predicate Written(plans: seq<Plan>, p: nat) {
    exists i :: 0 <= i < |plans| && WritesTo(plans[i], p)
  }

  function WriteCount(plans: seq<Plan>): nat {
    if plans == [] then 0
    else WriteCount(plans[..|plans| - 1]) + |Writes(plans[|plans| - 1].scatter, |plans[|plans| - 1].columns|)|
  }

  /** Every position is written, from its own cell, and no more writes are made than positions. */
  predicate ServesExactly(plans: seq<Plan>, cells: seq<Coord>) {
    && AllServe(plans, cells)
    && (forall p :: 0 <= p < |cells| ==> Written(plans, p))
    && WriteCount(plans) == |cells|
  }

  lemma {:induction false} WriteCountConcat(a: seq<Plan>, b: seq<Plan>)
    ensures WriteCount(a + b) == WriteCount(a) + WriteCount(b)
    decreases |b|
  {
    hide Writes;
    if b == [] {
      assert a + b == a;
    } else {
      WriteCountConcat(a, b[..|b| - 1]);
      assert (a + b)[..|a + b| - 1] == a + b[..|b| - 1];
    }
  }

  lemma WrittenConcat(a: seq<Plan>, b: seq<Plan>, p: nat)
    ensures Written(a + b, p) <==> Written(a, p) || Written(b, p)
  {
    hide WritesTo;
    if Written(a, p) {
      var i :| 0 <= i < |a| && WritesTo(a[i], p);
      assert WritesTo((a + b)[i], p);
    }
    if Written(b, p) {
      var i :| 0 <= i < |b| && WritesTo(b[i], p);
      assert WritesTo((a + b)[|a| + i], p);
    }
  }

  // ---------------------------------------------------------------------
  // Exactly once
  // ---------------------------------------------------------------------

  /** All written positions, in writing order. */
  function Positions(plans: seq<Plan>): (s: seq<nat>)
    ensures |s| == WriteCount(plans)
  {
    if plans == [] then []
    else Positions(plans[..|plans| - 1]) + Firsts(Writes(plans[|plans| - 1].scatter, |plans[|plans| - 1].columns|))
  }

  function Firsts(writes: seq<(nat, nat)>): (s: seq<nat>)
    ensures |s| == |writes| && forall k :: 0 <= k < |s| ==> s[k] == writes[k].0
  {
    seq(|writes|, k requires 0 <= k < |writes| => writes[k].0)
  }

  lemma {:induction false} WrittenPositions(plans: seq<Plan>, p: nat)
    requires Written(plans, p)
    ensures p in Positions(plans)
    decreases |plans|
  {
    hide Writes, WritesTo;
    var n := |plans| - 1;
    if WritesTo(plans[n], p) {
      WrittenFirst(plans[n], p);
    } else {
      var i :| 0 <= i < |plans| && WritesTo(plans[i], p);
      assert plans[..n][i] == plans[i];
      WrittenPositions(plans[..n], p);
    }
  }

  lemma WrittenFirst(plan: Plan, p: nat)
    requires WritesTo(plan, p)
    ensures p in Firsts(Writes(plan.scatter, |plan.columns|))
  {
    hide Writes;
    var w := Writes(plan.scatter, |plan.columns|);
    var k :| 0 <= k < |w| && w[k].0 == p;
    assert Firsts(w)[k] == p;
  }

  predicate Distinct(s: seq<nat>) {
    forall i, j :: 0 <= i < j < |s| ==> s[i] != s[j]
  }

  function Below(n: nat): set<nat> {
    if n == 0 then {} else Below(n - 1) + {n - 1}
  }

  lemma {:induction false} MembersAtMost(s: seq<nat>)
    ensures |Members(s)| <= |s|
  {
    if s != [] {
      var front, last := s[..|s| - 1], s[|s| - 1];
      MembersAtMost(front);
      assert s == front + [last];
      assert Members(s) == Members(front) + {last};
    }
  }

  lemma {:induction false} CountBelow(n: nat)
    ensures |Below(n)| == n && forall p: nat :: p in Below(n) <==> p < n
  {
    if n > 0 {
      CountBelow(n - 1);
    }
  }

  /** A list of `n` entries that holds all of `0..n` repeats none of them. */
  lemma Pigeonhole(s: seq<nat>)
    requires forall p :: 0 <= p < |s| ==> p in s
    ensures Distinct(s)
  {
    forall i, j | 0 <= i < j < |s| ensures s[i] != s[j] {
      Repeated(s, i, j);
    }
  }

  lemma Repeated(s: seq<nat>, i: nat, j: nat)
    requires i < j < |s| && forall p :: 0 <= p < |s| ==> p in s
    ensures s[i] != s[j]
  {
    var without := s[..j] + s[j + 1..];
    MembersAtMost(without);
    CountBelow(|s|);
    if s[i] == s[j] {
      forall p: nat | p in Below(|s|) ensures p in Members(without) {
        assert p in s;
        var k :| 0 <= k < |s| && s[k] == p;
        var at := if k < j then k else if k > j then k - 1 else i;
        assert without[at] == p;
      }
      SubsetSize(Below(|s|), Members(without));
    }
  }

  lemma {:induction false} SubsetSize(a: set<nat>, b: set<nat>)
    requires a <= b
    ensures |a| <= |b|
  {
    if a != {} {
      var x :| x in a;
      SubsetSize(a - {x}, b - {x});
    }
  }

  /** Plans that serve exactly write every position once. */
  lemma WritesOnce(plans: seq<Plan>, cells: seq<Coord>)
    requires ServesExactly(plans, cells)
    ensures Distinct(Positions(plans)) && forall p :: 0 <= p < |cells| ==> p in Positions(plans)
  {
    hide Serves;
    forall p | 0 <= p < |cells| ensures p in Positions(plans) {
      WrittenPositions(plans, p);
    }
    Pigeonhole(Positions(plans));
  }

  // ---------------------------------------------------------------------
  // Sorted, duplicate-free lists
  // ---------------------------------------------------------------------

  /** The place of a member, as a binary search finds it. */
  function IndexOf(list: seq<nat>, x: nat): (i: nat)
    requires x in list
    ensures i < |list| && list[i] == x
  {
    if list[0] == x then 0 else 1 + IndexOf(list[1..], x)
  }

  lemma {:induction false} AscendingSpread(list: seq<nat>, i: nat, j: nat)
    requires Ascending(list) && i <= j < |list|
    ensures list[i] + (j - i) <= list[j]
    decreases j - i
  {
    if i < j {
      AscendingSpread(list, i, j - 1);
    }
  }

  /** Members of one tile number at most its side. */
  lemma TileBound(list: seq<nat>, tile: nat)
    requires Ascending(list) && forall k :: 0 <= k < |list| ==> list[k] / TILE_SIDE == tile
    ensures |list| <= TILE_SIDE
  {
    if list != [] {
      AscendingSpread(list, 0, |list| - 1);
    }
  }
}
