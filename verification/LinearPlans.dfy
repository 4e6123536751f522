/** Planning a flat span: row segments cut at tile boundaries and scattered as spans. */
module LinearPlans {
  import opened Radix
  import opened Request
  import opened Progressions
  import opened KeyScans
  import opened Buckets
  import opened MatrixPlans

  /** Consecutive requested columns of one row, inside one tile. */
  datatype Piece = Piece(position: nat, row: nat, column: nat, count: nat)

  type PieceGroups = Groups<Coord, Piece>

  const COUNT: (Piece) -> nat := (piece: Piece) => piece.count

  predicate PieceCell(piece: Piece, key: Coord, cells: seq<Coord>, j: nat)
    requires |key| >= 2
  {
    && piece.position + j < |cells|
    && cells[piece.position + j] == key[..|key| - 2] + [piece.row, piece.column + j]
  }

  /** The piece lies in the tile its key ends with, and its positions request its cells. */
  predicate PieceFits(piece: Piece, key: Coord, cells: seq<Coord>) {
    && |key| >= 2 && piece.count > 0
    && key[|key| - 2] == piece.row / TILE_SIDE && key[|key| - 1] == piece.column / TILE_SIDE
    && piece.column % TILE_SIDE + piece.count <= TILE_SIDE
    && forall j :: 0 <= j < piece.count ==> PieceCell(piece, key, cells, j)
  }

  ghost predicate HasPiece(groups: PieceGroups, p: nat) {
    exists key: Coord, piece: Piece ::
      Buckets.Holds(groups, key, piece) && piece.position <= p < piece.position + piece.count
  }

  /** The first `n` positions, each in a piece that fits its tile. */
  ghost predicate Collected(groups: PieceGroups, cells: seq<Coord>, n: nat) {
    && DistinctKeys(groups) && NoneEmpty(groups)
    && (forall key: Coord, piece: Piece :: Buckets.Holds(groups, key, piece) ==> PieceFits(piece, key, cells))
    && (forall p: nat :: p < n ==> HasPiece(groups, p))
    && TotalWeight(groups, COUNT) == n
  }

  lemma NoPieces(cells: seq<Coord>)
    ensures Collected([], cells, 0)
  {}

  method Collect(groups: PieceGroups, key: Coord, piece: Piece, ghost cells: seq<Coord>) returns (r: PieceGroups)
    requires Collected(groups, cells, piece.position) && PieceFits(piece, key, cells)
    ensures Collected(r, cells, piece.position + piece.count)
  {
    hide Buckets.Holds, PieceFits, TotalWeight;
    r := Push<Coord, Piece>(groups, key, piece, COUNT);
    forall p: nat | p < piece.position + piece.count ensures HasPiece(r, p) {
      if p < piece.position {
        assert HasPiece(groups, p);
        var k: Coord, v: Piece :| Buckets.Holds(groups, k, v) && v.position <= p < v.position + v.count;
        assert Buckets.Holds(r, k, v);
      } else {
        assert Buckets.Holds(r, key, piece);
      }
    }
  }

  // ---------------------------------------------------------------------
  // Cutting rows
  // ---------------------------------------------------------------------

  predicate RowCell(cells: seq<Coord>, at: nat, coord: Coord, d: nat)
    requires |coord| >= 2
  {
    && at + d < |cells|
    && cells[at + d] == coord[..|coord| - 2] + [coord[|coord| - 2], coord[|coord| - 1] + d]
  }

  /** The positions of a segment request consecutive columns of one row. */
  predicate RowCells(cells: seq<Coord>, segment: Segment, coord: Coord)
    requires |coord| >= 2
  {
    forall d :: 0 <= d < segment.count ==> RowCell(cells, segment.output, coord, d)
  }

  /** The coordinates of a segment differ only in the last place. */
  lemma SegmentCells(segment: Segment, start: nat, len: nat, shape: seq<nat>, cells: seq<Coord>)
    requires |shape| >= 2 && Positive(shape) && start + len <= Size(shape)
    requires |cells| == len && forall i :: 0 <= i < len ==> cells[i] == Decode(start + i, shape)
    requires InRow(segment, start, shape[|shape| - 1]) && segment.output + segment.count <= len
    ensures RowCells(cells, segment, Decode(segment.flat, shape))
  {
    hide Size, Decode;
    forall d | 0 <= d < segment.count ensures RowCell(cells, segment.output, Decode(segment.flat, shape), d) {
      LinearRow(shape, |shape| - 1, segment.flat, d);
      assert cells[segment.output + d] == Decode(start + (segment.output + d), shape);
    }
  }

  /** `while done < length`: one piece per tile the segment crosses. */
  method CutSegment(groups: PieceGroups, segment: Segment, coord: Coord,
                    ghost cells: seq<Coord>) returns (r: PieceGroups)
    requires |coord| >= 2 && RowCells(cells, segment, coord)
    requires Collected(groups, cells, segment.output)
    ensures Collected(r, cells, segment.output + segment.count)
  {
    hide Collected, PieceFits, RowCells;
    r := groups;
    var rank := |coord|;
    var row := coord[rank - 2];
    var done := 0;
    while done < segment.count
      invariant 0 <= done <= segment.count && Collected(r, cells, segment.output + done)
    {
      var column := coord[rank - 1] + done;
      var key := coord[rank - 2 := row / TILE_SIDE][rank - 1 := column / TILE_SIDE];
      var count := Min(segment.count - done, TILE_SIDE - column % TILE_SIDE);
      var piece := Piece(segment.output + done, row, column, count);
      PieceOf(piece, coord, key, done, segment, cells);
      r := Collect(r, key, piece, cells);
      done := done + count;
    }
  }

  lemma PieceOf(piece: Piece, coord: Coord, key: Coord, done: nat, segment: Segment, cells: seq<Coord>)
    requires |coord| >= 2 && RowCells(cells, segment, coord)
    requires piece.row == coord[|coord| - 2] && piece.column == coord[|coord| - 1] + done
    requires piece.position == segment.output + done && 0 < piece.count <= segment.count - done
    requires piece.column % TILE_SIDE + piece.count <= TILE_SIDE
    requires key == coord[|coord| - 2 := piece.row / TILE_SIDE][|coord| - 1 := piece.column / TILE_SIDE]
    ensures PieceFits(piece, key, cells)
  {
    assert key[..|key| - 2] == coord[..|coord| - 2];
    forall j | 0 <= j < piece.count ensures PieceCell(piece, key, cells, j) {
      assert RowCell(cells, segment.output, coord, done + j);
    }
  }

  /** The pieces of a whole span. */
  method CutSpan(start: nat, len: nat, shape: seq<nat>, ghost cells: seq<Coord>) returns (groups: PieceGroups)
    requires |shape| >= 2 && Positive(shape) && start + len <= Size(shape) <= U64_MAX
    requires |cells| == len && forall i :: 0 <= i < len ==> cells[i] == Decode(start + i, shape)
    ensures Collected(groups, cells, len)
  {
    hide Size, Decode, Collected, RowCells;
    var width := shape[|shape| - 1];
    var tiled := LinearSegments(start, len, width);
    var segments := tiled.value;
    groups := [];
    NoPieces(cells);
    for i := 0 to |segments|
      invariant EndOf(segments[..i]) <= len
      invariant Collected(groups, cells, EndOf(segments[..i]))
    {
      var segment := segments[i];
      EndMonotone(segments, start, width, i + 1);
      assert segments[..i + 1][i] == segment;
      var coord := DecodeFlat(segment.flat, shape);
      SegmentCells(segment, start, len, shape, cells);
      groups := CutSegment(groups, segment, coord.value, cells);
    }
    assert segments[..|segments|] == segments;
  }

  // ---------------------------------------------------------------------
  // Bit masks
  // ---------------------------------------------------------------------

  /** The width of a mask. */
  const MASK_BITS: nat := 64

  /** `1 << at`, a shift a mask can make. */
  function Bit(at: nat): set<nat>
    requires at < MASK_BITS
  {
    {at}
  }

  /** `((1 << len) - 1) << at`: a run of `len` bits from bit `at`, by shifts a mask can make and without
      losing a bit. */
  function Bits(at: nat, len: nat): (bits: set<nat>)
    requires len < MASK_BITS && at < MASK_BITS && at + len <= MASK_BITS
    ensures forall b: nat :: b in bits <==> at <= b < at + len
  {
    if len == 0 then {} else Bits(at, len - 1) + {at + len - 1}
  }

  /** The values named by the bits of a mask, from the origin of their tile. */
  method MaskValues(mask: set<nat>, origin: nat) returns (values: seq<nat>)
    ensures Ascending(values)
    ensures forall v: nat :: v in values <==> origin <= v < origin + TILE_SIDE && v - origin in mask
  {
    values := [];
    for i := 0 to TILE_SIDE
      invariant Ascending(values)
      invariant forall v: nat :: v in values <==> origin <= v < origin + i && v - origin in mask
    {
      if Bit(i) <= mask {
        assert forall k :: 0 <= k < |values| ==> values[k] in values;
        values := values + [origin + i];
      }
    }
  }

  /** What the pieces of one tile select. */
  ghost predicate Selects(pieces: seq<Piece>, rows: seq<nat>, columns: seq<nat>) {
    && Ascending(rows) && Ascending(columns)
    && (forall v: nat :: v in rows <==> exists k :: 0 <= k < |pieces| && pieces[k].row == v)
    && (forall v: nat :: v in columns <==> exists k :: 0 <= k < |pieces| && ColumnOf(pieces[k], v))
  }

  predicate ColumnOf(piece: Piece, v: nat) {
    piece.column <= v < piece.column + piece.count
  }

  predicate PiecesInTile(pieces: seq<Piece>, rowTile: nat, columnTile: nat) {
    forall k :: 0 <= k < |pieces| ==> PieceInTile(pieces[k], rowTile, columnTile)
  }

  predicate PieceInTile(piece: Piece, rowTile: nat, columnTile: nat) {
    && piece.count > 0 && piece.row / TILE_SIDE == rowTile && piece.column / TILE_SIDE == columnTile
    && piece.column % TILE_SIDE + piece.count <= TILE_SIDE
  }

  ghost predicate Masks(pieces: seq<Piece>, n: nat, rowOrigin: nat, columnOrigin: nat, rowMask: set<nat>,
                        columnMask: set<nat>)
    requires n <= |pieces|
  {
    && (forall b: nat :: b in rowMask <==> exists k :: 0 <= k < n && pieces[k].row == rowOrigin + b)
    && (forall b: nat :: b in columnMask <==> exists k :: 0 <= k < n && ColumnOf(pieces[k], columnOrigin + b))
  }

  /** The rows and columns of one tile, collected in two bit masks. */
  method TileAxes(pieces: seq<Piece>, rowTile: nat, columnTile: nat) returns (rows: seq<nat>, columns: seq<nat>)
    requires PiecesInTile(pieces, rowTile, columnTile)
    ensures Selects(pieces, rows, columns)
  {
    hide Masks, ColumnOf, Bits;
    var rowOrigin, columnOrigin := rowTile * TILE_SIDE, columnTile * TILE_SIDE;
    var rowMask: set<nat>, columnMask: set<nat> := {}, {};
    NoMask(pieces, rowOrigin, columnOrigin);
    for k := 0 to |pieces|
      invariant Masks(pieces, k, rowOrigin, columnOrigin, rowMask, columnMask)
    {
      PieceOrigin(pieces[k], rowTile, columnTile);
      MaskNext(pieces, k, rowOrigin, columnOrigin, rowMask, columnMask);
      rowMask := rowMask + Bit(pieces[k].row - rowOrigin);
      columnMask := columnMask + Bits(pieces[k].column - columnOrigin, pieces[k].count);
    }
    rows := MaskValues(rowMask, rowOrigin);
    columns := MaskValues(columnMask, columnOrigin);
    MaskSelects(pieces, rowTile, columnTile, rowMask, columnMask, rows, columns);
  }

  lemma NoMask(pieces: seq<Piece>, rowOrigin: nat, columnOrigin: nat)
    ensures Masks(pieces, 0, rowOrigin, columnOrigin, {}, {})
  {}

  lemma PieceOrigin(piece: Piece, rowTile: nat, columnTile: nat)
    requires PieceInTile(piece, rowTile, columnTile)
    ensures piece.count > 0 && rowTile * TILE_SIDE <= piece.row < rowTile * TILE_SIDE + TILE_SIDE
    ensures columnTile * TILE_SIDE <= piece.column && piece.column + piece.count <= columnTile * TILE_SIDE + TILE_SIDE
  {}

  lemma MaskNext(pieces: seq<Piece>, k: nat, rowOrigin: nat, columnOrigin: nat, rowMask: set<nat>, columnMask: set<nat>)
    requires k < |pieces| && Masks(pieces, k, rowOrigin, columnOrigin, rowMask, columnMask)
    requires rowOrigin <= pieces[k].row < rowOrigin + TILE_SIDE && pieces[k].count > 0
    requires columnOrigin <= pieces[k].column && pieces[k].column + pieces[k].count <= columnOrigin + TILE_SIDE
    ensures Masks(pieces, k + 1, rowOrigin, columnOrigin, rowMask + Bit(pieces[k].row - rowOrigin),
                  columnMask + Bits(pieces[k].column - columnOrigin, pieces[k].count))
  {
    var piece := pieces[k];
    var r, c := rowMask + Bit(piece.row - rowOrigin), columnMask + Bits(piece.column - columnOrigin, piece.count);
    forall b: nat ensures b in r <==> exists i :: 0 <= i < k + 1 && pieces[i].row == rowOrigin + b {
      if b == piece.row - rowOrigin {
        assert pieces[k].row == rowOrigin + b;
      } else if b in rowMask {
        var i :| 0 <= i < k && pieces[i].row == rowOrigin + b;
        assert 0 <= i < k + 1 && pieces[i].row == rowOrigin + b;
      }
    }
    forall b: nat ensures b in c <==> exists i :: 0 <= i < k + 1 && ColumnOf(pieces[i], columnOrigin + b) {
      if b in Bits(piece.column - columnOrigin, piece.count) {
        assert ColumnOf(pieces[k], columnOrigin + b);
      } else if b in columnMask {
        var i :| 0 <= i < k && ColumnOf(pieces[i], columnOrigin + b);
        assert 0 <= i < k + 1 && ColumnOf(pieces[i], columnOrigin + b);
      }
    }
  }

  lemma MaskSelects(pieces: seq<Piece>, rowTile: nat, columnTile: nat, rowMask: set<nat>, columnMask: set<nat>,
                    rows: seq<nat>, columns: seq<nat>)
    requires PiecesInTile(pieces, rowTile, columnTile)
    requires Masks(pieces, |pieces|, rowTile * TILE_SIDE, columnTile * TILE_SIDE, rowMask, columnMask)
    requires Ascending(rows) && Ascending(columns)
    requires var o := rowTile * TILE_SIDE; forall v: nat :: v in rows <==> o <= v < o + TILE_SIDE && v - o in rowMask
    requires var o := columnTile * TILE_SIDE; forall v: nat :: v in columns <==> o <= v < o + TILE_SIDE && v - o in columnMask
    ensures Selects(pieces, rows, columns)
  {
    hide Ascending, PieceInTile;
    var ro, co := rowTile * TILE_SIDE, columnTile * TILE_SIDE;
    forall v: nat ensures v in rows <==> exists k :: 0 <= k < |pieces| && pieces[k].row == v {
      if v in rows {
        var b: nat := v - ro;
        assert b in rowMask;
      }
      if k :| 0 <= k < |pieces| && pieces[k].row == v {
        PieceOrigin(pieces[k], rowTile, columnTile);
        var b: nat := v - ro;
        assert b in rowMask;
      }
    }
    forall v: nat ensures v in columns <==> exists k :: 0 <= k < |pieces| && ColumnOf(pieces[k], v) {
      if v in columns {
        var b: nat := v - co;
        assert b in columnMask;
      }
      if k :| 0 <= k < |pieces| && ColumnOf(pieces[k], v) {
        PieceOrigin(pieces[k], rowTile, columnTile);
        var b: nat := v - co;
        assert b in columnMask;
      }
    }
  }

  // ---------------------------------------------------------------------
  // One tile
  // ---------------------------------------------------------------------

  predicate HasRun(list: seq<nat>, from: nat, to: nat) {
    forall x :: from <= x < to ==> x in list
  }

  /** Consecutive members of an ascending list sit next to each other. */
  lemma {:induction false} Consecutive(list: seq<nat>, at: nat, j: nat)
    requires Ascending(list) && at < |list| && HasRun(list, list[at], list[at] + j + 1)
    ensures at + j < |list| && list[at + j] == list[at] + j
    decreases j
  {
    if j > 0 {
      Consecutive(list, at, j - 1);
      assert list[at] + j in list;
      var t :| 0 <= t < |list| && list[t] == list[at] + j;
      assert t > at + (j - 1);
      assert list[at + j] <= list[t];
    }
  }

  function SpanOf(piece: Piece, rows: seq<nat>, columns: seq<nat>): (nat, nat, nat)
    requires piece.row in rows && piece.column in columns
  {
    (piece.position, IndexOf(rows, piece.row) * |columns| + IndexOf(columns, piece.column), piece.count)
  }

  lemma PieceSelected(pieces: seq<Piece>, rows: seq<nat>, columns: seq<nat>, k: nat)
    requires Selects(pieces, rows, columns) && k < |pieces| && pieces[k].count > 0
    ensures pieces[k].row in rows && pieces[k].column in columns
    ensures HasRun(columns, pieces[k].column, pieces[k].column + pieces[k].count)
  {
    forall x: nat | pieces[k].column <= x < pieces[k].column + pieces[k].count ensures x in columns {
      assert ColumnOf(pieces[k], x);
    }
  }

  /** One piece is copied from consecutive cells of its row. */
  lemma SpanServes(plan: Plan, pieces: seq<Piece>, k: nat, key: Coord, cells: seq<Coord>, j: nat)
    requires Selects(pieces, plan.rows, plan.columns) && k < |pieces| && PieceFits(pieces[k], key, cells)
    requires plan.prefix == key[..|key| - 2] && j < pieces[k].count
    requires pieces[k].row in plan.rows && pieces[k].column in plan.columns
    ensures WriteServes(plan, SpanWrites(SpanOf(pieces[k], plan.rows, plan.columns))[j], cells)
  {
    hide CellOf, Selects, IndexOf;
    var piece := pieces[k];
    PieceSelected(pieces, plan.rows, plan.columns, k);
    var r, c := IndexOf(plan.rows, piece.row), IndexOf(plan.columns, piece.column);
    assert Ascending(plan.columns) by { SelectsAscending(pieces, plan); }
    Consecutive(plan.columns, c, j);
    assert PieceCell(piece, key, cells, j);
    PlanCell(plan, r, c + j);
  }

  lemma SelectsAscending(pieces: seq<Piece>, plan: Plan)
    requires Selects(pieces, plan.rows, plan.columns)
    ensures Ascending(plan.rows) && Ascending(plan.columns)
  {}

  lemma PlanCell(plan: Plan, i: nat, j: nat)
    requires i < |plan.rows| && j < |plan.columns|
    ensures i * |plan.columns| + j < |plan.rows| * |plan.columns|
    ensures CellOf(plan, i * |plan.columns| + j) == plan.prefix + [plan.rows[i], plan.columns[j]]
  {
    var c := |plan.columns|;
    MulMonotone(i + 1, |plan.rows|, c);
    assert (i + 1) * c == i * c + c;
    MulMonotone(0, i, c);
    DivUnique(i, j, c);
  }

  /** The rows and columns fit a tile. */
  lemma AxesBounded(pieces: seq<Piece>, rows: seq<nat>, columns: seq<nat>, rowTile: nat, columnTile: nat)
    requires pieces != [] && Selects(pieces, rows, columns) && PiecesInTile(pieces, rowTile, columnTile)
    ensures 0 < |rows| <= TILE_SIDE && 0 < |columns| <= TILE_SIDE
  {
    hide PieceInTile;
    forall k | 0 <= k < |rows| ensures rows[k] / TILE_SIDE == rowTile {
      assert rows[k] in rows;
      var i :| 0 <= i < |pieces| && pieces[i].row == rows[k];
      PieceTiles(pieces[i], rowTile, columnTile, pieces[i].column);
    }
    forall k | 0 <= k < |columns| ensures columns[k] / TILE_SIDE == columnTile {
      assert columns[k] in columns;
      var i :| 0 <= i < |pieces| && ColumnOf(pieces[i], columns[k]);
      PieceTiles(pieces[i], rowTile, columnTile, columns[k]);
    }
    TileBound(rows, rowTile);
    TileBound(columns, columnTile);
    PieceTiles(pieces[0], rowTile, columnTile, pieces[0].column);
    PieceSelected(pieces, rows, columns, 0);
  }

  lemma PieceTiles(piece: Piece, rowTile: nat, columnTile: nat, v: nat)
    requires PieceInTile(piece, rowTile, columnTile)
    ensures piece.count > 0 && piece.row / TILE_SIDE == rowTile
    ensures ColumnOf(piece, v) ==> v / TILE_SIDE == columnTile
  {}

  /** All pieces of a tile fit its key. */
  predicate AllFit(pieces: seq<Piece>, key: Coord, cells: seq<Coord>) {
    |key| >= 2 && forall k :: 0 <= k < |pieces| ==> PieceFits(pieces[k], key, cells)
  }

  lemma FitsInTile(pieces: seq<Piece>, key: Coord, cells: seq<Coord>)
    requires AllFit(pieces, key, cells)
    ensures PiecesInTile(pieces, key[|key| - 2], key[|key| - 1])
  {}

  predicate SpansOf(pieces: seq<Piece>, n: nat, spans: seq<(nat, nat, nat)>, rows: seq<nat>, columns: seq<nat>)
    requires n <= |pieces|
  {
    && |spans| == n
    && forall k :: 0 <= k < n ==>
         pieces[k].row in rows && pieces[k].column in columns && spans[k] == SpanOf(pieces[k], rows, columns)
  }

  /** Every write of a list of spans is one of its spans' writes. */
  lemma {:induction false} SpanForm(spans: seq<(nat, nat, nat)>, k: nat) returns (s: nat, j: nat)
    requires k < |SpansWrites(spans)|
    ensures s < |spans| && j < spans[s].2 && SpansWrites(spans)[k] == SpanWrites(spans[s])[j]
    decreases |spans|
  {
    var n := |spans| - 1;
    var front := SpansWrites(spans[..n]);
    if k < |front| {
      s, j := SpanForm(spans[..n], k);
    } else {
      s, j := n, k - |front|;
    }
  }

  lemma {:induction false} SpanPlace(spans: seq<(nat, nat, nat)>, s: nat, j: nat) returns (k: nat)
    requires s < |spans| && j < spans[s].2
    ensures k < |SpansWrites(spans)| && SpansWrites(spans)[k] == SpanWrites(spans[s])[j]
    decreases |spans|
  {
    var n := |spans| - 1;
    if s < n {
      k := SpanPlace(spans[..n], s, j);
    } else {
      k := |SpansWrites(spans[..n])| + j;
    }
  }

  lemma {:induction false} SpansCount(pieces: seq<Piece>, spans: seq<(nat, nat, nat)>, rows: seq<nat>,
                                      columns: seq<nat>)
    requires SpansOf(pieces, |pieces|, spans, rows, columns)
    ensures |SpansWrites(spans)| == Weight(pieces, COUNT)
    decreases |pieces|
  {
    hide SpanOf;
    if pieces != [] {
      var n := |pieces| - 1;
      SpansCount(pieces[..n], spans[..n], rows, columns);
      SpanLength(pieces[n], rows, columns);
    }
  }

  lemma SpanLength(piece: Piece, rows: seq<nat>, columns: seq<nat>)
    requires piece.row in rows && piece.column in columns
    ensures SpanOf(piece, rows, columns).0 == piece.position && SpanOf(piece, rows, columns).2 == piece.count
  {}

  /** The plan of one tile. */
  method TilePlan(key: Coord, pieces: seq<Piece>, ghost cells: seq<Coord>) returns (plan: Plan)
    requires pieces != [] && AllFit(pieces, key, cells)
    ensures Serves(plan, cells)
    ensures |Writes(plan.scatter, |plan.columns|)| == Weight(pieces, COUNT)
    ensures forall k :: 0 <= k < |pieces| ==> PieceWritten(plan, pieces[k])
  {
    hide Serves, PieceFits, Selects, Weight, SpansOf, PieceWritten, SpanOf, IndexOf;
    FitsInTile(pieces, key, cells);
    var rows, columns := TileAxes(pieces, key[|key| - 2], key[|key| - 1]);
    var spans: seq<(nat, nat, nat)> := [];
    NoSpans(pieces, rows, columns);
    for k := 0 to |pieces|
      invariant SpansOf(pieces, k, spans, rows, columns)
    {
      PieceSelected(pieces, rows, columns, k);
      var span := SpanOf(pieces[k], rows, columns);
      SpansNext(pieces, k, spans, rows, columns);
      spans := spans + [span];
    }
    plan := Plan(key[..|key| - 2], rows, columns, Spans(spans));
    AxesBounded(pieces, rows, columns, key[|key| - 2], key[|key| - 1]);
    TileServes(plan, pieces, key, cells);
    SpansCount(pieces, spans, rows, columns);
    forall k | 0 <= k < |pieces| ensures PieceWritten(plan, pieces[k]) {
      TileWrites(plan, pieces, k);
    }
  }

  lemma NoSpans(pieces: seq<Piece>, rows: seq<nat>, columns: seq<nat>)
    ensures SpansOf(pieces, 0, [], rows, columns)
  {}

  lemma SpansNext(pieces: seq<Piece>, k: nat, spans: seq<(nat, nat, nat)>, rows: seq<nat>, columns: seq<nat>)
    requires k < |pieces| && SpansOf(pieces, k, spans, rows, columns)
    requires pieces[k].row in rows && pieces[k].column in columns
    ensures SpansOf(pieces, k + 1, spans + [SpanOf(pieces[k], rows, columns)], rows, columns)
  {
    hide SpanOf;
  }

  predicate PieceWritten(plan: Plan, piece: Piece) {
    forall p :: piece.position <= p < piece.position + piece.count ==> WritesTo(plan, p)
  }

  lemma TileServes(plan: Plan, pieces: seq<Piece>, key: Coord, cells: seq<Coord>)
    requires AllFit(pieces, key, cells) && Selects(pieces, plan.rows, plan.columns)
    requires 0 < |plan.rows| <= TILE_SIDE && 0 < |plan.columns| <= TILE_SIDE
    requires plan.scatter.Spans? && SpansOf(pieces, |pieces|, plan.scatter.spans, plan.rows, plan.columns)
    requires plan.prefix == key[..|key| - 2]
    ensures Serves(plan, cells)
  {
    hide PieceFits, Selects, WriteServes, SpanOf, SpansWrites;
    SelectsAscending(pieces, plan);
    TileRequested(plan, pieces, key, cells);
    var writes := Writes(plan.scatter, |plan.columns|);
    forall k | 0 <= k < |writes| ensures WriteServes(plan, writes[k], cells) {
      var s, j := SpanForm(plan.scatter.spans, k);
      SpanLength(pieces[s], plan.rows, plan.columns);
      SpanServes(plan, pieces, s, key, cells, j);
    }
  }

  lemma TileRequested(plan: Plan, pieces: seq<Piece>, key: Coord, cells: seq<Coord>)
    requires AllFit(pieces, key, cells) && Selects(pieces, plan.rows, plan.columns) && plan.prefix == key[..|key| - 2]
    ensures Requested(plan, cells)
  {
    hide RowRequested, ColumnRequested;
    forall i | 0 <= i < |plan.rows| ensures RowRequested(plan.prefix, plan.rows[i], cells) {
      assert plan.rows[i] in plan.rows;
      var k :| 0 <= k < |pieces| && pieces[k].row == plan.rows[i];
      assert PieceCell(pieces[k], key, cells, 0);
      CellRequests(plan.prefix, pieces[k].row, pieces[k].column + 0, cells, pieces[k].position + 0);
    }
    forall j | 0 <= j < |plan.columns| ensures ColumnRequested(plan.prefix, plan.columns[j], cells) {
      assert plan.columns[j] in plan.columns;
      var k :| 0 <= k < |pieces| && ColumnOf(pieces[k], plan.columns[j]);
      var d := plan.columns[j] - pieces[k].column;
      assert PieceCell(pieces[k], key, cells, d);
      CellRequests(plan.prefix, pieces[k].row, pieces[k].column + d, cells, pieces[k].position + d);
    }
  }

  lemma TileWrites(plan: Plan, pieces: seq<Piece>, k: nat)
    requires k < |pieces| && plan.scatter.Spans?
    requires SpansOf(pieces, |pieces|, plan.scatter.spans, plan.rows, plan.columns)
    ensures PieceWritten(plan, pieces[k])
  {
    hide SpansWrites, SpanOf;
    var piece := pieces[k];
    SpanLength(piece, plan.rows, plan.columns);
    forall p | piece.position <= p < piece.position + piece.count ensures WritesTo(plan, p) {
      var i := SpanPlace(plan.scatter.spans, k, p - piece.position);
      assert Writes(plan.scatter, |plan.columns|)[i].0 == p;
    }
  }

  // ---------------------------------------------------------------------
  // Whole spans
  // ---------------------------------------------------------------------

  /** The pieces of the first `n` tiles are all written. */
  predicate TilesWritten(plans: seq<Plan>, groups: PieceGroups, n: nat)
    requires n <= |groups| && n <= |plans|
  {
    forall t, k :: 0 <= t < n && 0 <= k < |groups[t].1| ==> PieceWritten(plans[t], groups[t].1[k])
  }

  lemma GroupFits(groups: PieceGroups, cells: seq<Coord>, t: nat)
    requires Collected(groups, cells, |cells|) && t < |groups|
    ensures groups[t].1 != [] && forall k :: 0 <= k < |groups[t].1| ==> PieceFits(groups[t].1[k], groups[t].0, cells)
    ensures AllFit(groups[t].1, groups[t].0, cells)
  {
    hide PieceFits;
    forall k | 0 <= k < |groups[t].1| ensures PieceFits(groups[t].1[k], groups[t].0, cells) {
      assert Buckets.Holds(groups, groups[t].0, groups[t].1[k]);
    }
    FitsRank(groups[t].1[0], groups[t].0, cells);
  }

  lemma FitsRank(piece: Piece, key: Coord, cells: seq<Coord>)
    requires PieceFits(piece, key, cells)
    ensures |key| >= 2
  {}

  /** `linear_plans`: a flat span needs only its row segments. */
  method PlanSpan(start: nat, len: nat, shape: seq<nat>) returns (plans: seq<Plan>)
    requires |shape| >= 2 && BatchRequest(Linear(start), len).Valid(shape)
    ensures ServesExactly(plans, BatchRequest(Linear(start), len).Coords(shape))
  {
    hide Size, Decode, Collected, AllServe, Serves, AllFit, PieceWritten, Weight;
    ghost var cells := BatchRequest(Linear(start), len).Coords(shape);
    var groups := CutSpan(start, len, shape, cells);
    plans := [];
    NoTilePlans(groups, cells);
    for t := 0 to |groups|
      invariant |plans| == t && AllServe(plans, cells) && TilesWritten(plans, groups, t)
      invariant WriteCount(plans) == TotalWeight(groups[..t], COUNT)
    {
      GroupFits(groups, cells, t);
      var plan := TilePlan(groups[t].0, groups[t].1, cells);
      TilePlansNext(plans, plan, groups, t, cells);
      plans := plans + [plan];
    }
    assert groups[..|groups|] == groups;
    SpanServed(plans, groups, cells);
  }

  lemma NoTilePlans(groups: PieceGroups, cells: seq<Coord>)
    ensures AllServe([], cells) && TilesWritten([], groups, 0) && WriteCount([]) == TotalWeight(groups[..0], COUNT)
  {}

  lemma TilePlansNext(plans: seq<Plan>, plan: Plan, groups: PieceGroups, t: nat, cells: seq<Coord>)
    requires t < |groups| && |plans| == t && AllServe(plans, cells) && TilesWritten(plans, groups, t)
    requires WriteCount(plans) == TotalWeight(groups[..t], COUNT) && Serves(plan, cells)
    requires |Writes(plan.scatter, |plan.columns|)| == Weight(groups[t].1, COUNT)
    requires forall k :: 0 <= k < |groups[t].1| ==> PieceWritten(plan, groups[t].1[k])
    ensures AllServe(plans + [plan], cells) && TilesWritten(plans + [plan], groups, t + 1)
    ensures WriteCount(plans + [plan]) == TotalWeight(groups[..t + 1], COUNT)
  {
    hide Serves, PieceWritten, Writes;
    assert (plans + [plan])[..t] == plans && groups[..t + 1][..t] == groups[..t];
  }

  lemma SpanServed(plans: seq<Plan>, groups: PieceGroups, cells: seq<Coord>)
    requires |plans| == |groups| && Collected(groups, cells, |cells|) && AllServe(plans, cells)
    requires TilesWritten(plans, groups, |groups|) && WriteCount(plans) == TotalWeight(groups, COUNT)
    ensures ServesExactly(plans, cells)
  {
    hide Serves, AllServe, PieceFits, WritesTo;
    forall p: nat | p < |cells| ensures Written(plans, p) {
      assert HasPiece(groups, p);
      var key: Coord, piece: Piece :| Buckets.Holds(groups, key, piece) && piece.position <= p < piece.position + piece.count;
      var t :| 0 <= t < |groups| && groups[t].0 == key && piece in groups[t].1;
      var k :| 0 <= k < |groups[t].1| && groups[t].1[k] == piece;
      assert PieceWritten(plans[t], groups[t].1[k]);
      assert WritesTo(plans[t], p);
    }
  }
}
