/** Sparse storage: a table of the nonzero logical blocks refines a total block store. */
module SparseStore {
  import opened Radix
  import opened Wrappers
  import opened Request
  import opened Mapping
  import opened Geometry
  import opened Runs
  import opened StorageRead
  import opened Blocks
  import opened BlockData
  import opened KeyScans

  /** Keys per page of an occupancy scan. */
  const PAGE_ENTRIES: nat := 4096

  predicate HasNonzero<T(==)>(values: seq<T>, zero: T) {
    exists o :: 0 <= o < |values| && values[o] != zero
  }

  /** A stored row is a full-length block with zero padding that is not all zero. */
  ghost predicate RowValid<T>(g: Storage, id: nat, row: seq<T>, zero: T)
    requires g.Valid()
  {
    id < g.BlockCount() && |row| == g.BlockLen() && PaddingZero(g, id, row, zero) && HasNonzero(row, zero)
  }

  function ZeroBlock<T>(length: nat, zero: T): (b: seq<T>)
    ensures |b| == length && forall o :: 0 <= o < length ==> b[o] == zero
  {
    seq(length, _ => zero)
  }

  /** What the table says about one block: absence means zeros. */
  function BlockIn<T>(table: map<nat, seq<T>>, id: nat, length: nat, zero: T): seq<T> {
    if id in table then table[id] else ZeroBlock(length, zero)
  }

  /** The total store a table stands for. */
  function StoreOf<T>(table: map<nat, seq<T>>, g: Storage, zero: T): (s: Store<T>)
    ensures forall id: nat :: id in s <==> id < g.BlockCount()
    ensures forall id :: id in s ==> s[id] == BlockIn(table, id, g.BlockLen(), zero)
  {
    map id: nat | 0 <= id < g.BlockCount() :: BlockIn(table, id, g.BlockLen(), zero)
  }

  ghost predicate TableValid<T>(table: map<nat, seq<T>>, g: Storage, zero: T) {
    g.Valid() && forall id :: id in table ==> RowValid(g, id, table[id], zero)
  }

  /** The contents determine the table: a block is stored exactly when it is not all zero. */
  lemma OccupiedIffNonzero<T>(table: map<nat, seq<T>>, g: Storage, zero: T, id: nat)
    requires TableValid(table, g, zero)
    ensures id in table <==> id < g.BlockCount() && HasNonzero(StoreOf(table, g, zero)[id], zero)
  {
    if id in table {
      assert RowValid(g, id, table[id], zero);
    }
  }

  lemma Canonical<T>(a: map<nat, seq<T>>, b: map<nat, seq<T>>, g: Storage, zero: T)
    requires TableValid(a, g, zero) && TableValid(b, g, zero) && StoreOf(a, g, zero) == StoreOf(b, g, zero)
    ensures a == b
  {
    hide RowValid, HasNonzero;
    forall id: nat ensures id in a <==> id in b {
      OccupiedIffNonzero(a, g, zero, id);
      OccupiedIffNonzero(b, g, zero, id);
    }
    forall id: nat | id in a ensures a[id] == b[id] {
      OccupiedIffNonzero(a, g, zero, id);
      assert StoreOf(a, g, zero)[id] == a[id] && StoreOf(b, g, zero)[id] == b[id];
    }
  }

  /** Replacing one block of the table replaces that block of the store. */
  lemma StoreUpdate<T>(table: map<nat, seq<T>>, g: Storage, zero: T, id: nat, values: seq<T>)
    requires TableValid(table, g, zero) && id < g.BlockCount() && |values| == g.BlockLen() && PaddingZero(g, id, values, zero)
    ensures var next := if HasNonzero(values, zero) then table[id := values] else table - {id};
            && TableValid(next, g, zero)
            && StoreOf(next, g, zero) == StoreOf(table, g, zero)[id := values]
  {
    var next := if HasNonzero(values, zero) then table[id := values] else table - {id};
    forall k | k in next ensures RowValid(g, k, next[k], zero) {
      if k != id {
        assert next[k] == table[k];
      }
    }
    var s, t := StoreOf(next, g, zero), StoreOf(table, g, zero)[id := values];
    forall k: nat | k < g.BlockCount() ensures s[k] == t[k] {
      if k == id && !HasNonzero(values, zero) {
        assert forall o :: 0 <= o < |values| ==> values[o] == zero;
      }
    }
    assert s.Keys == t.Keys;
  }

  class SparseStorage<T(==)> {
    const g: Storage
    const zero: T
    var table: map<nat, seq<T>>

    ghost predicate Valid()
      reads this
    {
      TableValid(table, g, zero)
    }

    ghost function Contents(): Store<T>
      reads this
    {
      StoreOf(table, g, zero)
    }

    /** A new store holds zeros everywhere and no rows. */
    constructor (g: Storage, zero: T)
      requires g.Valid()
      ensures Valid() && this.g == g && this.zero == zero && table == map[]
    {
      this.g := g;
      this.zero := zero;
      table := map[];
    }

    /** Open the rows of an existing table. */
    constructor Open(g: Storage, zero: T, table: map<nat, seq<T>>)
      requires TableValid(table, g, zero)
      ensures Valid() && this.g == g && this.zero == zero && this.table == table
    {
      this.g := g;
      this.zero := zero;
      this.table := table;
    }

    /** Padding must be zero; the result says whether the block is worth storing. */
    method ValidatePayload(id: nat, values: seq<T>) returns (r: Result<bool>)
      requires g.Valid()
      ensures r.Ok? <==> id < g.BlockCount() && |values| == g.BlockLen() && PaddingZero(g, id, values, zero)
      ensures r.Ok? ==> r.value == HasNonzero(values, zero)
    {
      var checked := ValidateBlock(g, id, values, zero);
      if checked.Fail? {
        return Err(checked.error);
      }
      return Ok(exists o :: 0 <= o < |values| && values[o] != zero);
    }

    /** A row is revalidated on every read; on a valid table it always passes. */
    method RowPayload(id: nat) returns (r: Result<seq<T>>)
      requires Valid() && id in table
      ensures r == Ok(table[id])
    {
      assert RowValid(g, id, table[id], zero);
      var nonzero := ValidatePayload(id, table[id]);
      if nonzero.Err? {
        return Err(InvalidLayout);
      }
      if !nonzero.value {
        return Err(InvalidLayout);
      }
      return Ok(table[id]);
    }

    /** `read`: the stored row, or zeros. */
    method Read(id: nat) returns (r: Result<seq<T>>)
      requires Valid()
      ensures r.Ok? <==> id < g.BlockCount()
      ensures r.Ok? ==> r.value == Contents()[id]
      ensures r.Err? ==> r.error == InvalidCoord
    {
      if id >= g.BlockCount() {
        return Err(InvalidCoord);
      }
      if id in table {
        r := RowPayload(id);
      } else {
        r := Ok(ZeroBlock(g.BlockLen(), zero));
      }
    }

    /** Store a validated block, or drop its row when it became all zero. */
    method Put(id: nat, values: seq<T>, nonzero: bool)
      requires Valid() && id < g.BlockCount() && |values| == g.BlockLen() && PaddingZero(g, id, values, zero)
      requires nonzero == HasNonzero(values, zero)
      modifies this`table
      ensures Valid() && Contents() == old(Contents())[id := values]
      ensures id in table <==> nonzero
    {
      StoreUpdate(table, g, zero, id, values);
      table := if nonzero then table[id := values] else table - {id};
    }

    /** `update_block`: read, modify and rewrite one row. */
    method UpdateBlock(id: nat, updates: seq<(nat, T)>) returns (r: Result<bool>)
      requires Valid() && id < g.BlockCount()
      modifies this`table
      ensures Valid()
      ensures r.Ok? <==> InsideBlock(updates, g.BlockLen())
                         && PaddingZero(g, id, Apply(old(Contents())[id], updates), zero)
      ensures r.Err? ==> table == old(table)
      ensures r.Ok? ==> Contents() == old(Contents())[id := Apply(old(Contents())[id], updates)]
      ensures r.Ok? ==> (r.value <==> id !in old(table) && id in table)
    {
      var row := Read(id);
      if row.Err? {
        return Err(InvalidCoord);
      }
      ghost var was := row.value;
      RowLength(table, g, zero, id);
      var block := new T[|row.value|](i requires 0 <= i < |row.value| => row.value[i]);
      assert block[..] == was;
      var applied := ApplyBlockUpdates(block, g.BlockLen(), updates);
      if applied.Fail? {
        return Err(applied.error);
      }
      var values := block[..];
      var nonzero := ValidatePayload(id, values);
      if nonzero.Err? {
        return Err(nonzero.error);
      }
      var inserted := id !in table && nonzero.value;
      Put(id, values, nonzero.value);
      return Ok(inserted);
    }

    method Update(id: nat, updates: seq<(nat, T)>) returns (r: Outcome)
      requires Valid()
      modifies this`table
      ensures Valid()
      ensures r.Pass? <==> id < g.BlockCount() && InsideBlock(updates, g.BlockLen())
                           && PaddingZero(g, id, Apply(old(Contents())[id], updates), zero)
      ensures r.Fail? ==> table == old(table)
      ensures r.Pass? ==> Contents() == old(Contents())[id := Apply(old(Contents())[id], updates)]
    {
      if id >= g.BlockCount() {
        return Fail(InvalidCoord);
      }
      var inserted := UpdateBlock(id, updates);
      if inserted.Err? {
        return Fail(inserted.error);
      }
      return Pass;
    }

    /** `replace`: one complete block, padding checked. */
    method Replace(id: nat, values: seq<T>) returns (r: Outcome)
      requires Valid()
      modifies this`table
      ensures Valid()
      ensures r.Pass? <==> id < g.BlockCount() && |values| == g.BlockLen() && PaddingZero(g, id, values, zero)
      ensures r.Fail? ==> table == old(table)
      ensures r.Pass? ==> Contents() == old(Contents())[id := values]
    {
      if id >= g.BlockCount() {
        return Fail(InvalidCoord);
      }
      if |values| != g.BlockLen() {
        return Fail(InvalidLayout);
      }
      var nonzero := ValidatePayload(id, values);
      if nonzero.Err? {
        return Fail(nonzero.error);
      }
      if id in table {
        var previous := RowPayload(id);
        if previous.Err? {
          return Fail(InvalidLayout);
        }
      }
      Put(id, values, nonzero.value);
      return Pass;
    }

    /** One stored row: scatter its runs, completing every output up to that block. */
    method ReadRow(id: nat, runs: seq<Run>, output: array<T>, ghost want: seq<Position>,
                   ghost upto: nat) returns (r: Outcome)
      requires Valid() && id in table && output.Length == |want| && HoldsAll(Contents(), want)
      requires Expand(runs) == Picks(want, id) && forall i :: 0 <= i < |runs| ==> runs[i].len > 0
      requires upto <= id && Completed(output[..], want, Contents(), zero, upto) && Quiet(want, Contents(), zero, upto, id)
      modifies output
      ensures r.Pass? && Completed(output[..], want, Contents(), zero, id + 1)
    {
      hide Expand, Picks, TableValid, StoreOf, Completed, Quiet;
      var block := RowPayload(id);
      if block.Err? {
        return Fail(InvalidLayout);
      }
      ghost var before := output[..];
      TableBlock(table, g, zero, id);
      HoldsCovers(Contents(), want, id);
      var scattered := ScatterRuns(runs, block.value, output, want, id);
      CompletedNext(before, output[..], want, Contents(), zero, upto, id);
      return Pass;
    }

    /** A range scan of consecutive requested ids: only stored rows are visited. */
    method ReadRange(first: nat, last: nat, groups: Groups, output: array<T>,
                     ghost want: seq<Position>) returns (r: Outcome)
      requires Valid() && output.Length == |want| && HoldsAll(Contents(), want) && Agrees(groups, want)
      requires first <= last && forall id :: first <= id <= last ==> id in groups
      requires Completed(output[..], want, Contents(), zero, first)
      modifies output
      ensures r.Pass? && Completed(output[..], want, Contents(), zero, last + 1)
    {
      hide Expand, Picks, TableValid, StoreOf, Agrees, Completed, Quiet, HoldsAll;
      var rows := Scan(table.Keys, first, last + 1);
      ScanAscends(table.Keys, first, last + 1);
      var upto := first;
      var k := 0;
      assert forall j :: 0 <= j < |rows| ==> rows[j] in rows;
      while k < |rows|
        invariant 0 <= k <= |rows| && first <= upto <= last + 1
        invariant forall j :: 0 <= j < k ==> rows[j] < upto
        invariant forall j :: k <= j < |rows| ==> upto <= rows[j]
        invariant Completed(output[..], want, Contents(), zero, upto)
      {
        var id := rows[k];
        assert id in rows;
        QuietGap(table, g, zero, want, rows, k, first, upto, last + 1);
        AgreesAbout(groups, want, id);
        var step := ReadRow(id, groups[id], output, want, upto);
        upto := id + 1;
        k := k + 1;
      }
      QuietGap(table, g, zero, want, rows, k, first, upto, last + 1);
      CompletedSkip(output[..], want, Contents(), zero, upto, last + 1);
      return Pass;
    }

    /** `read_groups`: consecutive block ids share one range scan; single ids are looked up. */
    method ReadGroups(groups: Groups, output: array<T>, ghost want: seq<Position>) returns (r: Outcome)
      requires Valid() && output.Length == |want| && HoldsAll(Contents(), want) && Agrees(groups, want)
      requires forall id :: id in groups ==> id < g.BlockCount()
      requires forall p :: 0 <= p < output.Length ==> output[p] == zero
      modifies output
      ensures r.Pass? && output[..] == ReadEach(Contents(), want)
    {
      hide Expand, Picks, TableValid, StoreOf, Agrees, Completed, Quiet, HoldsAll;
      var ids := Scan(groups.Keys, 0, g.BlockCount());
      ScanAscends(groups.Keys, 0, g.BlockCount());
      CompletedStart(output[..], want, Contents(), zero);
      var i := 0;
      while i < |ids|
        invariant 0 <= i <= |ids|
        invariant Completed(output[..], want, Contents(), zero, if i == 0 then 0 else ids[i - 1] + 1)
      {
        ghost var upto := if i == 0 then 0 else ids[i - 1] + 1;
        var first := ids[i];
        QuietUnrequested(groups, want, Contents(), zero, ids, i, upto, first);
        CompletedSkip(output[..], want, Contents(), zero, upto, first);
        var last := first;
        i := i + 1;
        while i < |ids| && last + 1 == ids[i]
          invariant 0 < i <= |ids| && last == ids[i - 1] && first <= last
          invariant forall id :: first <= id <= last ==> id in ids
        {
          last := ids[i];
          i := i + 1;
        }
        if first == last && first !in table {
          QuietAbsent(table, g, zero, want, first, first + 1);
          CompletedSkip(output[..], want, Contents(), zero, first, first + 1);
          continue;
        }
        if first == last {
          QuietAbsent(table, g, zero, want, first, first);
          AgreesAbout(groups, want, first);
          var step := ReadRow(first, groups[first], output, want, first);
        } else {
          var step := ReadRange(first, last, groups, output, want);
        }
      }
      assert i > 0 ==> ids[i - 1] in ids;
      QuietUnrequested(groups, want, Contents(), zero, ids, i, if i == 0 then 0 else ids[i - 1] + 1, g.BlockCount());
      CompletedSkip(output[..], want, Contents(), zero, if i == 0 then 0 else ids[i - 1] + 1, g.BlockCount());
      CompletedAll(output[..], want, table, g, zero);
      return Pass;
    }

    /** `read_batch`: a planned read returns, in request order, one element per coordinate. */
    method ReadBatch(mapping: Option<CoordinateMap>, request: BatchRequest) returns (r: Result<seq<T>>)
      requires Valid()
      requires mapping.Some? ==> mapping.value.Valid() && Positive(mapping.value.shape)
      ensures r.Ok? ==> request.Valid(ViewShape(g, mapping)) && InBase(Offsets(g, mapping, request), Size(g.shape))
      ensures r.Ok? ==> HoldsAll(Contents(), Located(g, Offsets(g, mapping, request)))
      ensures r.Ok? ==> r.value == ReadEach(Contents(), Located(g, Offsets(g, mapping, request)))
      ensures request.Valid(ViewShape(g, mapping)) && GoodFor(g, mapping) ==> (r.Ok? <==> Plannable(g, mapping, request))
    {
      hide Agrees, Located, Plannable, StoreOf, HoldsAll, TableValid, Storage.At;
      assert g.Valid() by { ValidTable(table, g, zero); }
      var groups := Plan(g, mapping, request);
      if groups.Err? {
        return Err(groups.error);
      }
      ghost var offsets := Offsets(g, mapping, request);
      PlannedBlocks(g, groups.value, offsets);
      LocatedHolds(table, g, zero, offsets);
      var z := zero;
      var output := new T[request.len](_ => z);
      var done := ReadGroups(groups.value, output, Located(g, offsets));
      return Ok(output[..]);
    }

    /** `occupied_page`: the first page of occupied ids in a range, ascending. */
    method OccupiedPage(first: nat, end: nat) returns (r: Result<seq<nat>>)
      requires Valid()
      ensures r.Ok? <==> first <= end <= g.BlockCount()
      ensures r.Ok? ==> r.value == Page(Scan(table.Keys, first, end))
    {
      if first > end || end > g.BlockCount() {
        return Err(InvalidCoord);
      }
      var keys := [];
      if first == end {
        return Ok(keys);
      }
      var rows := Scan(table.Keys, first, end);
      ScanAscends(table.Keys, first, end);
      var i := 0;
      while i < |rows|
        invariant 0 <= i <= |rows| && i <= PAGE_ENTRIES && keys == rows[..i]
      {
        assert rows[i] in rows;
        if !(first <= rows[i] < end) || (keys != [] && keys[|keys| - 1] >= rows[i]) {
          return Err(InvalidLayout);
        }
        // One extra key is inspected so that a page boundary cannot hide a duplicate.
        if |keys| == PAGE_ENTRIES {
          break;
        }
        keys := keys + [rows[i]];
        i := i + 1;
      }
      return Ok(keys);
    }
  }

  lemma ValidTable<T>(table: map<nat, seq<T>>, g: Storage, zero: T)
    requires TableValid(table, g, zero)
    ensures g.Valid()
  {}

  lemma TableBlock<T>(table: map<nat, seq<T>>, g: Storage, zero: T, id: nat)
    requires TableValid(table, g, zero) && id in table
    ensures g.Valid() && id in StoreOf(table, g, zero) && StoreOf(table, g, zero)[id] == table[id]
  {
    assert RowValid(g, id, table[id], zero);
  }

  lemma HoldsCovers<T>(store: Store<T>, want: seq<Position>, b: nat)
    requires HoldsAll(store, want) && b in store
    ensures BlockCovers(want, b, |store[b]|)
  {
    forall p | 0 <= p < |want| && want[p].block == b ensures want[p].offset < |store[b]| {
      assert Holds(store, want[p]);
    }
  }

  lemma LocatedHolds<T>(table: map<nat, seq<T>>, g: Storage, zero: T, offsets: seq<int>)
    requires TableValid(table, g, zero) && InBase(offsets, Size(g.shape))
    ensures HoldsAll(StoreOf(table, g, zero), Located(g, offsets))
  {
    hide Storage.At, BlockIn;
    var want := Located(g, offsets);
    forall p | 0 <= p < |offsets| ensures Holds(StoreOf(table, g, zero), want[p]) {
      FlatOfDecodeInside(offsets[p], g.shape);
      AtInside(g, Decode(offsets[p], g.shape));
      RowLength(table, g, zero, want[p].block);
    }
  }

  // ---------------------------------------------------------------------
  // Outputs completed block by block
  // ---------------------------------------------------------------------

  /** Outputs located in blocks below `upto` hold their value; the others are still zero. */
  ghost predicate Completed<T>(output: seq<T>, want: seq<Position>, store: Store<T>, zero: T, upto: nat)
    requires HoldsAll(store, want)
  {
    && |output| == |want|
    && forall p :: 0 <= p < |want| ==>
         output[p] == if want[p].block < upto then ReadOne(store, want[p]) else zero
  }

  /** Nothing requested from the blocks `lo..hi` is nonzero. */
  ghost predicate Quiet<T>(want: seq<Position>, store: Store<T>, zero: T, lo: nat, hi: nat)
    requires HoldsAll(store, want)
  {
    forall p :: 0 <= p < |want| && lo <= want[p].block < hi ==> ReadOne(store, want[p]) == zero
  }

  lemma CompletedStart<T>(output: seq<T>, want: seq<Position>, store: Store<T>, zero: T)
    requires HoldsAll(store, want) && |output| == |want|
    requires forall p :: 0 <= p < |output| ==> output[p] == zero
    ensures Completed(output, want, store, zero, 0)
  {}

  lemma CompletedSkip<T>(output: seq<T>, want: seq<Position>, store: Store<T>, zero: T, lo: nat, hi: nat)
    requires HoldsAll(store, want) && Completed(output, want, store, zero, lo) && Quiet(want, store, zero, lo, hi)
    requires lo <= hi
    ensures Completed(output, want, store, zero, hi)
  {}

  lemma CompletedNext<T>(before: seq<T>, after: seq<T>, want: seq<Position>, store: Store<T>, zero: T, upto: nat,
                         id: nat)
    requires HoldsAll(store, want) && id in store && upto <= id
    requires Completed(before, want, store, zero, upto) && Quiet(want, store, zero, upto, id)
    requires Filled(after, before, want, id, store[id])
    ensures Completed(after, want, store, zero, id + 1)
  {
    CompletedSkip(before, want, store, zero, upto, id);
  }

  lemma CompletedAll<T>(output: seq<T>, want: seq<Position>, table: map<nat, seq<T>>, g: Storage, zero: T)
    requires HoldsAll(StoreOf(table, g, zero), want)
    requires Completed(output, want, StoreOf(table, g, zero), zero, g.BlockCount())
    ensures output == ReadEach(StoreOf(table, g, zero), want)
  {
    forall p | 0 <= p < |want| ensures want[p].block < g.BlockCount() {
      assert Holds(StoreOf(table, g, zero), want[p]);
    }
  }

  lemma QuietAbsent<T>(table: map<nat, seq<T>>, g: Storage, zero: T, want: seq<Position>, lo: nat, hi: nat)
    requires HoldsAll(StoreOf(table, g, zero), want)
    requires forall k :: lo <= k < hi ==> k !in table
    ensures Quiet(want, StoreOf(table, g, zero), zero, lo, hi)
  {
    forall p | 0 <= p < |want| && lo <= want[p].block < hi
      ensures ReadOne(StoreOf(table, g, zero), want[p]) == zero
    {
      assert Holds(StoreOf(table, g, zero), want[p]);
    }
  }

  /** Between two rows of a scan there is no row. */
  lemma QuietGap<T>(table: map<nat, seq<T>>, g: Storage, zero: T, want: seq<Position>, rows: seq<nat>, k: nat,
                    first: nat, upto: nat, end: nat)
    requires HoldsAll(StoreOf(table, g, zero), want)
    requires rows == Scan(table.Keys, first, end) && k <= |rows| && first <= upto <= end
    requires forall j :: 0 <= j < k ==> rows[j] < upto
    requires forall j :: k <= j < |rows| ==> upto <= rows[j]
    ensures Quiet(want, StoreOf(table, g, zero), zero, upto, if k < |rows| then rows[k] else end)
  {
    ScanAscends(table.Keys, first, end);
    var hi := if k < |rows| then rows[k] else end;
    assert k < |rows| ==> rows[k] in rows;
    forall x | x in table ensures !(upto <= x < hi) {
      assert first <= x < end ==> x in rows;
    }
    QuietAbsent(table, g, zero, want, upto, hi);
  }

  /** Blocks between two requested ids are not requested at all. */
  lemma QuietUnrequested<T>(groups: Groups, want: seq<Position>, store: Store<T>, zero: T, ids: seq<nat>, i: nat,
                            lo: nat, hi: nat)
    requires HoldsAll(store, want) && Agrees(groups, want)
    requires Ascending(ids) && i <= |ids| && forall k :: k in groups ==> k in ids
    requires lo == if i == 0 then 0 else ids[i - 1] + 1
    requires i < |ids| ==> hi == ids[i]
    ensures Quiet(want, store, zero, lo, hi)
  {
    hide Expand;
    forall p | 0 <= p < |want| ensures !(lo <= want[p].block < hi) {
      AgreesAbout(groups, want, want[p].block);
      PickOf(want, want[p].block, p);
      assert want[p].block in ids;
    }
  }

  function Page(rows: seq<nat>): seq<nat> {
    if |rows| <= PAGE_ENTRIES then rows else rows[..PAGE_ENTRIES]
  }

  lemma PageInside(keys: set<nat>, lo: nat, hi: nat)
    ensures forall i :: 0 <= i < |Page(Scan(keys, lo, hi))| ==> lo <= Page(Scan(keys, lo, hi))[i] < hi
  {
    ScanAscends(keys, lo, hi);
    forall i | 0 <= i < |Page(Scan(keys, lo, hi))| ensures lo <= Page(Scan(keys, lo, hi))[i] < hi {
      assert Scan(keys, lo, hi)[i] in Scan(keys, lo, hi);
    }
  }

  lemma RowLength<T>(table: map<nat, seq<T>>, g: Storage, zero: T, id: nat)
    requires TableValid(table, g, zero) && id < g.BlockCount()
    ensures |StoreOf(table, g, zero)[id]| == g.BlockLen()
    ensures PaddingZero(g, id, StoreOf(table, g, zero)[id], zero)
  {
    if id in table {
      assert RowValid(g, id, table[id], zero);
    }
  }

  /** The paged occupancy stream: every occupied id of a range once, ascending.
      The table is not changed between pages. */
  class OccupiedBlocks<T(==)> {
    const store: SparseStorage<T>
    var page: seq<nat>
    var next: nat
    const end: nat

    ghost predicate Valid()
      reads this, store
    {
      && store.Valid() && next <= end <= store.g.BlockCount()
      && forall i :: 0 <= i < |page| ==> page[i] < store.g.BlockCount()
    }

    /** What is still to be delivered. */
    ghost function Remaining(): seq<nat>
      reads this, store
    {
      page + Scan(store.table.Keys, next, end)
    }

    constructor (store: SparseStorage<T>, first: nat, end: nat)
      requires store.Valid() && first <= end <= store.g.BlockCount()
      ensures Valid() && this.store == store && this.end == end
      ensures Remaining() == Scan(store.table.Keys, first, end)
    {
      this.store := store;
      page := [];
      next := first;
      this.end := end;
    }

    method Next() returns (r: Option<nat>)
      requires Valid()
      modifies this
      ensures Valid()
      ensures old(Remaining()) == [] ==> r == None && Remaining() == []
      ensures old(Remaining()) != [] ==> r == Some(old(Remaining())[0]) && Remaining() == old(Remaining())[1..]
    {
      if page == [] {
        var fetched := store.OccupiedPage(next, end);
        var rows := fetched.value;
        if rows == [] {
          return None;
        }
        PageInside(store.table.Keys, next, end);
        ScanResume(store.table.Keys, next, end, |rows| - 1);
        page := rows;
        next := rows[|rows| - 1] + 1;
      }
      r := Some(page[0]);
      page := page[1..];
    }
  }
}
