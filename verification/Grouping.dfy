/** Visiting items block by block: what block-ordered enumeration keeps and loses. */
module Grouping {
  import opened KeyScans

  /** The items marked `id`, in order. */
  function OfMark<T>(items: seq<T>, marks: seq<nat>, id: nat): seq<T>
    requires |marks| == |items|
    decreases |items|
  {
    if items == [] then []
    else
      var n := |items| - 1;
      OfMark(items[..n], marks[..n], id) + if marks[n] == id then [items[n]] else []
  }

  /** The items whose mark is listed, in their original order. */
  function Marked<T>(items: seq<T>, marks: seq<nat>, ids: seq<nat>): seq<T>
    requires |marks| == |items|
    decreases |items|
  {
    if items == [] then []
    else
      var n := |items| - 1;
      Marked(items[..n], marks[..n], ids) + if marks[n] in ids then [items[n]] else []
  }

  /** The items of each listed mark in turn. */
  function Grouped<T>(items: seq<T>, marks: seq<nat>, ids: seq<nat>): seq<T>
    requires |marks| == |items|
    decreases |ids|
  {
    if ids == [] then []
    else Grouped(items, marks, ids[..|ids| - 1]) + OfMark(items, marks, ids[|ids| - 1])
  }

  lemma GroupedSnoc<T>(items: seq<T>, marks: seq<nat>, ids: seq<nat>, id: nat)
    requires |marks| == |items|
    ensures Grouped(items, marks, ids + [id]) == Grouped(items, marks, ids) + OfMark(items, marks, id)
  {
    hide OfMark;
    assert (ids + [id])[..|ids|] == ids;
  }

  lemma {:induction false} GroupedConcat<T>(items: seq<T>, marks: seq<nat>, a: seq<nat>, b: seq<nat>)
    requires |marks| == |items|
    ensures Grouped(items, marks, a + b) == Grouped(items, marks, a) + Grouped(items, marks, b)
    decreases |b|
  {
    hide OfMark, Grouped;
    if b == [] {
      assert a + b == a;
      GroupedEmpty(items, marks);
    } else {
      var front, id := b[..|b| - 1], b[|b| - 1];
      GroupedConcat(items, marks, a, front);
      GroupedSnoc(items, marks, a + front, id);
      GroupedSnoc(items, marks, front, id);
      assert a + b == (a + front) + [id] && b == front + [id];
    }
  }

  lemma GroupedEmpty<T>(items: seq<T>, marks: seq<nat>)
    requires |marks| == |items|
    ensures Grouped(items, marks, []) == []
  {}

  lemma GroupedFirst<T>(items: seq<T>, marks: seq<nat>, ids: seq<nat>)
    requires |marks| == |items| && ids != []
    ensures Grouped(items, marks, ids) == OfMark(items, marks, ids[0]) + Grouped(items, marks, ids[1..])
  {
    hide OfMark, Grouped;
    var id, rest := ids[0], ids[1..];
    assert ids == [id] + rest;
    GroupedConcat(items, marks, [id], rest);
    GroupedOne(items, marks, id);
  }

  lemma GroupedOne<T>(items: seq<T>, marks: seq<nat>, id: nat)
    requires |marks| == |items|
    ensures Grouped(items, marks, [id]) == OfMark(items, marks, id)
  {
    hide OfMark;
    assert [id][..0] == [];
    GroupedEmpty(items, marks);
  }

  lemma {:induction false} OfMarkNone<T>(items: seq<T>, marks: seq<nat>, id: nat)
    requires |marks| == |items| && id !in marks
    ensures OfMark(items, marks, id) == []
    decreases |items|
  {
    if items != [] {
      var n := |items| - 1;
      assert marks[n] in marks;
      assert forall m :: m in marks[..n] ==> m in marks;
      OfMarkNone(items[..n], marks[..n], id);
    }
  }

  /** Marks nobody carries contribute nothing. */
  lemma {:induction false} GroupedNone<T>(items: seq<T>, marks: seq<nat>, ids: seq<nat>)
    requires |marks| == |items| && forall id :: id in ids ==> id !in marks
    ensures Grouped(items, marks, ids) == []
    decreases |ids|
  {
    if ids != [] {
      assert ids[|ids| - 1] in ids;
      OfMarkNone(items, marks, ids[|ids| - 1]);
      assert forall id :: id in ids[..|ids| - 1] ==> id in ids;
      GroupedNone(items, marks, ids[..|ids| - 1]);
    }
  }

  /** Items of a listed mark are kept as often as they occur, the others dropped. */
  lemma {:induction false} MarkedCount<T>(items: seq<T>, marks: seq<nat>, ids: seq<nat>, x: T, mark: nat)
    requires |marks| == |items| && forall i :: 0 <= i < |items| && items[i] == x ==> marks[i] == mark
    ensures multiset(Marked(items, marks, ids))[x] == if mark in ids then multiset(items)[x] else 0
    decreases |items|
  {
    if items != [] {
      var n := |items| - 1;
      MarkedCount(items[..n], marks[..n], ids, x, mark);
      assert items == items[..n] + [items[n]];
    }
  }

  lemma {:induction false} MarkedNext<T>(items: seq<T>, marks: seq<nat>, ids: seq<nat>, id: nat)
    requires |marks| == |items| && id !in ids
    ensures multiset(Marked(items, marks, ids + [id])) == multiset(Marked(items, marks, ids)) + multiset(OfMark(items, marks, id))
    decreases |items|
  {
    if items != [] {
      var n := |items| - 1;
      MarkedNext(items[..n], marks[..n], ids, id);
      assert marks[n] in ids + [id] <==> marks[n] in ids || marks[n] == id;
    }
  }

  /** Block-ordered visiting delivers every item of the listed blocks exactly as often as the
      plain scan does. */
  lemma {:induction false} GroupedIsMarked<T>(items: seq<T>, marks: seq<nat>, ids: seq<nat>)
    requires |marks| == |items| && Ascending(ids)
    ensures multiset(Grouped(items, marks, ids)) == multiset(Marked(items, marks, ids))
    decreases |ids|
  {
    if ids == [] {
      MarkedEmpty(items, marks);
    } else {
      var front, id := ids[..|ids| - 1], ids[|ids| - 1];
      GroupedIsMarked(items, marks, front);
      MarkedNext(items, marks, front, id);
      assert front + [id] == ids;
    }
  }

  lemma {:induction false} MarkedEmpty<T>(items: seq<T>, marks: seq<nat>)
    requires |marks| == |items|
    ensures Marked(items, marks, []) == []
    decreases |items|
  {
    if items != [] {
      MarkedEmpty(items[..|items| - 1], marks[..|items| - 1]);
    }
  }

  predicate Nondecreasing(marks: seq<nat>) {
    forall i, j :: 0 <= i < j < |marks| ==> marks[i] <= marks[j]
  }

  lemma {:induction false} MarkedLast<T>(items: seq<T>, marks: seq<nat>, ids: seq<nat>, id: nat)
    requires |marks| == |items| && Nondecreasing(marks) && forall k :: k in ids ==> k < id
    ensures Marked(items, marks, ids + [id]) == Marked(items, marks, ids) + OfMark(items, marks, id)
    decreases |items|
  {
    if items != [] {
      var n := |items| - 1;
      MarkedLast(items[..n], marks[..n], ids, id);
      if marks[n] in ids {
        assert id !in marks[..n];
        OfMarkNone(items[..n], marks[..n], id);
      }
    }
  }

  /** When marks never decrease, visiting ascending blocks keeps the original order. */
  lemma {:induction false} GroupedInOrder<T>(items: seq<T>, marks: seq<nat>, ids: seq<nat>)
    requires |marks| == |items| && Nondecreasing(marks) && Ascending(ids)
    ensures Grouped(items, marks, ids) == Marked(items, marks, ids)
    decreases |ids|
  {
    if ids == [] {
      MarkedEmpty(items, marks);
    } else {
      var front, id := ids[..|ids| - 1], ids[|ids| - 1];
      GroupedInOrder(items, marks, front);
      MarkedLast(items, marks, front, id);
      assert front + [id] == ids;
    }
  }
}
