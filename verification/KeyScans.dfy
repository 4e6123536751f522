/** Ascending scans of a key range, the order in which every table here is read. */
module KeyScans {

  /** The keys in `lo..hi`, ascending. */
  function Scan(keys: set<nat>, lo: nat, hi: nat): (s: seq<nat>)
    decreases hi
  {
    if hi <= lo then [] else Scan(keys, lo, hi - 1) + if hi - 1 in keys then [hi - 1] else []
  }

  predicate Ascending(s: seq<nat>) {
    forall i, j :: 0 <= i < j < |s| ==> s[i] < s[j]
  }

  lemma {:induction false} ScanAscends(keys: set<nat>, lo: nat, hi: nat)
    ensures Ascending(Scan(keys, lo, hi))
    ensures forall k :: k in Scan(keys, lo, hi) <==> lo <= k < hi && k in keys
    decreases hi
  {
    if hi > lo {
      ScanAscends(keys, lo, hi - 1);
      var front := Scan(keys, lo, hi - 1);
      assert forall i :: 0 <= i < |front| ==> front[i] in front;
      var s := Scan(keys, lo, hi);
      forall k ensures k in s <==> lo <= k < hi && k in keys {
        assert k in s <==> k in front || (hi - 1 in keys && k == hi - 1);
      }
    }
  }

  lemma {:induction false} ScanSplit(keys: set<nat>, lo: nat, mid: nat, hi: nat)
    requires lo <= mid <= hi
    ensures Scan(keys, lo, hi) == Scan(keys, lo, mid) + Scan(keys, mid, hi)
    decreases hi
  {
    if hi > mid {
      ScanSplit(keys, lo, mid, hi - 1);
    }
  }

  lemma HasMember(t: seq<nat>)
    ensures t == [] || exists k :: k in t
  {
    if t != [] {
      assert t[0] in t;
    }
  }

  /** Two ascending lists with the same members are the same list. */
  lemma {:induction false} AscendingUnique(s: seq<nat>, t: seq<nat>)
    requires Ascending(s) && Ascending(t) && forall k :: k in s <==> k in t
    ensures s == t
    decreases |s|
  {
    if s == [] {
      HasMember(t);
    } else {
      assert s[|s| - 1] in t;
      var a, b := s[..|s| - 1], t[..|t| - 1];
      assert t[|t| - 1] in s;
      assert s[|s| - 1] == t[|t| - 1];
      forall k ensures k in a <==> k in b {
        assert k in a <==> k in s && k != s[|s| - 1];
        assert k in b <==> k in t && k != t[|t| - 1];
      }
      AscendingUnique(a, b);
    }
  }

  /** After the entry at index `i`, a scan resumes just past that key. */
  lemma ScanResume(keys: set<nat>, lo: nat, hi: nat, i: nat)
    requires i < |Scan(keys, lo, hi)|
    ensures lo <= Scan(keys, lo, hi)[i] < hi
    ensures Scan(keys, lo, hi)[..i + 1] == Scan(keys, lo, Scan(keys, lo, hi)[i] + 1)
    ensures Scan(keys, lo, hi)[i + 1..] == Scan(keys, Scan(keys, lo, hi)[i] + 1, hi)
  {
    hide Scan;
    var s := Scan(keys, lo, hi);
    var k := s[i];
    ScanAscends(keys, lo, hi);
    assert k in s;
    ScanSplit(keys, lo, k + 1, hi);
    var a, b := Scan(keys, lo, k + 1), Scan(keys, k + 1, hi);
    ScanAscends(keys, lo, k + 1);
    ScanAscends(keys, k + 1, hi);
    forall j ensures j in s[..i + 1] <==> j in a {
      assert j in a ==> j in s && j <= k;
    }
    AscendingUnique(s[..i + 1], a);
    assert s == s[..i + 1] + s[i + 1..];
  }

  function Members(s: seq<nat>): set<nat> {
    set x | x in s
  }

  function MaxOf(values: seq<nat>): (m: nat)
    ensures forall i :: 0 <= i < |values| ==> values[i] <= m
  {
    if values == [] then 0
    else
      var m, last := MaxOf(values[..|values| - 1]), values[|values| - 1];
      if m >= last then m else last
  }

  /** Sorting and removing repetitions: the ascending list of the members. */
  function SortDedup(values: seq<nat>): seq<nat> {
    Scan(Members(values), 0, MaxOf(values) + 1)
  }

  lemma SortedMembers(values: seq<nat>)
    ensures Ascending(SortDedup(values))
    ensures forall v :: v in SortDedup(values) <==> v in values
    ensures values != [] ==> SortDedup(values) != []
  {
    ScanAscends(Members(values), 0, MaxOf(values) + 1);
    assert values != [] ==> values[0] in SortDedup(values);
  }
}
