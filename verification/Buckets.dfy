/** Grouping values under keys, in insertion order within each key. */
module Buckets {

  /** Keys with their values, one entry per key. */
  type Groups<K, V> = seq<(K, seq<V>)>

  predicate DistinctKeys<K(==), V>(b: Groups<K, V>) {
    forall i, j :: 0 <= i < j < |b| ==> b[i].0 != b[j].0
  }

  predicate NoneEmpty<K, V>(b: Groups<K, V>) {
    forall i :: 0 <= i < |b| ==> b[i].1 != []
  }

  predicate Holds<K(==), V(==)>(b: Groups<K, V>, key: K, value: V) {
    exists i :: 0 <= i < |b| && b[i].0 == key && value in b[i].1
  }

  /** The total weight of all values. */
  ghost function Weight<V>(values: seq<V>, w: V -> nat): nat {
    if values == [] then 0 else Weight(values[..|values| - 1], w) + w(values[|values| - 1])
  }

  ghost function TotalWeight<K, V>(b: Groups<K, V>, w: V -> nat): nat {
    if b == [] then 0 else TotalWeight(b[..|b| - 1], w) + Weight(b[|b| - 1].1, w)
  }

  lemma WeightSnoc<V>(values: seq<V>, value: V, w: V -> nat)
    ensures Weight(values + [value], w) == Weight(values, w) + w(value)
  {
    assert (values + [value])[..|values|] == values;
  }

  lemma {:induction false} TotalUpdate<K, V>(b: Groups<K, V>, i: nat, entry: (K, seq<V>), w: V -> nat)
    requires i < |b|
    ensures TotalWeight(b[i := entry], w) + Weight(b[i].1, w) == TotalWeight(b, w) + Weight(entry.1, w)
    decreases |b|
  {
    var n := |b| - 1;
    if i < n {
      TotalUpdate(b[..n], i, entry, w);
      assert b[i := entry][..n] == b[..n][i := entry];
    } else {
      assert b[i := entry][..n] == b[..n];
    }
  }

  /** One-by-one weights count values. */
  lemma {:induction false} UnitWeight<V>(values: seq<V>, w: V -> nat)
    requires forall v :: v in values ==> w(v) == 1
    ensures Weight(values, w) == |values|
  {
    if values != [] {
      assert forall v :: v in values[..|values| - 1] ==> v in values;
      UnitWeight(values[..|values| - 1], w);
    }
  }

  /** `entry(key).or_default().push(value)`. */
  method Push<K(==), V(==)>(b: Groups<K, V>, key: K, value: V, ghost w: V -> nat) returns (r: Groups<K, V>)
    requires DistinctKeys(b) && NoneEmpty(b)
    ensures DistinctKeys(r) && NoneEmpty(r)
    ensures TotalWeight(r, w) == TotalWeight(b, w) + w(value)
    ensures forall k, v :: Holds(r, k, v) <==> Holds(b, k, v) || (k == key && v == value)
    ensures forall i :: 0 <= i < |r| ==>
              if i < |b| then r[i].0 == b[i].0 && r[i].1 == b[i].1 + (if b[i].0 == key then [value] else [])
              else r[i] == (key, [value])
  {
    for i := 0 to |b|
      invariant forall j :: 0 <= j < i ==> b[j].0 != key
    {
      if b[i].0 == key {
        r := b[i := (key, b[i].1 + [value])];
        TotalUpdate(b, i, (key, b[i].1 + [value]), w);
        WeightSnoc(b[i].1, value, w);
        Pushed(b, r, i, key, value);
        return;
      }
    }
    r := b + [(key, [value])];
    assert r[..|b|] == b;
    WeightSnoc([], value, w);
    assert [] + [value] == [value];
    Appended(b, r, key, value);
  }

  lemma Pushed<K, V>(b: Groups<K, V>, r: Groups<K, V>, i: nat, key: K, value: V)
    requires i < |b| && b[i].0 == key && r == b[i := (key, b[i].1 + [value])]
    ensures forall k, v :: Holds(r, k, v) <==> Holds(b, k, v) || (k == key && v == value)
  {
    forall k, v ensures Holds(r, k, v) <==> Holds(b, k, v) || (k == key && v == value) {
      if Holds(b, k, v) {
        var j :| 0 <= j < |b| && b[j].0 == k && v in b[j].1;
        assert r[j].0 == k && v in r[j].1;
      }
      if k == key && v == value {
        assert r[i].0 == k && v in r[i].1;
      }
      if Holds(r, k, v) {
        var j :| 0 <= j < |r| && r[j].0 == k && v in r[j].1;
        if j != i {
          assert b[j].0 == k && v in b[j].1;
        } else if v != value {
          assert b[i].0 == k && v in b[i].1;
        }
      }
    }
  }

  lemma Appended<K, V>(b: Groups<K, V>, r: Groups<K, V>, key: K, value: V)
    requires r == b + [(key, [value])]
    ensures forall k, v :: Holds(r, k, v) <==> Holds(b, k, v) || (k == key && v == value)
  {
    forall k, v ensures Holds(r, k, v) <==> Holds(b, k, v) || (k == key && v == value) {
      if Holds(b, k, v) {
        var j :| 0 <= j < |b| && b[j].0 == k && v in b[j].1;
        assert r[j].0 == k && v in r[j].1;
      }
      if k == key && v == value {
        assert r[|b|].0 == k && v in r[|b|].1;
      }
      if Holds(r, k, v) {
        var j :| 0 <= j < |r| && r[j].0 == k && v in r[j].1;
        if j < |b| {
          assert b[j].0 == k && v in b[j].1;
        }
      }
    }
  }
}
