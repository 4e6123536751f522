/** Releasing a shared expression graph with worklists instead of recursive destruction. */
module Release {

  // ---------------------------------------------------------------------
  // Reference counts
  // ---------------------------------------------------------------------

  /** Operand handles of each expression; operands have smaller rank than their owner. */
  ghost predicate Acyclic(edges: seq<seq<nat>>, rank: seq<nat>) {
    && |rank| == |edges|
    && forall n, k :: 0 <= n < |edges| && 0 <= k < |edges[n]| ==> edges[n][k] < |edges| && rank[edges[n][k]] < rank[n]
  }

  /** Handles to `n` held by the live expressions among the first `k`. */
  ghost function InDegree(edges: seq<seq<nat>>, live: seq<bool>, n: nat, k: nat): nat
    requires k <= |edges| == |live|
  {
    if k == 0 then 0
    else InDegree(edges, live, n, k - 1) + if live[k - 1] then multiset(edges[k - 1])[n] else 0
  }

  /** All handles waiting in the worklists of the releasing threads. */
  ghost function Total(lists: seq<seq<nat>>): multiset<nat> {
    if lists == [] then multiset{} else Total(lists[..|lists| - 1]) + multiset(lists[|lists| - 1])
  }

  function Length(lists: seq<seq<nat>>): nat {
    if lists == [] then 0 else Length(lists[..|lists| - 1]) + |lists[|lists| - 1]|
  }

  function LiveCount(live: seq<bool>): nat {
    if live == [] then 0 else LiveCount(live[..|live| - 1]) + if live[|live| - 1] then 1 else 0
  }

  /** Every strong count is exactly the handles kept elsewhere, waiting, and inside live expressions. */
  ghost predicate Counted(edges: seq<seq<nat>>, live: seq<bool>, counts: seq<nat>, kept: multiset<nat>,
                          waiting: multiset<nat>) {
    && |live| == |counts| == |edges|
    && (forall n :: 0 <= n < |edges| && live[n] ==>
          0 < counts[n] == kept[n] + waiting[n] + InDegree(edges, live, n, |edges|))
    && (forall n :: 0 <= n < |edges| && !live[n] ==> kept[n] + waiting[n] + InDegree(edges, live, n, |edges|) == 0)
    && (forall n: nat :: n in kept || n in waiting ==> n < |edges|)
  }

  // ---------------------------------------------------------------------
  // One release step
  // ---------------------------------------------------------------------

  lemma {:induction false} InDegreeDrop(edges: seq<seq<nat>>, live: seq<bool>, d: nat, n: nat, k: nat)
    requires k <= |edges| == |live| && d < |edges| && live[d]
    ensures InDegree(edges, live[d := false], n, k) + (if d < k then multiset(edges[d])[n] else 0) == InDegree(edges, live, n, k)
  {
    if k > 0 {
      InDegreeDrop(edges, live, d, n, k - 1);
    }
  }

  lemma {:induction false} TotalUpdate(lists: seq<seq<nat>>, t: nat, list: seq<nat>)
    requires t < |lists|
    ensures Total(lists[t := list]) + multiset(lists[t]) == Total(lists) + multiset(list)
    ensures Length(lists[t := list]) + |lists[t]| == Length(lists) + |list|
    decreases |lists|
  {
    var n := |lists| - 1;
    if t < n {
      TotalUpdate(lists[..n], t, list);
      assert lists[t := list][..n] == lists[..n][t := list];
      Exchange(Total(lists[..n][t := list]), multiset(lists[t]), Total(lists[..n]), multiset(list), multiset(lists[n]));
    } else {
      assert lists[t := list][..n] == lists[..n];
      Exchange(Total(lists[..n]), multiset{}, Total(lists[..n]), multiset{}, multiset(list) + multiset(lists[n]));
    }
  }

  lemma Exchange(a: multiset<nat>, x: multiset<nat>, b: multiset<nat>, y: multiset<nat>, c: multiset<nat>)
    requires a + x == b + y
    ensures (a + c) + x == (b + c) + y
  {
    assert (a + c) + x == (a + x) + c;
  }

  lemma TakeOne(lists: seq<seq<nat>>, t: nat, rest: seq<nat>, d: nat)
    requires t < |lists| && lists[t] == rest + [d]
    ensures Total(lists) == Total(lists[t := []]) + multiset(rest) + multiset{d}
  {
    hide Total;
    var e: seq<nat> := [];
    NoneIn(e);
    TotalUpdate(lists, t, e);
    assert multiset(lists[t]) == multiset(rest) + multiset{d};
    Rejoined(Total(lists[t := e]), multiset(lists[t]), Total(lists), multiset(rest), multiset{d});
  }

  lemma Rejoined(a: multiset<nat>, b: multiset<nat>, all: multiset<nat>, x: multiset<nat>, y: multiset<nat>)
    requires a + b == all + multiset{} && b == x + y
    ensures all == a + x + y
  {
    assert all + multiset{} == all;
  }

  lemma NoneIn(e: seq<nat>)
    requires e == []
    ensures multiset(e) == multiset{}
  {}

  lemma {:induction false} LiveDrop(live: seq<bool>, d: nat)
    requires d < |live| && live[d]
    ensures LiveCount(live[d := false]) + 1 == LiveCount(live)
    decreases |live|
  {
    var n := |live| - 1;
    if d < n {
      LiveDrop(live[..n], d);
      assert live[d := false][..n] == live[..n][d := false];
    } else {
      assert live[d := false][..n] == live[..n];
    }
  }

  /** A handle that is not the last one just lowers the count. */
  lemma ReleaseShared(edges: seq<seq<nat>>, live: seq<bool>, counts: seq<nat>, kept: multiset<nat>,
                      waiting: multiset<nat>, d: nat)
    requires Counted(edges, live, counts, kept, waiting) && d in waiting
    ensures d < |edges| && live[d] && counts[d] > 0
    ensures counts[d] > 1 ==> Counted(edges, live, counts[d := counts[d] - 1], kept, waiting - multiset{d})
  {
    assert waiting[d] > 0;
  }

  /** The last handle: nothing else refers to the expression, and its operand handles wait instead. */
  lemma ReleaseLast(edges: seq<seq<nat>>, live: seq<bool>, counts: seq<nat>, kept: multiset<nat>,
                    waiting: multiset<nat>, d: nat, rank: seq<nat>)
    requires Acyclic(edges, rank) && Counted(edges, live, counts, kept, waiting) && d in waiting
    requires d < |edges| && live[d] && counts[d] == 1
    ensures Counted(edges, live[d := false], counts[d := 0], kept, waiting - multiset{d} + multiset(edges[d]))
    ensures d !in kept
  {
    var after, more := live[d := false], waiting - multiset{d} + multiset(edges[d]);
    assert waiting[d] > 0;
    NoSelf(edges, rank, d);
    forall n | 0 <= n < |edges|
      ensures InDegree(edges, after, n, |edges|) + multiset(edges[d])[n] == InDegree(edges, live, n, |edges|)
    {
      InDegreeDrop(edges, live, d, n, |edges|);
    }
    forall n: nat | n in more ensures n < |edges| {
      if n in multiset(edges[d]) {
        var k :| 0 <= k < |edges[d]| && edges[d][k] == n;
      }
    }
  }

  lemma NoSelf(edges: seq<seq<nat>>, rank: seq<nat>, d: nat)
    requires Acyclic(edges, rank) && d < |edges|
    ensures multiset(edges[d])[d] == 0
  {
    forall k | 0 <= k < |edges[d]| ensures edges[d][k] != d {
      assert rank[edges[d][k]] < rank[d];
    }
    assert d !in edges[d];
  }

  // ---------------------------------------------------------------------
  // Reachability
  // ---------------------------------------------------------------------

  ghost predicate IsPath(edges: seq<seq<nat>>, path: seq<nat>) {
    && path != []
    && (forall i :: 0 <= i < |path| ==> path[i] < |edges|)
    && forall i :: 0 < i < |path| ==> path[i] in edges[path[i - 1]]
  }

  /** Some kept handle leads to `n` through operand handles. */
  ghost predicate Reachable(edges: seq<seq<nat>>, kept: multiset<nat>, n: nat) {
    exists path :: IsPath(edges, path) && path[0] in kept && path[|path| - 1] == n
  }

  lemma {:induction false} DegreeWitness(edges: seq<seq<nat>>, live: seq<bool>, n: nat, k: nat) returns (p: nat)
    requires k <= |edges| == |live| && InDegree(edges, live, n, k) > 0
    ensures p < k && live[p] && n in edges[p]
  {
    if live[k - 1] && multiset(edges[k - 1])[n] > 0 {
      p := k - 1;
    } else {
      p := DegreeWitness(edges, live, n, k - 1);
    }
  }

  lemma {:induction false} DegreePositive(edges: seq<seq<nat>>, live: seq<bool>, p: nat, n: nat, k: nat)
    requires p < k <= |edges| == |live| && live[p] && n in edges[p]
    ensures InDegree(edges, live, n, k) > 0
  {
    if p < k - 1 {
      DegreePositive(edges, live, p, n, k - 1);
    } else {
      assert n in multiset(edges[p]);
    }
  }

  /** Operands of live expressions are live. */
  lemma OperandLive(edges: seq<seq<nat>>, live: seq<bool>, counts: seq<nat>, kept: multiset<nat>,
                    waiting: multiset<nat>, p: nat, n: nat)
    requires Counted(edges, live, counts, kept, waiting) && p < |edges| && live[p] && n in edges[p] && n < |edges|
    ensures live[n]
  {
    DegreePositive(edges, live, p, n, |edges|);
  }

  lemma {:induction false} PathLive(edges: seq<seq<nat>>, live: seq<bool>, counts: seq<nat>, kept: multiset<nat>,
                                    path: seq<nat>)
    requires Counted(edges, live, counts, kept, multiset{}) && IsPath(edges, path) && path[0] in kept
    ensures live[path[|path| - 1]]
    decreases |path|
  {
    if |path| == 1 {
      assert kept[path[0]] > 0;
    } else {
      var n := |path| - 1;
      PathLive(edges, live, counts, kept, path[..n]);
      OperandLive(edges, live, counts, kept, multiset{}, path[n - 1], path[n]);
    }
  }

  function MaxRank(rank: seq<nat>): (m: nat)
    ensures forall i :: 0 <= i < |rank| ==> rank[i] <= m
  {
    if rank == [] then 0
    else
      var m, last := MaxRank(rank[..|rank| - 1]), rank[|rank| - 1];
      if m >= last then m else last
  }

  /** With nothing waiting, a live expression is kept or has a live owner; owners have larger rank. */
  lemma {:induction false} LiveReachable(edges: seq<seq<nat>>, rank: seq<nat>, live: seq<bool>, counts: seq<nat>,
                                         kept: multiset<nat>, n: nat)
    requires Acyclic(edges, rank) && Counted(edges, live, counts, kept, multiset{}) && n < |edges| && live[n]
    ensures Reachable(edges, kept, n)
    decreases MaxRank(rank) - rank[n]
  {
    if n in kept {
      assert IsPath(edges, [n]) && [n][0] in kept;
    } else {
      assert kept[n] == 0;
      var p := DegreeWitness(edges, live, n, |edges|);
      var k :| 0 <= k < |edges[p]| && edges[p][k] == n;
      assert rank[edges[p][k]] < rank[p];
      LiveReachable(edges, rank, live, counts, kept, p);
      var path :| IsPath(edges, path) && path[0] in kept && path[|path| - 1] == p;
      var longer := path + [n];
      forall i | 0 < i < |longer| ensures longer[i] in edges[longer[i - 1]] {
        if i < |path| {
          assert path[i] in edges[path[i - 1]];
        }
      }
      assert IsPath(edges, longer) && longer[0] in kept && longer[|longer| - 1] == n;
    }
  }

  /** Exactly the expressions some kept handle reaches survive. */
  lemma SurvivorsAreReachable(edges: seq<seq<nat>>, rank: seq<nat>, live: seq<bool>, counts: seq<nat>,
                              kept: multiset<nat>, n: nat)
    requires Acyclic(edges, rank) && Counted(edges, live, counts, kept, multiset{}) && n < |edges|
    ensures live[n] <==> Reachable(edges, kept, n)
  {
    if live[n] {
      LiveReachable(edges, rank, live, counts, kept, n);
    }
    if Reachable(edges, kept, n) {
      var path :| IsPath(edges, path) && path[0] in kept && path[|path| - 1] == n;
      PathLive(edges, live, counts, kept, path);
    }
  }

  // ---------------------------------------------------------------------
  // The worklists
  // ---------------------------------------------------------------------

  predicate Distinct(s: seq<nat>) {
    forall i, j :: 0 <= i < j < |s| ==> s[i] != s[j]
  }

  /** A graph of reference-counted expressions. */
  class Graph {
    const edges: seq<seq<nat>>
    var counts: seq<nat>
    var live: seq<bool>
    /** The expressions detached so far, in order. */
    ghost var detached: seq<nat>

    constructor (edges: seq<seq<nat>>, counts: seq<nat>, live: seq<bool>)
      ensures this.edges == edges && this.counts == counts && this.live == live && detached == []
    {
      this.edges, this.counts, this.live := edges, counts, live;
      detached := [];
    }

    /** `drain`: give up one handle; the last handle detaches the operands onto the worklist. */
    method Drain(d: nat, pending: seq<nat>, ghost kept: multiset<nat>, ghost others: multiset<nat>,
                 ghost rank: seq<nat>)
      returns (next: seq<nat>)
      requires Acyclic(edges, rank) && Counted(edges, live, counts, kept, others + multiset(pending) + multiset{d})
      modifies this
      ensures Counted(edges, live, counts, kept, others + multiset(next))
      ensures d < |edges| == |old(live)| == |live| && old(live)[d]
      ensures if old(counts)[d] == 1
              then next == pending + edges[d] && live == old(live)[d := false] && detached == old(detached) + [d] && d !in kept
              else next == pending && live == old(live) && detached == old(detached)
    {
      ghost var waiting := others + multiset(pending) + multiset{d};
      ReleaseShared(edges, live, counts, kept, waiting, d);
      assert waiting - multiset{d} == others + multiset(pending);
      if counts[d] > 1 {
        counts := counts[d := counts[d] - 1];
        return pending;
      }
      ReleaseLast(edges, live, counts, kept, waiting, d, rank);
      counts := counts[d := 0];
      live := live[d := false];
      detached := detached + [d];
      next := pending + edges[d];
      assert others + multiset(next) == others + multiset(pending) + multiset(edges[d]);
    }

    /** Any number of threads release handles at once, each from its own worklist, in any
        interleaving: what survives is what the kept handles reach, and every other expression
        is detached exactly once. */
    method Release(start: seq<seq<nat>>, ghost kept: multiset<nat>, ghost rank: seq<nat>)
      requires Acyclic(edges, rank) && Counted(edges, live, counts, kept, Total(start)) && detached == []
      modifies this
      ensures Counted(edges, live, counts, kept, multiset{})
      ensures |live| == |edges| && forall n :: 0 <= n < |edges| ==> (live[n] <==> Reachable(edges, kept, n))
      ensures Distinct(detached)
      ensures forall n :: n in detached <==> 0 <= n < |edges| && old(live)[n] && !live[n]
    {
      hide Counted, Reachable, Total, Length, LiveCount;
      var lists := start;
      assert |live| == |edges| by { CountedLengths(edges, live, counts, kept, Total(start)); }
      while exists t :: 0 <= t < |lists| && lists[t] != []
        invariant |lists| == |start| && |live| == |edges|
        invariant Counted(edges, live, counts, kept, Total(lists))
        invariant Distinct(detached)
        invariant forall n :: 0 <= n < |edges| && live[n] ==> old(live)[n]
        invariant forall n :: n in detached <==> 0 <= n < |edges| && old(live)[n] && !live[n]
        decreases LiveCount(live), Length(lists)
      {
        var t :| 0 <= t < |lists| && lists[t] != [];
        var d, rest := lists[t][|lists[t]| - 1], lists[t][..|lists[t]| - 1];
        ghost var others := Total(lists[t := []]);
        TakeOne(lists, t, rest, d);
        ghost var before, sofar := live, detached;
        var list := Drain(d, rest, kept, others, rank);
        if live != before {
          LiveDrop(before, d);
          assert forall n :: n in detached <==> n in sofar || n == d;
        }
        TotalUpdate(lists, t, list);
        OthersUpdate(lists, t, list, others);
        lists := lists[t := list];
      }
      NothingWaits(lists);
      forall n | 0 <= n < |edges| ensures live[n] <==> Reachable(edges, kept, n) {
        SurvivorsAreReachable(edges, rank, live, counts, kept, n);
      }
    }

    /** `Drop`: releasing one handle from one thread. */
    method Drop(handle: nat, ghost kept: multiset<nat>, ghost rank: seq<nat>)
      requires Acyclic(edges, rank) && Counted(edges, live, counts, kept, multiset{handle}) && detached == []
      modifies this
      ensures Counted(edges, live, counts, kept, multiset{})
      ensures |live| == |edges| && forall n :: 0 <= n < |edges| ==> (live[n] <==> Reachable(edges, kept, n))
      ensures Distinct(detached)
      ensures forall n :: n in detached <==> 0 <= n < |edges| && old(live)[n] && !live[n]
    {
      hide Counted, Reachable;
      OneList(handle);
      Release([[handle]], kept, rank);
    }
  }

  lemma CountedLengths(edges: seq<seq<nat>>, live: seq<bool>, counts: seq<nat>, kept: multiset<nat>,
                       waiting: multiset<nat>)
    requires Counted(edges, live, counts, kept, waiting)
    ensures |live| == |counts| == |edges|
  {}

  lemma OthersUpdate(lists: seq<seq<nat>>, t: nat, list: seq<nat>, others: multiset<nat>)
    requires t < |lists| && others == Total(lists[t := []])
    ensures Total(lists[t := list]) == others + multiset(list)
  {
    hide Total;
    TotalUpdate(lists[t := []], t, list);
    assert lists[t := []][t := list] == lists[t := list];
    assert multiset(lists[t := []][t]) == multiset{};
  }

  lemma {:induction false} NothingWaits(lists: seq<seq<nat>>)
    requires forall t :: 0 <= t < |lists| ==> lists[t] == []
    ensures Total(lists) == multiset{}
  {
    if lists != [] {
      NothingWaits(lists[..|lists| - 1]);
    }
  }

  lemma OneList(handle: nat)
    ensures Total([[handle]]) == multiset{handle}
  {
    assert [[handle]][..0] == [];
    assert Total([[handle]][..0]) == multiset{};
  }
}
