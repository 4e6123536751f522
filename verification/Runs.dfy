/** Storage runs: constant-stride stretches of one block, scattered into an output. */
module Runs {
  import opened Radix
  import opened Wrappers
  import opened Geometry

  datatype Run = Run(output: nat, offset: nat, stride: int, len: nat) {
    function At(i: nat): int {
      offset + i * stride
    }

    /** What `Run::validate` accepts: a nonempty run inside the block and the output. */
    predicate Fits(blockLen: nat, outputLen: nat) {
      && len > 0
      && output + len <= outputLen
      && offset < blockLen
      && 0 <= At(len - 1) < blockLen
    }

    /** The output positions written by the run, each with its block offset. */
    function Points(): (p: seq<(nat, int)>)
      ensures |p| == len
      ensures forall i :: 0 <= i < len ==> p[i] == (output + i, At(i))
    {
      seq(len, i requires 0 <= i < len => (output + i, At(i)))
    }
  }

  lemma FitsAll(run: Run, blockLen: nat, outputLen: nat, i: nat)
    requires run.Fits(blockLen, outputLen) && i < run.len
    ensures 0 <= run.At(i) < blockLen
  {
    if run.stride >= 0 {
      MulMonotone(0, i, run.stride);
      MulMonotone(i, run.len - 1, run.stride);
    } else {
      MulMonotone(0, i, -run.stride);
      MulMonotone(i, run.len - 1, -run.stride);
      assert i * -run.stride == -(i * run.stride);
      assert (run.len - 1) * -run.stride == -((run.len - 1) * run.stride);
    }
  }

  /** Everything a run list writes, in order. */
  function Expand(runs: seq<Run>): seq<(nat, int)> {
    if runs == [] then [] else Expand(runs[..|runs| - 1]) + runs[|runs| - 1].Points()
  }

  lemma ExpandSnoc(runs: seq<Run>, next: Run)
    ensures Expand(runs + [next]) == Expand(runs) + next.Points()
  {
    assert (runs + [next])[..|runs|] == runs;
  }

  lemma MergedPoints(last: Run, next: Run, merged: Run)
    requires last.len > 0 && next.len > 0
    requires merged.output == last.output && merged.offset == last.offset && merged.len == last.len + next.len
    requires next.output == last.output + last.len
    requires last.len == 1 || merged.stride == last.stride
    requires next.len == 1 || merged.stride == next.stride
    requires next.offset == last.offset + last.len * merged.stride
    ensures merged.Points() == last.Points() + next.Points()
  {
    forall i | 0 <= i < merged.len
      ensures merged.Points()[i] == (last.Points() + next.Points())[i]
    {
      if i >= last.len {
        MergedAt(last, next, merged, i - last.len);
      } else if i > 0 {
        assert merged.stride == last.stride;
      }
    }
  }

  lemma MergedAt(last: Run, next: Run, merged: Run, k: nat)
    requires merged.offset == last.offset && k < next.len
    requires next.len == 1 || merged.stride == next.stride
    requires next.offset == last.offset + last.len * merged.stride
    ensures merged.At(last.len + k) == next.At(k)
  {
    MulAdd(last.len, k, merged.stride, last.len + k);
  }

  predicate AllNonempty(runs: seq<Run>) {
    forall i :: 0 <= i < |runs| ==> runs[i].len > 0
  }

  /** What two nonempty runs must share to be one run. */
  lemma JoinedRun(last: Run, next: Run, merged: Run)
    requires last.len > 0 && next.len > 0 && merged.Points() == last.Points() + next.Points()
    ensures last.output + last.len == next.output && last.offset + last.len * merged.stride == next.offset
    ensures merged.stride == if last.len == 1 then next.offset - last.offset else last.stride
    ensures next.len > 1 ==> next.stride == merged.stride
  {
    assert merged.Points()[0] == last.Points()[0] && merged.Points()[last.len] == next.Points()[0];
    if last.len > 1 {
      assert merged.Points()[1] == last.Points()[1];
    }
    if next.len > 1 {
      assert merged.Points()[last.len + 1] == next.Points()[1];
      assert (last.len + 1) * merged.stride == last.len * merged.stride + merged.stride;
    }
  }

  /** A run list that describes what another one does, followed by one more run. */
  ghost predicate Continues(r: seq<Run>, runs: seq<Run>, next: Run) {
    Expand(r) == Expand(runs) + next.Points()
  }

  /** `push_run`: coalescing describes the same points with fewer runs. */
  method PushRun(runs: seq<Run>, next: Run) returns (r: seq<Run>)
    requires next.len > 0 && AllNonempty(runs)
    ensures |runs| <= |r| <= |runs| + 1 && AllNonempty(r)
    ensures Continues(r, runs, next)
    ensures runs != [] && |r| > |runs| ==> forall merged: Run :: merged.Points() != runs[|runs| - 1].Points() + next.Points()
  {
    ExpandSnoc(runs, next);
    if runs != [] {
      var last := runs[|runs| - 1];
      var stride := if last.len == 1 then next.offset - last.offset else last.stride;
      forall merged: Run | merged.Points() == last.Points() + next.Points() {
        JoinedRun(last, next, merged);
      }
      if last.output + last.len == next.output
        && (next.len == 1 || next.stride == stride)
        && last.offset + last.len * stride == next.offset
      {
        var merged := Run(last.output, last.offset, stride, last.len + next.len);
        MergedPoints(last, next, merged);
        ExpandSnoc(runs[..|runs| - 1], merged);
        return runs[..|runs| - 1] + [merged];
      }
    }
    return runs + [next];
  }

  /** `Run::scatter`: copy the run's block values to their output positions. */
  method Scatter<T>(run: Run, block: seq<T>, output: array<T>) returns (r: Outcome)
    modifies output
    ensures r.Pass? <==> run.Fits(|block|, output.Length)
    ensures r.Fail? ==> output[..] == old(output[..])
    ensures r.Pass? ==> forall i :: 0 <= i < run.len ==>
              0 <= run.At(i) < |block| && output[run.output + i] == block[run.At(i)]
    ensures r.Pass? ==> forall p :: 0 <= p < output.Length && !(run.output <= p < run.output + run.len) ==>
              output[p] == old(output[p])
  {
    if !run.Fits(|block|, output.Length) {
      return Fail(InvalidLayout);
    }
    var i := 0;
    while i < run.len
      invariant 0 <= i <= run.len
      invariant forall k :: 0 <= k < i ==>
                  0 <= run.At(k) < |block| && output[run.output + k] == block[run.At(k)]
      invariant forall p :: 0 <= p < output.Length && !(run.output <= p < run.output + i) ==>
                  output[p] == old(output[p])
    {
      FitsAll(run, |block|, output.Length, i);
      output[run.output + i] := block[run.At(i)];
      i := i + 1;
    }
    return Pass;
  }

  // ---------------------------------------------------------------------
  // The reference: one position per output
  // ---------------------------------------------------------------------

  /** The outputs stored in block `b`, in output order, each with its block offset. */
  function Picks(want: seq<Position>, b: nat): seq<(nat, int)> {
    if want == [] then []
    else
      var last := want[|want| - 1];
      Picks(want[..|want| - 1], b) + if last.block == b then [(|want| - 1, last.offset)] else []
  }

  /** Point `k` of run `i` is at its place of the expansion. */
  lemma {:induction false} ExpandAt(runs: seq<Run>, i: nat, k: nat)
    requires i < |runs| && k < runs[i].len
    ensures |Expand(runs[..i])| + k < |Expand(runs)|
    ensures Expand(runs)[|Expand(runs[..i])| + k] == (runs[i].output + k, runs[i].At(k))
    decreases |runs|
  {
    hide Run.At;
    var front := runs[..|runs| - 1];
    if i < |runs| - 1 {
      ExpandAt(front, i, k);
      assert front[..i] == runs[..i];
    }
  }

  /** Every point of an expansion belongs to a run. */
  lemma {:induction false} ExpandHas(runs: seq<Run>, x: (nat, int)) returns (i: nat, k: nat)
    requires x in Expand(runs)
    ensures i < |runs| && k < runs[i].len && x == (runs[i].output + k, runs[i].At(k))
    decreases |runs|
  {
    hide Run.At;
    var n := |runs| - 1;
    if x in Expand(runs[..n]) {
      i, k := ExpandHas(runs[..n], x);
    } else {
      i := n;
      k :| 0 <= k < runs[n].len && runs[n].Points()[k] == x;
    }
  }

  /** The outputs of one block ascend. */
  lemma {:induction false} PicksAscend(want: seq<Position>, b: nat)
    ensures forall i, j :: 0 <= i < j < |Picks(want, b)| ==> Picks(want, b)[i].0 < Picks(want, b)[j].0
    ensures forall i :: 0 <= i < |Picks(want, b)| ==> Picks(want, b)[i].0 < |want|
    decreases |want|
  {
    if want != [] {
      PicksAscend(want[..|want| - 1], b);
    }
  }

  /** The positions of one validated run. */
  function Positions(key: nat, run: Run, n: nat): (p: seq<Position>)
    requires n <= run.len && forall i :: 0 <= i < run.len ==> run.At(i) >= 0
    ensures |p| == n
    ensures forall i :: 0 <= i < n ==> p[i] == Position(key, run.At(i))
  {
    seq(n, i requires 0 <= i < n => Position(key, run.At(i)))
  }

  lemma PicksSnoc(want: seq<Position>, next: Position, b: nat)
    ensures Picks(want + [next], b)
         == Picks(want, b) + if next.block == b then [(|want|, next.offset)] else []
  {
    assert (want + [next])[..|want|] == want;
  }

  /** Appending a run of one block extends that block's picks by the run's points. */
  lemma {:induction false} PicksRun(want: seq<Position>, key: nat, run: Run, b: nat, n: nat)
    requires n <= run.len && run.output == |want| && forall i :: 0 <= i < run.len ==> run.At(i) >= 0
    ensures Picks(want + Positions(key, run, n), b)
         == Picks(want, b) + if b == key then run.Points()[..n] else []
    decreases n
  {
    hide Run.At, Picks;
    if n == 0 {
      assert want + Positions(key, run, 0) == want;
    } else {
      PicksRun(want, key, run, b, n - 1);
      var front := want + Positions(key, run, n - 1);
      assert want + Positions(key, run, n) == front + [Position(key, run.At(n - 1))];
      PicksSnoc(front, Position(key, run.At(n - 1)), b);
      assert run.Points()[..n] == run.Points()[..n - 1] + [run.Points()[n - 1]];
    }
  }

  /** Every output appears in exactly one block's picks, at its own place. */
  lemma {:induction false} PickOf(want: seq<Position>, b: nat, p: nat)
    requires p < |want|
    ensures (p, want[p].offset) in Picks(want, b) <==> want[p].block == b
    ensures forall x :: x in Picks(want, b) ==> 0 <= x.0 < |want| && want[x.0].block == b && want[x.0].offset == x.1
    decreases |want|
  {
    var front := want[..|want| - 1];
    if p < |front| {
      PickOf(front, b, p);
    } else if front != [] {
      PickOf(front, b, 0);
    }
  }
}
