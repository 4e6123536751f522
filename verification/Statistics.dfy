/** Standard deviation states in exact arithmetic: splitting, joining and appending zeros. */
module Statistics {
  import opened Reduce

  /** The two real components of a value. */
  datatype Pair = Pair(re: real, im: real)

  /** Count, mean and sum of squared deviations. */
  datatype State = State(count: nat, mean: Pair, spread: real)

  function SumRe(values: seq<Pair>): real {
    if values == [] then 0.0 else SumRe(values[..|values| - 1]) + values[|values| - 1].re
  }

  function SumIm(values: seq<Pair>): real {
    if values == [] then 0.0 else SumIm(values[..|values| - 1]) + values[|values| - 1].im
  }

  function Mean(values: seq<Pair>): Pair
    requires values != []
  {
    Pair(SumRe(values) / (|values| as real), SumIm(values) / (|values| as real))
  }

  function Square(x: real): real {
    x * x
  }

  /** The sum of squared distances from a point. */
  function Deviation(values: seq<Pair>, from: Pair): real {
    if values == [] then 0.0
    else
      var last := values[|values| - 1];
      Deviation(values[..|values| - 1], from) + (Square(last.re - from.re) + Square(last.im - from.im))
  }

  /** The definition: count, mean, and squared deviations from the mean. */
  function Summary(values: seq<Pair>): State {
    if values == [] then State(0, Pair(0.0, 0.0), 0.0)
    else State(|values|, Mean(values), Deviation(values, Mean(values)))
  }

  // ---------------------------------------------------------------------
  // Deviations from any point
  // ---------------------------------------------------------------------

  lemma {:induction false} SumConcat(a: seq<Pair>, b: seq<Pair>)
    ensures SumRe(a + b) == SumRe(a) + SumRe(b) && SumIm(a + b) == SumIm(a) + SumIm(b)
    decreases |b|
  {
    if b == [] {
      assert a + b == a;
    } else {
      SumConcat(a, b[..|b| - 1]);
      assert (a + b)[..|a + b| - 1] == a + b[..|b| - 1];
    }
  }

  lemma {:induction false} DeviationConcat(a: seq<Pair>, b: seq<Pair>, from: Pair)
    ensures Deviation(a + b, from) == Deviation(a, from) + Deviation(b, from)
    decreases |b|
  {
    if b == [] {
      assert a + b == a;
    } else {
      DeviationConcat(a, b[..|b| - 1], from);
      assert (a + b)[..|a + b| - 1] == a + b[..|b| - 1];
    }
  }

  /** What moving the reference from `a` to `b` adds, for `n` values of a known sum. */
  function Shift(sum: real, n: real, a: real, b: real): real {
    2.0 * (a - b) * sum + n * (Square(b) - Square(a))
  }

  lemma ShiftNext(sum: real, n: real, x: real, a: real, b: real)
    ensures Shift(sum + x, n + 1.0, a, b) == Shift(sum, n, a, b) + (Square(x - b) - Square(x - a))
  {
    var p, k := 2.0 * (a - b), Square(b) - Square(a);
    Linear(p, sum, x);
    assert (n + 1.0) * k == n * k + k;
    assert Square(x - b) - Square(x - a) == p * x + k;
  }

  lemma Linear(k: real, x: real, y: real)
    ensures k * (x + y) == k * x + k * y
  {}

  /** Moving the reference point changes the deviation by a term in the sum alone. */
  lemma {:induction false} DeviationShift(values: seq<Pair>, a: Pair, b: Pair)
    ensures Deviation(values, b)
         == Deviation(values, a) + Shift(SumRe(values), |values| as real, a.re, b.re) + Shift(SumIm(values), |values| as real, a.im, b.im)
  {
    if values != [] {
      hide Square, Shift;
      var n := |values| - 1;
      var x := values[n];
      DeviationShift(values[..n], a, b);
      ShiftNext(SumRe(values[..n]), n as real, x.re, a.re, b.re);
      ShiftNext(SumIm(values[..n]), n as real, x.im, a.im, b.im);
      assert |values| as real == (n as real) + 1.0;
    }
  }

  /** About the mean, the shift is the count times the squared distance. */
  lemma AboutMean(n: real, sum: real, mean: real, b: real)
    requires sum == n * mean
    ensures Shift(sum, n, mean, b) == n * Square(mean - b)
  {
    assert (mean - b) * sum == n * ((mean - b) * mean);
    assert 2.0 * ((mean - b) * mean) + (Square(b) - Square(mean)) == Square(mean - b);
    Linear(n, 2.0 * ((mean - b) * mean), Square(b) - Square(mean));
  }

  /** The squared distance of a mean from a point, once per value. */
  function Far(n: real, mean: Pair, b: Pair): real {
    n * (Square(mean.re - b.re) + Square(mean.im - b.im))
  }

  lemma DeviationFromMean(values: seq<Pair>, b: Pair)
    requires values != []
    ensures Deviation(values, b) == Deviation(values, Mean(values)) + Far(|values| as real, Mean(values), b)
  {
    hide Square, Deviation, Shift, SumRe, SumIm;
    var n := |values| as real;
    var m := Mean(values);
    DeviationShift(values, m, b);
    AboutMean(n, SumRe(values), m.re, b.re);
    AboutMean(n, SumIm(values), m.im, b.im);
    Linear(n, Square(m.re - b.re), Square(m.im - b.im));
  }

  // ---------------------------------------------------------------------
  // Combining
  // ---------------------------------------------------------------------

  function Weight(l: nat, r: nat): real
    requires l + r > 0
  {
    (r as real) / ((l + r) as real)
  }

  function JoinMeans(l: nat, r: nat, a: Pair, b: Pair): Pair
    requires l + r > 0
  {
    Pair(a.re + (b.re - a.re) * Weight(l, r), a.im + (b.im - a.im) * Weight(l, r))
  }

  /** The squared distance of the two means, weighted by both counts. */
  function CrossSpread(l: nat, r: nat, a: Pair, b: Pair): real
    requires l + r > 0
  {
    ((b.re - a.re) * (b.re - a.re) + (b.im - a.im) * (b.im - a.im)) * (l as real) * Weight(l, r)
  }

  /** `combine`: weighted mean, and the cross term of the two means. */
  function Combine(l: State, r: State): State
    requires l.count + r.count > 0
  {
    State(l.count + r.count, JoinMeans(l.count, r.count, l.mean, r.mean),
          l.spread + r.spread + CrossSpread(l.count, r.count, l.mean, r.mean))
  }

  /** The mean of two groups lies at their weighted distance. */
  lemma JointMean(n: real, m: real, a: real, b: real, sum: real, w: real)
    requires n > 0.0 && m > 0.0 && sum == n * a + m * b && w == m / (n + m)
    ensures sum / (n + m) == a + (b - a) * w
    ensures w * (n + m) == m
  {
    assert w * (n + m) == m;
    assert (a + (b - a) * w) * (n + m) == a * (n + m) + (b - a) * (w * (n + m));
    assert (a + (b - a) * w) * (n + m) == sum;
  }

  /** Spread of two groups about the joint mean: the cross term of `combine`. */
  lemma CrossTerm(n: real, m: real, d: real, w: real)
    requires n > 0.0 && m > 0.0 && w * (n + m) == m
    ensures n * Square(d * w) + m * Square(d - d * w) == d * d * n * w
  {
    var k := d * d;
    assert Square(d * w) == k * (w * w);
    assert Square(d - d * w) == k * ((1.0 - w) * (1.0 - w));
    assert n * w == m - m * w;
    assert n * (w * w) == (m - m * w) * w;
    assert n * (w * w) + m * ((1.0 - w) * (1.0 - w)) == m * (1.0 - w) * (w + (1.0 - w));
    assert m * (1.0 - w) == n * w;
    assert n * (k * (w * w)) + m * (k * ((1.0 - w) * (1.0 - w))) == k * (n * (w * w) + m * ((1.0 - w) * (1.0 - w)));
  }

  /** Summaries of two nonempty batches combine into the summary of both. */
  lemma SummaryJoins(xs: seq<Pair>, ys: seq<Pair>)
    requires xs != [] && ys != []
    ensures Summary(xs + ys) == Combine(Summary(xs), Summary(ys))
  {
    hide Deviation, Mean, JoinMeans, CrossSpread;
    JoinedMean(xs, ys);
    JoinedSpread(xs, ys);
  }

  lemma JoinedMean(xs: seq<Pair>, ys: seq<Pair>)
    requires xs != [] && ys != []
    ensures Mean(xs + ys) == JoinMeans(|xs|, |ys|, Mean(xs), Mean(ys))
    ensures var a, b, joint, w := Mean(xs), Mean(ys), Mean(xs + ys), Weight(|xs|, |ys|);
            && (|xs| as real) * Square(a.re - joint.re) + (|ys| as real) * Square(b.re - joint.re)
               == (b.re - a.re) * (b.re - a.re) * (|xs| as real) * w
            && (|xs| as real) * Square(a.im - joint.im) + (|ys| as real) * Square(b.im - joint.im)
               == (b.im - a.im) * (b.im - a.im) * (|xs| as real) * w
  {
    hide Square, Deviation, SumRe, SumIm, Mean;
    var n, m := |xs| as real, |ys| as real;
    var a, b, joint, w := Mean(xs), Mean(ys), Mean(xs + ys), Weight(|xs|, |ys|);
    assert |xs + ys| as real == n + m;
    SumConcat(xs, ys);
    MeanIs(xs);
    MeanIs(ys);
    MeanIs(xs + ys);
    AxisJoin(n, m, a.re, b.re, SumRe(xs + ys), joint.re, w, b.re - a.re);
    AxisJoin(n, m, a.im, b.im, SumIm(xs + ys), joint.im, w, b.im - a.im);
  }

  lemma JoinedSpread(xs: seq<Pair>, ys: seq<Pair>)
    requires xs != [] && ys != []
    ensures Deviation(xs + ys, Mean(xs + ys))
         == Deviation(xs, Mean(xs)) + Deviation(ys, Mean(ys)) + CrossSpread(|xs|, |ys|, Mean(xs), Mean(ys))
  {
    hide Square, Deviation, Mean, JoinMeans, Weight, Far, CrossSpread;
    var a, b, joint := Mean(xs), Mean(ys), Mean(xs + ys);
    JoinedMean(xs, ys);
    DeviationConcat(xs, ys, joint);
    DeviationFromMean(xs, joint);
    DeviationFromMean(ys, joint);
    CrossSum(|xs|, |ys|, a, b, joint);
  }

  lemma MeanIs(values: seq<Pair>)
    requires values != []
    ensures SumRe(values) == (|values| as real) * Mean(values).re && SumIm(values) == (|values| as real) * Mean(values).im
    ensures Mean(values) == Pair(SumRe(values) / (|values| as real), SumIm(values) / (|values| as real))
  {
    hide SumRe, SumIm;
  }

  /** One axis of two groups: the joint mean, and the spread of the two means about it. */
  lemma AxisJoin(n: real, m: real, a: real, b: real, sum: real, joint: real, w: real, d: real)
    requires n > 0.0 && m > 0.0 && sum == n * a + m * b && w == m / (n + m) && joint == sum / (n + m)
    requires d == b - a
    ensures joint == a + d * w
    ensures n * Square(a - joint) + m * Square(b - joint) == d * d * n * w
  {
    hide Square;
    JointMean(n, m, a, b, sum, w);
    Distances(a, b, joint, d, w);
    CrossTerm(n, m, d, w);
  }

  lemma Distances(a: real, b: real, joint: real, d: real, w: real)
    requires joint == a + d * w && d == b - a
    ensures Square(a - joint) == Square(d * w) && Square(b - joint) == Square(d - d * w)
  {}

  lemma CrossSum(l: nat, r: nat, a: Pair, b: Pair, joint: Pair)
    requires l + r > 0
    requires (l as real) * Square(a.re - joint.re) + (r as real) * Square(b.re - joint.re)
          == (b.re - a.re) * (b.re - a.re) * (l as real) * Weight(l, r)
    requires (l as real) * Square(a.im - joint.im) + (r as real) * Square(b.im - joint.im)
          == (b.im - a.im) * (b.im - a.im) * (l as real) * Weight(l, r)
    ensures Far(l as real, a, joint) + Far(r as real, b, joint) == CrossSpread(l, r, a, b)
  {
    hide Square, Weight;
    Linear(l as real, Square(a.re - joint.re), Square(a.im - joint.im));
    Linear(r as real, Square(b.re - joint.re), Square(b.im - joint.im));
    Factor((b.re - a.re) * (b.re - a.re), (b.im - a.im) * (b.im - a.im), l as real, Weight(l, r));
  }

  // ---------------------------------------------------------------------
  // The running computation
  // ---------------------------------------------------------------------

  /** One value joins a running state. */
  lemma RunningStep(seen: seq<Pair>, x: Pair, before: State, after: State)
    requires before == Summary(seen)
    requires var count := (before.count + 1) as real;
             var dRe, dIm := x.re - before.mean.re, x.im - before.mean.im;
             var re, im := before.mean.re + dRe / count, before.mean.im + dIm / count;
             after == State(before.count + 1, Pair(re, im), before.spread + dRe * (x.re - re) + dIm * (x.im - im))
    ensures after == Summary(seen + [x])
  {
    SingleSummary(x);
    if seen == [] {
      assert seen + [x] == [x];
      assert x.re / 1.0 == x.re && x.im / 1.0 == x.im;
    } else {
      SummaryJoins(seen, [x]);
      var n, w := |seen| as real, 1.0 / ((|seen| as real) + 1.0);
      var dRe, dIm := x.re - before.mean.re, x.im - before.mean.im;
      StepAxis(n, dRe, w);
      StepAxis(n, dIm, w);
      Factor(dRe * dRe, dIm * dIm, n, w);
    }
  }

  lemma StepAxis(n: real, d: real, w: real)
    requires n > 0.0 && w == 1.0 / (n + 1.0)
    ensures d / (n + 1.0) == d * w && d * (d - d * w) == d * d * n * w
  {
    assert w * (n + 1.0) == 1.0;
    assert d / (n + 1.0) == d * w;
    assert d * (d - d * w) == d * d * (1.0 - w);
    assert 1.0 - w == n * w;
  }

  lemma Factor(a: real, b: real, n: real, w: real)
    ensures (a + b) * n * w == a * n * w + b * n * w
  {}

  lemma SingleSummary(x: Pair)
    ensures Summary([x]) == State(1, x, 0.0)
  {
    assert [x][..0] == [];
    assert SumRe([x]) == SumRe([x][..0]) + x.re && SumIm([x]) == SumIm([x][..0]) + x.im;
    assert Mean([x]) == x;
    assert Deviation([x], x) == Deviation([x][..0], x) + (Square(0.0) + Square(0.0));
  }

  /** `partial`: the single-pass update computes the definition. */
  method Partial(values: seq<Pair>) returns (state: State)
    ensures state == Summary(values)
  {
    hide Summary;
    state := State(0, Pair(0.0, 0.0), 0.0);
    assert values[..0] == [];
    NoSummary();
    for i := 0 to |values|
      invariant state == Summary(values[..i])
    {
      SummaryCount(values[..i]);
      var value := values[i];
      var count := (state.count + 1) as real;
      var dRe, dIm := value.re - state.mean.re, value.im - state.mean.im;
      var re, im := state.mean.re + dRe / count, state.mean.im + dIm / count;
      ghost var before := state;
      state := State(state.count + 1, Pair(re, im), state.spread + dRe * (value.re - re) + dIm * (value.im - im));
      RunningStep(values[..i], value, before, state);
      assert values[..i + 1] == values[..i] + [value];
    }
    assert values[..|values|] == values;
  }

  lemma NoSummary()
    ensures Summary([]) == State(0, Pair(0.0, 0.0), 0.0)
  {}

  lemma SummaryCount(values: seq<Pair>)
    ensures Summary(values).count == |values|
  {}

  // ---------------------------------------------------------------------
  // As a reduction
  // ---------------------------------------------------------------------

  function CombineAny(l: State, r: State): State {
    if l.count + r.count > 0 then Combine(l, r) else l
  }

  lemma SummaryCommutes(xs: seq<Pair>, ys: seq<Pair>)
    requires xs != [] && ys != []
    ensures Summary(xs + ys) == Summary(ys + xs)
  {
    hide Deviation, SumRe, SumIm;
    SumConcat(xs, ys);
    SumConcat(ys, xs);
    assert Mean(xs + ys) == Mean(ys + xs);
    DeviationConcat(xs, ys, Mean(xs + ys));
    DeviationConcat(ys, xs, Mean(xs + ys));
  }

  /** Standard deviation is a lawful reduction: batching, index order and doubled zeros all
      leave the state of the whole selection. */
  lemma DeviationLawful()
    ensures Lawful(Op((values: seq<Pair>) => Summary(values), (l: State, r: State) => CombineAny(l, r)))
  {
    hide Summary, Combine;
    forall xs: seq<Pair>, ys: seq<Pair> | xs != [] && ys != []
      ensures Summary(xs + ys) == CombineAny(Summary(xs), Summary(ys)) == Summary(ys + xs)
    {
      SummaryJoins(xs, ys);
      SummaryCommutes(xs, ys);
      SummaryCount(xs);
    }
  }
}
