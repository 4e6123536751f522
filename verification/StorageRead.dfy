/** Storage plans: a bounded request becomes constant-stride runs grouped by block,
    without decoding every element. */
module StorageRead {
  import opened Radix
  import opened Wrappers
  import opened Request
  import opened Progressions
  import opened Mapping
  import opened Geometry
  import opened Runs

  /** Runs by block, in output order. */
  type Groups = map<nat, seq<Run>>

  function RunsOf(groups: Groups, b: nat): seq<Run> {
    if b in groups then groups[b] else []
  }

  /** Block `b` holds exactly the outputs located in it, as nonempty runs. */
  ghost predicate AgreesAt(groups: Groups, want: seq<Position>, b: nat) {
    && Expand(RunsOf(groups, b)) == Picks(want, b)
    && (b in groups <==> Picks(want, b) != [])
    && forall i :: 0 <= i < |RunsOf(groups, b)| ==> RunsOf(groups, b)[i].len > 0
  }

  /** The plan agrees with resolving and locating every coordinate on its own. */
  ghost predicate Agrees(groups: Groups, want: seq<Position>) {
    forall b: nat :: AgreesAt(groups, want, b)
  }

  // ---------------------------------------------------------------------
  // One stretch of a progression inside one block
  // ---------------------------------------------------------------------

  function Sign(step: int): int {
    if step < 0 then -1 else if step == 0 then 0 else 1
  }

  function Magnitude(step: int): nat {
    if step < 0 then -step else step
  }

  /** The part of an axis that shares a block with coordinate `c`. */
  function LowOf(c: nat, b: nat): nat
    requires b > 0
  {
    MulMonotone(0, c / b, b);
    c / b * b
  }

  function HighOf(c: nat, b: nat, dim: nat): int
    requires b > 0
  {
    LowOf(c, b) + Min(b - 1, dim - 1 - LowOf(c, b))
  }

  /** How far an axis can move in the direction of `step` without leaving its block. */
  function RoomOf(c: nat, b: nat, dim: nat, step: int): int
    requires b > 0
  {
    if step < 0 then c - LowOf(c, b) else HighOf(c, b, dim) - c
  }

  lemma RoomNonnegative(c: nat, b: nat, dim: nat, step: int)
    requires b > 0 && c < dim
    ensures 0 <= RoomOf(c, b, dim, step) < b
    ensures LowOf(c, b) <= c <= HighOf(c, b, dim)
  {
    assert c == LowOf(c, b) + c % b;
  }

  /** Inside the room, the quotient is unchanged and the remainder moves with the coordinate. */
  lemma RoomKeepsBlock(c: nat, b: nat, dim: nat, step: int, move: nat, d: int, y: int)
    requires b > 0 && c < dim && move <= RoomOf(c, b, dim, step)
    requires d == Sign(step) * move && y == c + d
    ensures 0 <= y < dim && y / b == c / b && y % b == c % b + d
  {
    assert c == LowOf(c, b) + c % b;
    DivUnique(c / b, c % b + d, b);
  }

  /** Steps of size `delta` fit the room exactly up to its quotient. */
  lemma StepsFitRoom(room: nat, delta: nat, k: nat)
    requires delta > 0
    ensures k <= room / delta <==> k * delta <= room
  {
    assert room == (room / delta) * delta + room % delta;
    if k <= room / delta {
      MulMonotone(k, room / delta, delta);
    } else {
      MulMonotone(room / delta + 1, k, delta);
      assert (room / delta + 1) * delta == (room / delta) * delta + delta;
    }
  }

  /** Axis `i` can take `k` steps without leaving its block. */
  predicate Reaches(g: Storage, c: Coord, delta: Coord, step: int, i: nat, k: int)
    requires g.Valid() && |c| == |delta| == |g.shape| && i < |c|
  {
    k * delta[i] <= RoomOf(c[i], g.block[i], g.shape[i], step)
  }

  /** The first `n` axes can all take `k` steps. */
  predicate AllReach(g: Storage, c: Coord, delta: Coord, step: int, n: nat, k: int)
    requires g.Valid() && |c| == |delta| == |g.shape| && n <= |c|
  {
    forall i :: 0 <= i < n ==> Reaches(g, c, delta, step, i, k)
  }

  lemma ReachesFewer(g: Storage, c: Coord, delta: Coord, step: int, i: nat, k: int, n: int)
    requires g.Valid() && |c| == |delta| == |g.shape| && i < |c|
    requires k <= n && Reaches(g, c, delta, step, i, n)
    ensures Reaches(g, c, delta, step, i, k)
  {
    MulMonotone(k, n, delta[i]);
  }

  lemma AllReachFewer(g: Storage, c: Coord, delta: Coord, step: int, n: nat, k: int, m: int)
    requires g.Valid() && |c| == |delta| == |g.shape| && n <= |c|
    requires k <= m && AllReach(g, c, delta, step, n, m)
    ensures AllReach(g, c, delta, step, n, k)
  {
    forall i | 0 <= i < n ensures Reaches(g, c, delta, step, i, k) {
      ReachesFewer(g, c, delta, step, i, k, m);
    }
  }

  /** The steps one axis allows, clipped to `limit`. */
  method ClipAxis(g: Storage, c: Coord, delta: Coord, step: int, i: nat, limit: nat) returns (count: nat)
    requires g.Valid() && InShape(c, g.shape) && |delta| == |c| && i < |c| && limit > 0
    ensures 0 < count <= limit
    ensures Reaches(g, c, delta, step, i, count - 1)
    ensures count < limit ==> !Reaches(g, c, delta, step, i, count)
  {
    RoomNonnegative(c[i], g.block[i], g.shape[i], step);
    var room: nat := RoomOf(c[i], g.block[i], g.shape[i], step);
    count := limit;
    if delta[i] > 0 {
      count := Min(limit, room / delta[i] + 1);
      StepsFitRoom(room, delta[i], count);
      StepsFitRoom(room, delta[i], count - 1);
    }
  }

  /** The longest stretch, up to `limit`, that stays inside the block, and its offset stride. */
  method Stretch(g: Storage, c: Coord, delta: Coord, step: int, limit: nat) returns (count: nat, stride: int)
    requires g.Valid() && InShape(c, g.shape) && |delta| == |c| && limit > 0
    ensures 0 < count <= limit
    ensures AllReach(g, c, delta, step, |c|, count - 1)
    ensures stride == Sign(step) * Dot(delta, g.blockStrides)
    ensures count < limit ==> exists i :: 0 <= i < |c| && !Reaches(g, c, delta, step, i, count)
  {
    hide Reaches;
    count := limit;
    stride := 0;
    for i := 0 to |c|
      invariant 0 < count <= limit
      invariant AllReach(g, c, delta, step, i, count - 1)
      invariant stride == Sign(step) * Dot(delta[..i], g.blockStrides[..i])
      invariant count < limit ==> exists j :: 0 <= j < i && !Reaches(g, c, delta, step, j, count)
    {
      var fewer := ClipAxis(g, c, delta, step, i, count);
      AllReachFewer(g, c, delta, step, i, fewer - 1, count - 1);
      count := fewer;
      DotNext(delta, g.blockStrides, i);
      SignedTerm(Sign(step), Dot(delta[..i], g.blockStrides[..i]), delta[i], g.blockStrides[i]);
      stride := stride + delta[i] * g.blockStrides[i] * Sign(step);
    }
    assert delta[..|c|] == delta && g.blockStrides[..|c|] == g.blockStrides;
  }

  lemma SignedTerm(sign: int, sum: int, d: int, s: int)
    ensures sign * (sum + d * s) == sign * sum + d * s * sign
  {}

  // ---------------------------------------------------------------------
  // Why a stretch is one run
  // ---------------------------------------------------------------------

  lemma AxisMove(g: Storage, c: Coord, delta: Coord, step: int, k: nat, i: nat, s: int, y: int)
    requires g.Valid() && InShape(c, g.shape) && |delta| == |c| && i < |c|
    requires Reaches(g, c, delta, step, i, k)
    requires s == Sign(step) * k && y == c[i] + s * delta[i]
    ensures 0 <= y < g.shape[i] && y / g.block[i] == c[i] / g.block[i]
    ensures y % g.block[i] == c[i] % g.block[i] + s * delta[i]
  {
    hide RoomOf;
    MulMonotone(0, k, delta[i]);
    SignedMove(Sign(step), k, delta[i], s);
    RoomKeepsBlock(c[i], g.block[i], g.shape[i], step, k * delta[i], s * delta[i], y);
  }

  lemma SignedMove(sign: int, k: int, d: int, s: int)
    requires s == sign * k
    ensures s * d == sign * (k * d)
  {}

  lemma StretchInside(g: Storage, c: Coord, delta: Coord, step: int, k: nat, s: int, y: seq<int>)
    requires g.Valid() && InShape(c, g.shape) && |delta| == |c|
    requires AllReach(g, c, delta, step, |c|, k)
    requires s == Sign(step) * k && y == Advance(c, delta, s)
    ensures IntInShape(y, g.shape)
  {
    hide Reaches, Sign;
    forall i | 0 <= i < |c| ensures 0 <= y[i] < g.shape[i] {
      AxisMove(g, c, delta, step, k, i, s, y[i]);
    }
  }

  lemma StretchCoordinate(g: Storage, c: Coord, delta: Coord, step: int, k: nat, s: int, y: Coord)
    requires g.Valid() && InShape(c, g.shape) && |delta| == |c|
    requires AllReach(g, c, delta, step, |c|, k)
    requires s == Sign(step) * k && y == Advance(c, delta, s)
    ensures Quotients(y, g.block) == Quotients(c, g.block)
    ensures Remainders(y, g.block) == Advance(Remainders(c, g.block), delta, s)
  {
    hide Reaches, Sign, Quotients, Remainders;
    forall i | 0 <= i < |c|
      ensures Quotients(y, g.block)[i] == Quotients(c, g.block)[i]
      ensures Remainders(y, g.block)[i] == Advance(Remainders(c, g.block), delta, s)[i]
    {
      AxisMove(g, c, delta, step, k, i, s, y[i]);
    }
  }

  /** Step `k` of a stretch stays in the block, `k` offset strides further. */
  lemma StretchPosition(g: Storage, c: Coord, delta: Coord, step: int, k: nat, s: int, flat: int)
    requires g.Valid() && InShape(c, g.shape) && |delta| == |c|
    requires AllReach(g, c, delta, step, |c|, k)
    requires s == Sign(step) * k && flat == Flat(c, g.shape) + s * Flat(delta, g.shape)
    ensures 0 <= flat < Size(g.shape)
    ensures g.At(Decode(flat, g.shape)).block == g.At(c).block
    ensures g.At(Decode(flat, g.shape)).offset == g.At(c).offset + s * Dot(delta, g.blockStrides)
  {
    hide AllReach, Flat, Decode, Dot, Sign, Strides, Size;
    var z := Advance(c, delta, s);
    StretchInside(g, c, delta, step, k, s, z);
    var y := AsCoord(z);
    StretchCoordinate(g, c, delta, step, k, s, y);
    var r := Remainders(c, g.block);
    FlatAdvance(c, delta, s, y, g.shape);
    FlatAdvance(r, delta, s, Remainders(y, g.block), g.block);
    FlatIsDot(delta, g.block);
    FlatBound(y, g.shape);
    DecodeOfFlat(y, g.shape);
  }

  lemma FlatAdvance(c: Coord, delta: Coord, s: int, y: Coord, shape: seq<nat>)
    requires |c| == |delta| == |shape| && y == Advance(c, delta, s)
    ensures Flat(y, shape) == Flat(c, shape) + s * Flat(delta, shape)
  {
    FlatIsDot(c, shape);
    FlatIsDot(y, shape);
    FlatIsDot(delta, shape);
    DotAdvance(c, delta, s, Strides(shape));
  }

  // ---------------------------------------------------------------------
  // Splitting progressions
  // ---------------------------------------------------------------------

  /** The position of every flat address, resolved one at a time. */
  function Located(g: Storage, flats: seq<int>): (p: seq<Position>)
    requires g.Valid()
    ensures |p| == |flats|
    ensures forall i :: 0 <= i < |p| ==> p[i] == g.At(Decode(Max(0, flats[i]), g.shape))
  {
    seq(|flats|, i requires 0 <= i < |flats| => g.At(Decode(Max(0, flats[i]), g.shape)))
  }

  /** The digits of a step, as the planner computes them per axis. */
  method StepDigits(magnitude: nat, g: Storage) returns (delta: Coord)
    requires g.Valid()
    ensures delta == Decode(magnitude, g.shape)
  {
    StridesPositive(g.shape);
    delta := [];
    for i := 0 to |g.shape|
      invariant |delta| == i && forall k :: 0 <= k < i ==> delta[k] == Decode(magnitude, g.shape)[k]
    {
      DecodeAt(magnitude, g.shape, i);
      delta := delta + [magnitude / g.strides[i] % g.shape[i]];
    }
  }

  /** The digits describe the step of every progression longer than one element. */
  ghost predicate StepOf(g: Storage, p: Progression, delta: Coord)
    requires g.Valid()
  {
    && |delta| == |g.shape|
    && Flat(delta, g.shape) == if p.len == 1 then 0 else Magnitude(p.step)
  }

  lemma StepDigitsDescribe(g: Storage, p: Progression, delta: Coord)
    requires g.Valid() && p.Within(Size(g.shape))
    requires delta == Decode(if p.len == 1 then 0 else Magnitude(p.step), g.shape)
    ensures StepOf(g, p, delta)
    ensures p.len > 1 ==> Magnitude(p.step) < Size(g.shape)
  {
    SizePositive(g.shape);
    if p.len > 1 {
      WithinAll(p, Size(g.shape), 1);
    }
    FlatOfDecodeInside(if p.len == 1 then 0 else Magnitude(p.step), g.shape);
  }

  lemma SignMagnitude(step: int)
    ensures Sign(step) * Magnitude(step) == step
  {}

  /** Address `k0 + i` of a progression, from the coordinate of address `k0`. */
  lemma StretchAddress(g: Storage, p: Progression, k0: nat, i: nat, c: Coord, delta: Coord, s: int)
    requires g.Valid() && p.Within(Size(g.shape)) && StepOf(g, p, delta) && k0 + i < p.len
    requires |c| == |g.shape| && Flat(c, g.shape) == p.At(k0) && s == Sign(p.step) * i
    ensures p.At(k0 + i) == Flat(c, g.shape) + s * Flat(delta, g.shape)
  {
    MulAdd(k0, i, p.step, k0 + i);
    if p.len > 1 {
      SignMagnitude(p.step);
      SignedMove(Sign(p.step), i, Magnitude(p.step), s);
      MulRotate(Sign(p.step), Magnitude(p.step), i, s);
    }
  }

  /** A stretch is one validated run holding the positions of its addresses. */
  lemma StretchRun(g: Storage, p: Progression, k0: nat, c: Coord, delta: Coord, count: nat, stride: int, run: Run)
    requires g.Valid() && p.Within(Size(g.shape)) && StepOf(g, p, delta) && |delta| == |g.shape|
    requires 0 < count && k0 + count <= p.len
    requires InShape(c, g.shape) && Flat(c, g.shape) == p.At(k0)
    requires AllReach(g, c, delta, p.step, |c|, count - 1)
    requires stride == Sign(p.step) * Dot(delta, g.blockStrides)
    requires run.offset == g.At(c).offset && run.len == count && run.stride == if count == 1 then 0 else stride
    ensures forall i :: 0 <= i < count ==> 0 <= run.At(i) < g.BlockLen()
    ensures Positions(g.At(c).block, run, count) == Located(g, p.Flats())[k0..k0 + count]
  {
    hide AllReach, Flat, Decode, Dot, StepOf, Progression.At, Progression.Within, Sign, Run.At, Size, Storage.At;
    forall i | 0 <= i < count
      ensures 0 <= run.At(i) < g.BlockLen()
      ensures Located(g, p.Flats())[k0 + i] == Position(g.At(c).block, run.At(i))
    {
      StretchRunAt(g, p, k0, c, delta, count, stride, run, i);
    }
  }

  lemma StretchRunAt(g: Storage, p: Progression, k0: nat, c: Coord, delta: Coord, count: nat, stride: int, run: Run,
                     i: nat)
    requires g.Valid() && p.Within(Size(g.shape)) && StepOf(g, p, delta) && |delta| == |g.shape|
    requires i < count && k0 + count <= p.len
    requires InShape(c, g.shape) && Flat(c, g.shape) == p.At(k0)
    requires AllReach(g, c, delta, p.step, |c|, count - 1)
    requires stride == Sign(p.step) * Dot(delta, g.blockStrides)
    requires run.offset == g.At(c).offset && run.stride == if count == 1 then 0 else stride
    ensures 0 <= run.At(i) < g.BlockLen()
    ensures Located(g, p.Flats())[k0 + i] == Position(g.At(c).block, run.At(i))
  {
    hide AllReach, Flat, Decode, Dot, StepOf, Progression.At, Progression.Within, Sign, Storage.At, Size;
    var s, f := Sign(p.step) * i, p.At(k0 + i);
    AllReachFewer(g, c, delta, p.step, |c|, i, count - 1);
    StretchAddress(g, p, k0, i, c, delta, s);
    StretchPosition(g, c, delta, p.step, i, s, f);
    FlatOfDecodeInside(f, g.shape);
    AtInside(g, Decode(f, g.shape));
    RunOffset(Sign(p.step), i, Dot(delta, g.blockStrides), s, stride, count, run.stride);
    assert p.Flats()[k0 + i] == f;
  }

  lemma RunOffset(sign: int, i: nat, d: int, s: int, stride: int, count: nat, used: int)
    requires s == sign * i && stride == sign * d && i < count
    requires used == if count == 1 then 0 else stride
    ensures s * d == i * used
  {
    if count > 1 {
      MulRotate(sign, d, i, s);
    }
  }

  /** A stretch of several elements has an offset stride far inside `i64`. */
  lemma StrideSmall(g: Storage, c: Coord, delta: Coord, step: int, count: nat)
    requires g.Valid() && InShape(c, g.shape) && |delta| == |c| && count > 1
    requires AllReach(g, c, delta, step, |c|, count - 1)
    ensures 0 <= Dot(delta, g.blockStrides) < MAX_BLOCK_CAPACITY
  {
    forall i | 0 <= i < |delta| ensures delta[i] < g.block[i] {
      assert Reaches(g, c, delta, step, i, count - 1);
      RoomNonnegative(c[i], g.block[i], g.shape[i], step);
      MulMonotone(1, count - 1, delta[i]);
    }
    FlatIsDot(delta, g.block);
    FlatBound(delta, g.block);
  }

  // ---------------------------------------------------------------------
  // Agreement with the reference
  // ---------------------------------------------------------------------

  lemma AgreesEmpty()
    ensures Agrees(map[], [])
  {}

  /** Pushing a run onto its block's list extends the agreement by the run's positions. */
  lemma AgreesRun(groups: Groups, want: seq<Position>, key: nat, run: Run, pushed: seq<Run>)
    requires Agrees(groups, want)
    requires run.len > 0 && run.output == |want| && forall i :: 0 <= i < run.len ==> run.At(i) >= 0
    requires Expand(pushed) == Expand(RunsOf(groups, key)) + run.Points()
    requires forall i :: 0 <= i < |pushed| ==> pushed[i].len > 0
    ensures Agrees(groups[key := pushed], want + Positions(key, run, run.len))
  {
    hide AgreesAt;
    var next, more := groups[key := pushed], want + Positions(key, run, run.len);
    forall b: nat ensures AgreesAt(next, more, b) {
      AgreesRunAt(groups, want, key, run, pushed, b);
    }
  }

  lemma AgreesRunAt(groups: Groups, want: seq<Position>, key: nat, run: Run, pushed: seq<Run>, b: nat)
    requires AgreesAt(groups, want, key) && AgreesAt(groups, want, b)
    requires run.len > 0 && run.output == |want| && forall i :: 0 <= i < run.len ==> run.At(i) >= 0
    requires Expand(pushed) == Expand(RunsOf(groups, key)) + run.Points()
    requires forall i :: 0 <= i < |pushed| ==> pushed[i].len > 0
    ensures AgreesAt(groups[key := pushed], want + Positions(key, run, run.len), b)
  {
    hide Run.At, Expand, Picks;
    PicksRun(want, key, run, b, run.len);
    assert run.Points()[..run.len] == run.Points();
    if b != key {
      assert RunsOf(groups[key := pushed], b) == RunsOf(groups, b);
      assert Picks(want, b) + [] == Picks(want, b);
    }
  }

  /** The planner's mutable state: grouped runs and the number of outputs covered. */
  class Planner {
    const g: Storage
    const length: nat
    var groups: Groups
    var end: nat
    ghost var done: seq<Position>

    ghost predicate Valid()
      reads this
    {
      g.Valid() && end == |done| && Agrees(groups, done)
    }

    constructor (g: Storage, length: nat)
      requires g.Valid()
      ensures Valid() && this.g == g && this.length == length && done == []
    {
      this.g := g;
      this.length := length;
      groups := map[];
      end := 0;
      done := [];
      new;
      AgreesEmpty();
    }

    /** Record one run after validating it; outputs must be consecutive. */
    method Emit(key: nat, run: Run) returns (r: Outcome)
      requires Valid()
      modifies this
      ensures Valid()
      ensures r.Pass? <==> run.Fits(g.BlockLen(), length) && run.output == |old(done)|
      ensures r.Pass? ==> forall i :: 0 <= i < run.len ==> run.At(i) >= 0
      ensures r.Pass? ==> done == old(done) + Positions(key, run, run.len)
      ensures r.Fail? ==> done == old(done) && groups == old(groups)
    {
      hide Run.At, Expand, Picks, Agrees;
      if !run.Fits(g.BlockLen(), length) || run.output != end {
        return Fail(InvalidLayout);
      }
      forall i | 0 <= i < run.len ensures run.At(i) >= 0 {
        FitsAll(run, g.BlockLen(), length, i);
      }
      AgreesRuns(groups, done, key);
      var pushed := PushRun(RunsOf(groups, key), run);
      AgreesRun(groups, done, key, run, pushed);
      groups := groups[key := pushed];
      end := end + run.len;
      done := done + Positions(key, run, run.len);
      return Pass;
    }

    /** The next stretch of a progression: one boundary decode, one run. */
    method SplitOnce(p: Progression, delta: Coord, k0: nat) returns (r: Outcome, count: nat)
      requires Valid() && p.Within(Size(g.shape)) && StepOf(g, p, delta) && |delta| == |g.shape|
      requires k0 < p.len && p.output + k0 == end && p.output + p.len <= length
      modifies this
      ensures Valid() && r.Pass?
      ensures 0 < count <= p.len - k0 && end == old(end) + count
      ensures done == old(done) + Located(g, p.Flats())[k0..k0 + count]
    {
      hide Run.At, Flat, Decode, Dot, Progression.At, Progression.Within, Sign, AllReach, Agrees, Expand, Picks,
           StepOf, Size, Storage.At;
      WithinAll(p, Size(g.shape), k0);
      var decoded := DecodeFlat(p.At(k0), g.shape);
      GridPositive(g);
      var coord := decoded.value;
      FlatOfDecodeInside(p.At(k0), g.shape);
      var stride: int;
      count, stride := Stretch(g, coord, delta, p.step, p.len - k0);
      AtInside(g, coord);
      if count > 1 {
        SmallStride(g, coord, delta, p.step, count, stride);
        if !(-0x8000_0000_0000_0000 <= stride < 0x8000_0000_0000_0000) {
          return Fail(InvalidLayout), count;
        }
      }
      var position := g.At(coord);
      var run := Run(p.output + k0, position.offset, if count == 1 then 0 else stride, count);
      StretchRun(g, p, k0, coord, delta, count, stride, run);
      RunFits(run, g.BlockLen(), length);
      r := Emit(position.block, run);
    }

    /** `split`: cut a progression at block boundaries and coordinate carries. */
    method Split(p: Progression) returns (r: Outcome)
      requires Valid()
      requires p.output == end && p.output + p.len <= length
      modifies this
      ensures Valid()
      ensures r.Pass? <==> p.len == 0 || p.Within(Size(g.shape))
      ensures r.Pass? ==> done == old(done) + Located(g, p.Flats())
    {
      hide Run.At, Flat, Decode, Agrees, Expand, Picks, StepOf, Size, Storage.At, Located;
      if p.len == 0 {
        assert Located(g, p.Flats()) == [];
        return Pass;
      }
      var last := p.start + p.step * (p.len - 1);
      if !InI128(p.step * (p.len - 1)) || !InI128(last) || Min(p.start, last) < 0 || Max(p.start, last) >= Size(g.shape) {
        return Fail(InvalidCoord);
      }
      var delta := StepDigits(if p.len == 1 then 0 else Magnitude(p.step), g);
      StepDigitsDescribe(g, p, delta);
      ghost var all := Located(g, p.Flats());
      var k := 0;
      while k < p.len
        invariant Valid() && 0 <= k <= p.len && end == p.output + k
        invariant done == old(done) + all[..k]
      {
        var step, count := SplitOnce(p, delta, k);
        assert all[..k + count] == all[..k] + all[k..k + count];
        k := k + count;
      }
      assert all[..p.len] == all;
      return Pass;
    }
  }

  lemma SmallStride(g: Storage, c: Coord, delta: Coord, step: int, count: nat, stride: int)
    requires g.Valid() && InShape(c, g.shape) && |delta| == |c| && count > 1
    requires AllReach(g, c, delta, step, |c|, count - 1)
    requires stride == Sign(step) * Dot(delta, g.blockStrides)
    ensures -4096 < stride < 4096
  {
    hide Dot, AllReach;
    StrideSmall(g, c, delta, step, count);
  }

  lemma RunFits(run: Run, blockLen: nat, length: nat)
    requires run.len > 0 && run.output + run.len <= length
    requires forall i :: 0 <= i < run.len ==> 0 <= run.At(i) < blockLen
    ensures run.Fits(blockLen, length)
  {
    assert run.At(0) == run.offset;
  }

  lemma AgreesRuns(groups: Groups, want: seq<Position>, key: nat)
    requires Agrees(groups, want)
    ensures forall i :: 0 <= i < |RunsOf(groups, key)| ==> RunsOf(groups, key)[i].len > 0
  {
    assert AgreesAt(groups, want, key);
  }

  // ---------------------------------------------------------------------
  // Planning a request
  // ---------------------------------------------------------------------

  function ViewShape(g: Storage, mapping: Option<CoordinateMap>): seq<nat> {
    if mapping.Some? then mapping.value.shape else g.shape
  }

  /** The reference: the flat base offset of every requested coordinate, in order. */
  ghost function Offsets(g: Storage, mapping: Option<CoordinateMap>, request: BatchRequest): (o: seq<int>)
    requires g.Valid() && (mapping.Some? ==> mapping.value.Valid())
    requires request.Valid(ViewShape(g, mapping))
    ensures |o| == request.len
    ensures forall i :: 0 <= i < |o| ==>
              var c := request.Coords(ViewShape(g, mapping))[i];
              InShape(c, ViewShape(g, mapping))
              && o[i] == if mapping.Some? then mapping.value.Offset(c) else Flat(c, g.shape)
  {
    var shape := ViewShape(g, mapping);
    RequestInside(request, shape);
    var coords := request.Coords(shape);
    seq(request.len, i requires 0 <= i < request.len =>
      if mapping.Some? then mapping.value.Offset(coords[i]) else Flat(coords[i], g.shape))
  }

  /** Runs whose addresses are all in the base are all within it. */
  lemma RunsWithin(runs: seq<Progression>, size: nat, i: nat)
    requires Chained(runs) && InBase(Flats(runs), size) && i < |runs|
    ensures runs[i].Within(size)
  {
    FlatsAt(runs, i, 0);
    FlatsAt(runs, i, runs[i].len - 1);
  }

  /** Split every run of a chained list in turn. */
  method SplitAll(planner: Planner, runs: seq<Progression>) returns (r: Outcome)
    requires planner.Valid() && planner.end == 0 && Chained(runs) && |Flats(runs)| <= planner.length
    modifies planner
    ensures planner.Valid()
    ensures r.Pass? ==> planner.done == Located(planner.g, Flats(runs)) && InBase(Flats(runs), Size(planner.g.shape))
    ensures InBase(Flats(runs), Size(planner.g.shape)) ==> r.Pass?
  {
    hide Agrees, Located, Storage.At, Progression.At, Flats, Chained, Progression.Within, Size;
    ghost var size := Size(planner.g.shape);
    SplitAllStart(planner.g, runs);
    for i := 0 to |runs|
      invariant planner.Valid()
      invariant planner.done == Located(planner.g, Flats(runs[..i]))
      invariant InBase(Flats(runs[..i]), size)
    {
      SplitAllNext(runs, i, size);
      LocatedConcat(planner.g, Flats(runs[..i]), runs[i].Flats());
      var step := planner.Split(runs[i]);
      if step.Fail? {
        return step;
      }
      assert runs[i].len > 0;
      WithinBase(runs[i], size);
    }
    assert runs[..|runs|] == runs;
    return Pass;
  }

  lemma SplitAllStart(g: Storage, runs: seq<Progression>)
    requires g.Valid()
    ensures Flats(runs[..0]) == [] && Located(g, []) == []
  {}

  lemma SplitAllNext(runs: seq<Progression>, i: nat, size: nat)
    requires Chained(runs) && i < |runs|
    ensures runs[i].len > 0 && runs[i].output == |Flats(runs[..i])|
    ensures Flats(runs[..i + 1]) == Flats(runs[..i]) + runs[i].Flats()
    ensures |Flats(runs[..i + 1])| <= |Flats(runs)|
    ensures InBase(Flats(runs), size) ==> runs[i].Within(size)
    ensures |Flats(runs[..i])| + runs[i].len <= |Flats(runs)|
  {
    hide Progression.At, Progression.Within;
    assert runs[..i + 1] == runs[..i] + [runs[i]];
    FlatsSnoc(runs[..i], runs[i]);
    FlatsLengthMonotone(runs, i + 1);
    if InBase(Flats(runs), size) {
      RunsWithin(runs, size, i);
    }
  }

  lemma LocatedConcat(g: Storage, a: seq<int>, b: seq<int>)
    requires g.Valid()
    ensures Located(g, a + b) == Located(g, a) + Located(g, b)
  {}

  /** The only requests whose planning can overflow: a stepped interval of one element
      on the varying axis, whose scaled step leaves `i128`. */
  predicate Plannable(g: Storage, mapping: Option<CoordinateMap>, request: BatchRequest) {
    var affine := mapping.None? || IsAffine(mapping.value);
    var strides := if mapping.Some? then AffineStrides(mapping.value) else g.strides;
    request.kind.Rectangles? && affine ==> StepsFit(request.kind.rects, strides)
  }

  /** A run takes output `p` from block `b`, at the offset where it is located. */
  predicate CopiesFrom(run: Run, want: seq<Position>, b: nat, p: int) {
    0 <= p < |want| && want[p].block == b && want[p].offset == run.offset + (p - run.output) * run.stride
  }

  /** What grouped runs say, run by run: each holds positions of its block, no output is in two runs of a
      block, and every output is in a run of the block it is located in. */
  lemma GroupsCover(groups: Groups, want: seq<Position>)
    requires Agrees(groups, want)
    ensures forall b: nat, i, p :: b in groups && 0 <= i < |groups[b]| && 0 <= p - groups[b][i].output < groups[b][i].len ==>
              CopiesFrom(groups[b][i], want, b, p)
    ensures forall b: nat, i, j :: b in groups && 0 <= i < j < |groups[b]| ==>
              groups[b][i].output + groups[b][i].len <= groups[b][j].output
    ensures forall p :: 0 <= p < |want| ==> want[p].block in groups && InSomeRun(groups[want[p].block], p)
  {
    hide Expand, Picks, Run.At;
    forall b: nat, i, p | b in groups && 0 <= i < |groups[b]| && 0 <= p - groups[b][i].output < groups[b][i].len
      ensures CopiesFrom(groups[b][i], want, b, p)
    {
      assert AgreesAt(groups, want, b);
      GroupedPoint(groups, want, b, i, p - groups[b][i].output);
    }
    forall b: nat, i, j | b in groups && 0 <= i < j < |groups[b]|
      ensures groups[b][i].output + groups[b][i].len <= groups[b][j].output
    {
      assert AgreesAt(groups, want, b);
      GroupedOrder(groups, want, b, i, j);
    }
    forall p | 0 <= p < |want| ensures want[p].block in groups && InSomeRun(groups[want[p].block], p) {
      var b := want[p].block;
      assert AgreesAt(groups, want, b);
      PickOf(want, b, p);
      assert b in groups;
      var i, k := ExpandHas(groups[b], (p, want[p].offset));
    }
  }

  predicate InSomeRun(runs: seq<Run>, p: int) {
    exists i :: 0 <= i < |runs| && runs[i].output <= p < runs[i].output + runs[i].len
  }

  lemma GroupedPoint(groups: Groups, want: seq<Position>, b: nat, i: nat, k: nat)
    requires AgreesAt(groups, want, b) && b in groups && i < |groups[b]| && k < groups[b][i].len
    ensures var run := groups[b][i];
            run.output + k < |want| && want[run.output + k].block == b && want[run.output + k].offset == run.offset + k * run.stride
  {
    var run := groups[b][i];
    ExpandAt(groups[b], i, k);
    assert (run.output + k, run.At(k)) in Picks(want, b);
    if want != [] {
      PickOf(want, b, 0);
    }
  }

  lemma GroupedOrder(groups: Groups, want: seq<Position>, b: nat, i: nat, j: nat)
    requires AgreesAt(groups, want, b) && b in groups && i < j < |groups[b]|
    ensures groups[b][i].output + groups[b][i].len <= groups[b][j].output
  {
    hide Picks, Run.At;
    var runs := groups[b];
    assert runs[i].len > 0 && runs[j].len > 0;
    ExpandAt(runs, i, runs[i].len - 1);
    ExpandAt(runs, j, 0);
    ExpandLonger(runs, i, j);
    PicksAscend(want, b);
  }

  lemma {:induction false} ExpandLonger(runs: seq<Run>, i: nat, j: nat)
    requires i < j <= |runs|
    ensures |Expand(runs[..i])| + runs[i].len <= |Expand(runs[..j])|
    decreases j
  {
    assert runs[..j][..j - 1] == runs[..j - 1];
    if i < j - 1 {
      ExpandLonger(runs, i, j - 1);
    }
  }

  /** `plan`: group a request's storage positions into runs per block. */
  method Plan(g: Storage, mapping: Option<CoordinateMap>, request: BatchRequest) returns (r: Result<Groups>)
    requires g.Valid()
    requires mapping.Some? ==> mapping.value.Valid() && Positive(mapping.value.shape)
    ensures r.Ok? ==> request.Valid(ViewShape(g, mapping))
    ensures r.Ok? ==> InBase(Offsets(g, mapping, request), Size(g.shape))
    ensures r.Ok? ==> Agrees(r.value, Located(g, Offsets(g, mapping, request)))
    ensures request.Valid(ViewShape(g, mapping)) && GoodFor(g, mapping) ==> (r.Ok? <==> Plannable(g, mapping, request))
  {
    hide Agrees, Located, Storage.At, StepsFit, CoordinateMap.Offset;
    var shape := ViewShape(g, mapping);
    if !request.Valid(shape) {
      return Err(InvalidCoord);
    }
    ghost var want := Offsets(g, mapping, request);
    if GoodFor(g, mapping) {
      OffsetsInBase(g, mapping, request);
    }
    var planner := new Planner(g, request.len);
    var status: Outcome;
    if request.kind.FlatRuns? && (mapping.Some? ==> IsIdentity(mapping.value, g.shape)) {
      FlatRunOffsets(g, mapping, request);
      status := SplitAll(planner, request.kind.runs);
    } else if request.kind.Linear? || request.kind.Rectangles? {
      status := PlanCompact(planner, mapping, request);
    } else {
      status := PlanEach(planner, mapping, request);
    }
    if status.Fail? {
      return Err(status.error);
    }
    if planner.end != request.len {
      return Err(InvalidLayout);
    }
    return Ok(planner.groups);
  }

  ghost predicate GoodFor(g: Storage, mapping: Option<CoordinateMap>) {
    mapping.Some? ==> mapping.value.Good(Size(g.shape)) && |mapping.value.shape| <= MAX_RANK
  }

  lemma OffsetsInBase(g: Storage, mapping: Option<CoordinateMap>, request: BatchRequest)
    requires g.Valid() && GoodFor(g, mapping) && request.Valid(ViewShape(g, mapping))
    ensures InBase(Offsets(g, mapping, request), Size(g.shape))
  {
    var o := Offsets(g, mapping, request);
    forall i | 0 <= i < |o| ensures 0 <= o[i] < Size(g.shape) {
      var c := request.Coords(ViewShape(g, mapping))[i];
      if mapping.Some? {
        assert 0 <= mapping.value.Offset(c) < Size(g.shape);
      } else {
        FlatBound(c, g.shape);
      }
    }
  }

  lemma FlatRunOffsets(g: Storage, mapping: Option<CoordinateMap>, request: BatchRequest)
    requires g.Valid() && (mapping.Some? ==> mapping.value.Valid() && IsIdentity(mapping.value, g.shape))
    requires request.kind.FlatRuns? && request.Valid(g.shape)
    ensures Offsets(g, mapping, request) == Flats(request.kind.runs)
    ensures InBase(Flats(request.kind.runs), Size(g.shape))
  {
    var runs := request.kind.runs;
    FlatsInBase(runs, Size(g.shape));
    var o := Offsets(g, mapping, request);
    forall i | 0 <= i < |o| ensures o[i] == Flats(runs)[i] {
      var c := request.Coords(g.shape)[i];
      FlatOfDecodeInside(Flats(runs)[i], g.shape);
      if mapping.Some? {
        IdentityIs(mapping.value, g.shape, c);
      }
    }
  }

  /** Linear spans and rectangles: progressions for affine maps, else one by one. */
  method PlanCompact(planner: Planner, mapping: Option<CoordinateMap>, request: BatchRequest) returns (r: Outcome)
    requires planner.Valid() && planner.end == 0 && planner.length == request.len
    requires mapping.Some? ==> mapping.value.Valid() && Positive(mapping.value.shape)
    requires request.Valid(ViewShape(planner.g, mapping)) && (request.kind.Linear? || request.kind.Rectangles?)
    modifies planner
    ensures planner.Valid()
    ensures r.Pass? ==> InBase(Offsets(planner.g, mapping, request), Size(planner.g.shape))
    ensures r.Pass? ==> planner.done == Located(planner.g, Offsets(planner.g, mapping, request))
    ensures GoodFor(planner.g, mapping) ==> (r.Pass? <==> Plannable(planner.g, mapping, request))
  {
    hide Agrees, Located, Storage.At, StepsFit, CoordinateMap.Offset, Dot;
    var g, shape := planner.g, ViewShape(planner.g, mapping);
    var offset, strides: seq<int> := 0, g.strides;
    if mapping.Some? {
      var affine := Affine(mapping.value, Size(g.shape));
      if affine.Err? {
        return Fail(affine.error);
      }
      if affine.value.None? {
        r := PlanEach(planner, mapping, request);
        return;
      }
      offset, strides := affine.value.value.0, affine.value.value.1;
    }
    AffineAddresses(g, mapping, request, offset, strides);
    if GoodFor(g, mapping) {
      OffsetsInBase(g, mapping, request);
      AffineFits(g, mapping, offset, strides);
    }
    var runs := PlanProgressions(request, shape, offset, strides);
    if runs.Err? {
      return Fail(runs.error);
    }
    r := SplitAll(planner, runs.value);
  }

  lemma AffineAddresses(g: Storage, mapping: Option<CoordinateMap>, request: BatchRequest, offset: int,
                        strides: seq<int>)
    requires g.Valid() && (mapping.Some? ==> mapping.value.Valid())
    requires request.Valid(ViewShape(g, mapping)) && |strides| == |ViewShape(g, mapping)|
    requires mapping.None? ==> offset == 0 && strides == g.strides
    requires mapping.Some? ==> forall c: Coord :: InShape(c, mapping.value.shape) ==>
               mapping.value.Offset(c) == offset + Dot(c, strides)
    ensures AddressesOf(request, ViewShape(g, mapping), offset, strides) == Offsets(g, mapping, request)
  {
    var a, o := AddressesOf(request, ViewShape(g, mapping), offset, strides), Offsets(g, mapping, request);
    forall i | 0 <= i < |o| ensures a[i] == o[i] {
      if mapping.None? {
        FlatIsDot(request.Coords(g.shape)[i], g.shape);
      }
    }
  }

  lemma AffineFits(g: Storage, mapping: Option<CoordinateMap>, offset: int, strides: seq<int>)
    requires g.Valid() && (mapping.Some? ==> mapping.value.Valid()) && GoodFor(g, mapping)
    requires |strides| == |ViewShape(g, mapping)|
    requires mapping.None? ==> offset == 0 && strides == g.strides
    requires mapping.Some? ==> forall c: Coord :: InShape(c, mapping.value.shape) ==>
               mapping.value.Offset(c) == offset + Dot(c, strides)
    ensures AddressesFit(ViewShape(g, mapping), offset, strides)
  {
    forall c: Coord | InShape(c, ViewShape(g, mapping)) ensures 0 <= offset + Dot(c, strides) <= U64_MAX {
      if mapping.None? {
        FlatIsDot(c, g.shape);
        FlatBound(c, g.shape);
      } else {
        assert 0 <= mapping.value.Offset(c) < Size(g.shape);
      }
    }
  }

  /** The general path: resolve every coordinate and coalesce single-element runs. */
  method PlanEach(planner: Planner, mapping: Option<CoordinateMap>, request: BatchRequest) returns (r: Outcome)
    requires planner.Valid() && planner.end == 0 && planner.length == request.len
    requires mapping.Some? ==> mapping.value.Valid() && Positive(mapping.value.shape)
    requires request.Valid(ViewShape(planner.g, mapping))
    modifies planner
    ensures planner.Valid()
    ensures r.Pass? ==> InBase(Offsets(planner.g, mapping, request), Size(planner.g.shape))
    ensures r.Pass? ==> planner.done == Located(planner.g, Offsets(planner.g, mapping, request))
    ensures GoodFor(planner.g, mapping) ==> r.Pass?
  {
    hide Agrees, Located, CoordinateMap.Offset, Flat, Size, BatchRequest.Valid, BatchRequest.Coords, Tracks,
         Storage.At, InBase;
    var g, shape := planner.g, ViewShape(planner.g, mapping);
    ghost var want := Offsets(g, mapping, request);
    assert want[..0] == [] && Located(g, []) == [];
    InBaseEmpty(Size(g.shape));
    var cursor := new Cursor(request, shape);
    var more, coord := cursor.NextInto();
    var output := 0;
    while more
      invariant planner.Valid() && cursor.Valid() && planner.end == output
      invariant 0 <= output <= request.len
      invariant cursor.position == if more then output + 1 else output
      invariant more ==> output < request.len && coord == request.Coords(shape)[output]
      invariant !more ==> output == request.len
      invariant planner.done == Located(g, want[..output]) && InBase(want[..output], Size(g.shape))
      decreases request.len - output
    {
      var step := PlanOne(planner, mapping, coord, output, want);
      if step.Fail? {
        return step;
      }
      output := output + 1;
      more, coord := cursor.NextInto();
    }
    assert want[..|want|] == want;
    return Pass;
  }

  lemma InBaseEmpty(size: nat)
    ensures InBase([], size)
  {}

  lemma InBaseNext(offsets: seq<int>, size: nat, k: nat)
    requires k < |offsets| && InBase(offsets[..k], size) && 0 <= offsets[k] < size
    ensures InBase(offsets[..k + 1], size)
  {}

  method PlanOne(planner: Planner, mapping: Option<CoordinateMap>, coord: Coord, output: nat, ghost want: seq<int>)
    returns (r: Outcome)
    requires planner.Valid() && planner.end == output < planner.length && output < |want|
    requires mapping.Some? ==> mapping.value.Valid()
    requires InShape(coord, ViewShape(planner.g, mapping))
    requires want[output] == if mapping.Some? then mapping.value.Offset(coord) else Flat(coord, planner.g.shape)
    requires planner.done == Located(planner.g, want[..output]) && InBase(want[..output], Size(planner.g.shape))
    modifies planner
    ensures planner.Valid()
    ensures r.Pass? ==> planner.end == output + 1
    ensures r.Pass? ==> planner.done == Located(planner.g, want[..output + 1])
    ensures r.Pass? ==> InBase(want[..output + 1], Size(planner.g.shape))
    ensures GoodFor(planner.g, mapping) ==> r.Pass?
  {
    hide Agrees, Located, CoordinateMap.Offset, Flat, Size, Storage.At, InBase;
    var base := ResolveOne(planner.g, mapping, coord, want[output]);
    if base.Err? {
      return Fail(base.error);
    }
    AtInside(planner.g, base.value);
    r := EmitOne(planner, planner.g.At(base.value), output);
    assert want[..output + 1] == want[..output] + [want[output]];
    LocatedConcat(planner.g, want[..output], [want[output]]);
    InBaseNext(want, Size(planner.g.shape), output);
  }

  method ResolveOne(g: Storage, mapping: Option<CoordinateMap>, coord: Coord,
                    ghost want: int) returns (r: Result<Coord>)
    requires g.Valid() && (mapping.Some? ==> mapping.value.Valid())
    requires InShape(coord, ViewShape(g, mapping))
    requires want == if mapping.Some? then mapping.value.Offset(coord) else Flat(coord, g.shape)
    ensures r.Ok? ==> 0 <= want < Size(g.shape) && InShape(r.value, g.shape)
    ensures r.Ok? ==> Located(g, [want]) == [g.At(r.value)]
    ensures GoodFor(g, mapping) ==> r.Ok?
  {
    if mapping.None? {
      FlatBound(coord, g.shape);
      DecodeOfFlat(coord, g.shape);
      return Ok(coord);
    }
    r := Resolve(mapping.value, coord, g.shape, g.strides);
    if r.Ok? {
      DecodeInShape(want, g.shape);
    }
  }

  method EmitOne(planner: Planner, position: Position, output: nat) returns (r: Outcome)
    requires planner.Valid() && planner.end == output < planner.length
    requires position.block < planner.g.BlockCount() && position.offset < planner.g.BlockLen()
    modifies planner
    ensures planner.Valid() && r.Pass?
    ensures planner.done == old(planner.done) + [position]
  {
    hide Agrees;
    var run := Run(output, position.offset, 0, 1);
    r := planner.Emit(position.block, run);
    assert Positions(position.block, run, 1) == [position];
  }

  // ---------------------------------------------------------------------
  // A valid request that cannot be planned
  // ---------------------------------------------------------------------

  /** A vector of 2^64 - 1 elements, in blocks of one. */
  function LongVector(): Storage {
    Storage([U64_MAX], [1], [1], [1], [U64_MAX], [1])
  }

  /** Its first and last elements: the slice of step 2^64 - 2. */
  function EndPoints(): CoordinateMap {
    CoordinateMap(0, [Stride(U64_MAX - 1)], [2])
  }

  /** Its first element, written with the largest step a one-element interval can carry. */
  function FirstElement(): BatchRequest {
    BatchRequest(Rectangles([Cartesian([Span(0, U64_MAX, 1)])]), 1)
  }

  /** The unused step is still scaled by the stride, and the product leaves `i128`. */
  lemma PlanCanFail()
    ensures LongVector().Valid() && EndPoints().Good(Size(LongVector().shape))
    ensures FirstElement().Valid(EndPoints().shape)
    ensures !Plannable(LongVector(), Some(EndPoints()), FirstElement())
  {
    LongVectorValid();
    EndPointsGood();
    var r := Cartesian([Span(0, U64_MAX, 1)]);
    assert Lens(r.axes) == [1] && Size([1]) == 1 * Size([]) == 1;
    assert RectCoords([r]) == RectCoords([]) + r.Coords();
    assert !SpanFits(r.axes[0], EndPoints().axes[0].stride);
    assert AffineStrides(EndPoints())[0] == U64_MAX - 1;
  }

  lemma LongVectorValid()
    ensures LongVector().Valid() && Size(LongVector().shape) == U64_MAX
  {
    var g := LongVector();
    OneAxis(U64_MAX);
    OneAxis(1);
    assert GridShape(g.shape, g.block) == [U64_MAX];
  }

  lemma OneAxis(n: nat)
    ensures Size([n]) == n && Strides([n]) == [1]
  {
    assert [n][1..] == [];
    assert Size([n]) == n * Size([]);
  }

  lemma EndPointsGood()
    ensures EndPoints().Good(U64_MAX)
  {
    var m := EndPoints();
    forall c: Coord | InShape(c, m.shape) ensures 0 <= m.Offset(c) < U64_MAX {
      assert m.Contributions(c) == [c[0] * (U64_MAX - 1)];
      assert Sum([c[0] * (U64_MAX - 1)]) == c[0] * (U64_MAX - 1);
    }
  }
}
