/** Mixed-radix index arithmetic shared by every planner.

    A shape lists dimensions from slowest to fastest. `Flat` is the row-major
    position of a coordinate, `Decode` the coordinate of a position; the rest of
    the project only reasons through the lemmas of this module. */
module Radix {

  /** The largest value of the source's `u64` and of its 64-bit `usize`. */
  const U64_MAX: nat := 0xFFFF_FFFF_FFFF_FFFF

  type Coord = seq<nat>

  function Min(a: int, b: int): int {
    if a <= b then a else b
  }

  function Max(a: int, b: int): int {
    if a <= b then b else a
  }

  function CeilDiv(a: nat, b: nat): nat
    requires b > 0
  {
    (a + b - 1) / b
  }

  // ---------------------------------------------------------------------
  // Euclidean division
  // ---------------------------------------------------------------------

  lemma MulMonotone(a: int, b: int, s: int)
    requires a <= b && 0 <= s
    ensures a * s <= b * s
  {
    assert b * s - a * s == (b - a) * s;
  }

  lemma MulShuffle(a: int, b: int, c: int, d: int)
    requires d == a * c
    ensures d * b == a * b * c
  {}

  lemma MulRotate(a: int, b: int, c: int, d: int)
    requires d == a * c
    ensures d * b == c * (a * b)
  {}

  lemma DivUnique(q: int, r: int, s: int)
    requires 0 <= r < s
    ensures (q * s + r) / s == q && (q * s + r) % s == r
  {
    var a := q * s + r;
    var d := a / s - q;
    assert a == (a / s) * s + a % s;
    assert d * s == r - a % s by {
      assert d * s == (a / s) * s - q * s;
    }
    if d >= 1 {
      MulMonotone(1, d, s);
    } else if d <= -1 {
      MulMonotone(d, -1, s);
    }
  }

  lemma DivMonotone(a: int, b: int, s: int)
    requires a <= b && 0 < s
    ensures a / s <= b / s
  {
    var d := b / s - a / s;
    assert a == (a / s) * s + a % s;
    assert b == (b / s) * s + b % s;
    assert d * s == (b / s) * s - (a / s) * s;
    if d <= -1 {
      MulMonotone(d, -1, s);
    }
  }

  lemma Regroup(u: int, v: int, r: int, b: int, c: int)
    ensures (u * c + v) * b + r == u * (c * b) + (v * b + r)
  {
    assert (u * c + v) * b == u * c * b + v * b;
    assert u * c * b == u * (c * b);
  }

  /** A larger leading digit outweighs any smaller remainder. */
  lemma Dominates(a: int, b: int, r: int, s: int)
    requires a < b && 0 <= r < s
    ensures a * s + r < b * s
  {
    MulMonotone(a + 1, b, s);
    assert (a + 1) * s == a * s + s;
  }

  /** Two nested remainders combine into one below the product of the divisors. */
  lemma Nest(u: int, v: int, r: int, b: int, c: int)
    requires 0 <= v < c && 0 <= r < b
    ensures 0 <= v * b + r < b * c
    ensures (u * c + v) * b + r == u * (b * c) + (v * b + r)
  {
    Regroup(u, v, r, b, c);
    MulMonotone(0, v, b);
    MulMonotone(v + 1, c, b);
    assert (v + 1) * b == v * b + b;
  }

  lemma DivDivOf(u: nat, v: nat, r: nat, b: nat, c: nat, q: nat, a: nat)
    requires v < c && r < b && q == u * c + v && a == q * b + r
    ensures b * c > 0
    ensures a / (b * c) == u && a % (b * c) == v * b + r
  {
    Nest(u, v, r, b, c);
    DivUnique(u, v * b + r, b * c);
  }

  /** Dividing twice is dividing by the product. */
  lemma DivDiv(a: nat, b: nat, c: nat)
    requires b > 0 && c > 0
    ensures b * c > 0
    ensures a / b / c == a / (b * c)
    ensures a % (b * c) == (a / b % c) * b + a % b
  {
    DivDivOf(a / b / c, a / b % c, a % b, b, c, a / b, a);
  }

  /** Rounded-up division answers "how many steps until the bound is reached". */
  lemma CeilDivBound(a: nat, b: nat, c: nat)
    requires b > 0
    ensures CeilDiv(a, b) <= c <==> a <= b * c
  {
    var n := a + b - 1;
    assert n == (n / b) * b + n % b;
    if CeilDiv(a, b) <= c {
      MulMonotone(n / b, c, b);
    } else {
      MulMonotone(c + 1, n / b, b);
      assert (c + 1) * b == b * c + b;
    }
  }

  // ---------------------------------------------------------------------
  // Shapes and row-major positions
  // ---------------------------------------------------------------------

  function Size(shape: seq<nat>): nat {
    if shape == [] then 1 else shape[0] * Size(shape[1..])
  }

  predicate Positive(shape: seq<nat>) {
    forall i :: 0 <= i < |shape| ==> shape[i] > 0
  }

  predicate InShape(c: Coord, shape: seq<nat>) {
    |c| == |shape| && forall i :: 0 <= i < |c| ==> c[i] < shape[i]
  }

  predicate IntInShape(c: seq<int>, shape: seq<nat>) {
    |c| == |shape| && forall i :: 0 <= i < |c| ==> 0 <= c[i] < shape[i]
  }

  /** A sequence of nonnegative integers as a coordinate. */
  function AsCoord(c: seq<int>): (d: Coord)
    requires forall i :: 0 <= i < |c| ==> c[i] >= 0
    ensures d == c
  {
    seq(|c|, i requires 0 <= i < |c| => c[i])
  }

  function Strides(shape: seq<nat>): (s: seq<nat>)
    ensures |s| == |shape|
  {
    if shape == [] then [] else [Size(shape[1..])] + Strides(shape[1..])
  }

  function Flat(c: Coord, shape: seq<nat>): nat
    requires |c| == |shape|
  {
    if shape == [] then 0 else c[0] * Size(shape[1..]) + Flat(c[1..], shape[1..])
  }

  function Decode(flat: nat, shape: seq<nat>): (c: Coord)
    requires Positive(shape)
    ensures |c| == |shape|
    decreases |shape|
  {
    if shape == [] then []
    else
      SizePositive(shape[1..]);
      [flat / Size(shape[1..]) % shape[0]] + Decode(flat, shape[1..])
  }

  function Zeros(n: nat): (c: Coord)
    ensures |c| == n
    ensures forall i :: 0 <= i < n ==> c[i] == 0
  {
    seq(n, _ => 0)
  }

  lemma {:induction false} SizePositive(shape: seq<nat>)
    requires Positive(shape)
    ensures Size(shape) > 0
  {
    if shape != [] {
      SizePositive(shape[1..]);
      MulMonotone(1, shape[0], Size(shape[1..]));
    }
  }

  lemma {:induction false} SizeConcat(a: seq<nat>, b: seq<nat>)
    ensures Size(a + b) == Size(a) * Size(b)
  {
    if a == [] {
      assert a + b == b;
    } else {
      assert (a + b)[1..] == a[1..] + b;
      SizeConcat(a[1..], b);
      assert a[0] * (Size(a[1..]) * Size(b)) == a[0] * Size(a[1..]) * Size(b);
    }
  }

  lemma {:induction false} StridesAt(shape: seq<nat>, i: nat)
    requires i < |shape|
    ensures Strides(shape)[i] == Size(shape[i + 1..])
  {
    if i > 0 {
      StridesAt(shape[1..], i - 1);
      assert shape[1..][i..] == shape[i + 1..];
    }
  }

  lemma {:induction false} StridesPositive(shape: seq<nat>)
    requires Positive(shape)
    ensures forall i :: 0 <= i < |shape| ==> Strides(shape)[i] > 0
  {
    forall i | 0 <= i < |shape| ensures Strides(shape)[i] > 0 {
      StridesAt(shape, i);
      SizePositive(shape[i + 1..]);
    }
  }

  lemma {:induction false} FlatBound(c: Coord, shape: seq<nat>)
    requires InShape(c, shape)
    ensures Flat(c, shape) < Size(shape)
  {
    if shape != [] {
      FlatBound(c[1..], shape[1..]);
      Dominates(c[0], shape[0], Flat(c[1..], shape[1..]), Size(shape[1..]));
    }
  }

  lemma {:induction false} DecodeInShape(flat: nat, shape: seq<nat>)
    requires Positive(shape)
    ensures InShape(Decode(flat, shape), shape)
  {
    if shape != [] {
      SizePositive(shape[1..]);
      DecodeInShape(flat, shape[1..]);
    }
  }

  /** Digit `i` of a decoded position, as the coordinate resolvers compute it. */
  lemma {:induction false} DecodeAt(flat: nat, shape: seq<nat>, i: nat)
    requires Positive(shape) && i < |shape|
    ensures Strides(shape)[i] > 0
    ensures Decode(flat, shape)[i] == flat / Strides(shape)[i] % shape[i]
  {
    SizePositive(shape[1..]);
    if i > 0 {
      DecodeAt(flat, shape[1..], i - 1);
    }
  }

  /** Peeling one digit: the loop step of every decoder in the source. */
  lemma PeelDigit(flat: nat, shape: seq<nat>, i: nat)
    requires Positive(shape) && i < |shape|
    ensures Size(shape[i + 1..]) > 0 && Size(shape[i..]) > 0
    ensures Decode(flat, shape)[i] == flat / Size(shape[i + 1..]) % shape[i]
    ensures flat / Size(shape[i..]) == flat / Size(shape[i + 1..]) / shape[i]
  {
    DecodeAt(flat, shape, i);
    StridesAt(shape, i);
    assert shape[i..][1..] == shape[i + 1..];
    DivDiv(flat, Size(shape[i + 1..]), shape[i]);
  }

  /** Decoding then flattening keeps the position, modulo the size. */
  lemma {:induction false} FlatOfDecode(flat: nat, shape: seq<nat>)
    requires Positive(shape)
    ensures Size(shape) > 0
    ensures Flat(Decode(flat, shape), shape) == flat % Size(shape)
  {
    SizePositive(shape);
    if shape != [] {
      var s := Size(shape[1..]);
      SizePositive(shape[1..]);
      FlatOfDecode(flat, shape[1..]);
      DivDiv(flat, s, shape[0]);
      assert Decode(flat, shape)[1..] == Decode(flat, shape[1..]);
    }
  }

  /** Flattening then decoding is the identity, whatever multiple of the size is added. */
  lemma {:induction false} DecodeOfFlatPlus(c: Coord, shape: seq<nat>, k: nat)
    requires Positive(shape) && InShape(c, shape)
    ensures k * Size(shape) + Flat(c, shape) >= 0
    ensures Decode(k * Size(shape) + Flat(c, shape), shape) == c
  {
    if shape != [] {
      var s := Size(shape[1..]);
      var f := k * Size(shape) + Flat(c, shape);
      SizePositive(shape[1..]);
      FlatBound(c[1..], shape[1..]);
      Regroup(k, c[0], Flat(c[1..], shape[1..]), s, shape[0]);
      DivUnique(k * shape[0] + c[0], Flat(c[1..], shape[1..]), s);
      DivUnique(k, c[0], shape[0]);
      DecodeOfFlatPlus(c[1..], shape[1..], k * shape[0] + c[0]);
      assert c == [c[0]] + c[1..];
    }
  }

  lemma {:induction false} DecodeOfFlat(c: Coord, shape: seq<nat>)
    requires Positive(shape) && InShape(c, shape)
    ensures Decode(Flat(c, shape), shape) == c
  {
    DecodeOfFlatPlus(c, shape, 0);
  }

  lemma FlatOfDecodeInside(flat: nat, shape: seq<nat>)
    requires Positive(shape) && flat < Size(shape)
    ensures Flat(Decode(flat, shape), shape) == flat
    ensures InShape(Decode(flat, shape), shape)
  {
    FlatOfDecode(flat, shape);
    DivUnique(0, flat, Size(shape));
    DecodeInShape(flat, shape);
  }

  lemma FlatInjective(c: Coord, d: Coord, shape: seq<nat>)
    requires InShape(c, shape) && InShape(d, shape) && Flat(c, shape) == Flat(d, shape)
    ensures c == d
  {
    DecodeOfFlat(c, shape);
    DecodeOfFlat(d, shape);
  }

  // ---------------------------------------------------------------------
  // Row-major order
  // ---------------------------------------------------------------------

  /** Strict row-major (lexicographic) order of coordinates of equal rank. */
  predicate Before(c: Coord, d: Coord)
    requires |c| == |d|
  {
    c != [] && (c[0] < d[0] || (c[0] == d[0] && Before(c[1..], d[1..])))
  }

  lemma {:induction false} BeforeAsymmetric(c: Coord, d: Coord)
    requires |c| == |d| && Before(c, d)
    ensures !Before(d, c)
  {
    if c[0] == d[0] {
      BeforeAsymmetric(c[1..], d[1..]);
    }
  }

  /** The first axis where two coordinates differ decides their order. */
  predicate DiffersAt(c: Coord, d: Coord, i: nat)
    requires |c| == |d|
  {
    i < |c| && c[i] < d[i] && forall k :: 0 <= k < i ==> c[k] == d[k]
  }

  lemma {:induction false} BeforeWitness(c: Coord, d: Coord) returns (i: nat)
    requires |c| == |d| && Before(c, d)
    ensures DiffersAt(c, d, i)
  {
    if c[0] < d[0] {
      i := 0;
    } else {
      var k := BeforeWitness(c[1..], d[1..]);
      i := k + 1;
      forall j | 0 <= j < i ensures c[j] == d[j] {
        assert j > 0 ==> c[j] == c[1..][j - 1];
      }
    }
  }

  lemma {:induction false} BeforeFrom(c: Coord, d: Coord, i: nat)
    requires |c| == |d| && DiffersAt(c, d, i)
    ensures Before(c, d)
  {
    if i > 0 {
      BeforeFrom(c[1..], d[1..], i - 1);
    }
  }

  /** The leading coordinate dominates the position. */
  lemma LeadingDominates(c: Coord, d: Coord, shape: seq<nat>)
    requires InShape(c, shape) && InShape(d, shape)
    requires shape != [] && c[0] < d[0]
    ensures Flat(c, shape) < Flat(d, shape)
  {
    FlatBound(c[1..], shape[1..]);
    Dominates(c[0], d[0], Flat(c[1..], shape[1..]), Size(shape[1..]));
  }

  lemma {:induction false} BeforeIsFlatOrder(c: Coord, d: Coord, shape: seq<nat>)
    requires InShape(c, shape) && InShape(d, shape)
    ensures Before(c, d) <==> Flat(c, shape) < Flat(d, shape)
  {
    if shape != [] {
      if c[0] < d[0] {
        LeadingDominates(c, d, shape);
      } else if c[0] > d[0] {
        LeadingDominates(d, c, shape);
      } else {
        BeforeIsFlatOrder(c[1..], d[1..], shape[1..]);
      }
    }
  }

  /** Raising every coordinate never lowers the position. */
  lemma {:induction false} FlatMonotone(c: Coord, d: Coord, shape: seq<nat>)
    requires |c| == |d| == |shape|
    requires forall i :: 0 <= i < |c| ==> c[i] <= d[i]
    ensures Flat(c, shape) <= Flat(d, shape)
  {
    if shape != [] {
      FlatMonotone(c[1..], d[1..], shape[1..]);
      MulMonotone(c[0], d[0], Size(shape[1..]));
    }
  }

  // ---------------------------------------------------------------------
  // Linearity
  // ---------------------------------------------------------------------

  /** Weighted sum: the shape of every affine address computation in the source. */
  function Dot(c: seq<int>, s: seq<int>): int
    requires |c| == |s|
  {
    if c == [] then 0 else c[0] * s[0] + Dot(c[1..], s[1..])
  }

  lemma {:induction false} FlatIsDot(c: Coord, shape: seq<nat>)
    requires |c| == |shape|
    ensures Flat(c, shape) == Dot(c, Strides(shape))
  {
    if shape != [] {
      FlatIsDot(c[1..], shape[1..]);
      assert Strides(shape)[1..] == Strides(shape[1..]);
    }
  }

  /** `c + k * d`, elementwise. */
  function Advance(c: seq<int>, d: seq<int>, k: int): (r: seq<int>)
    requires |c| == |d|
    ensures |r| == |c|
    ensures forall i :: 0 <= i < |c| ==> r[i] == c[i] + k * d[i]
  {
    seq(|c|, i requires 0 <= i < |c| => c[i] + k * d[i])
  }

  lemma {:induction false} DotAdvance(c: seq<int>, d: seq<int>, k: int, s: seq<int>)
    requires |c| == |d| == |s|
    ensures Dot(Advance(c, d, k), s) == Dot(c, s) + k * Dot(d, s)
  {
    if c != [] {
      DotAdvance(c[1..], d[1..], k, s[1..]);
      assert Advance(c, d, k)[1..] == Advance(c[1..], d[1..], k);
      var a, b := c[0], d[0];
      assert (a + k * b) * s[0] == a * s[0] + k * (b * s[0]);
      assert k * (b * s[0] + Dot(d[1..], s[1..])) == k * (b * s[0]) + k * Dot(d[1..], s[1..]);
    }
  }

  lemma {:induction false} DotZero(c: seq<int>, s: seq<int>)
    requires |c| == |s| && forall i :: 0 <= i < |c| ==> c[i] == 0
    ensures Dot(c, s) == 0
  {
    if c != [] {
      DotZero(c[1..], s[1..]);
    }
  }

  lemma {:induction false} DotConcat(a: seq<int>, b: seq<int>, s: seq<int>, t: seq<int>)
    requires |a| == |s| && |b| == |t|
    ensures Dot(a + b, s + t) == Dot(a, s) + Dot(b, t)
  {
    if a == [] {
      assert a + b == b && s + t == t;
    } else {
      DotConcat(a[1..], b, s[1..], t);
      assert (a + b)[1..] == a[1..] + b;
      assert (s + t)[1..] == s[1..] + t;
    }
  }

  lemma {:induction false} FlatConcat(a: Coord, b: Coord, s: seq<nat>, t: seq<nat>)
    requires |a| == |s| && |b| == |t|
    ensures Flat(a + b, s + t) == Flat(a, s) * Size(t) + Flat(b, t)
  {
    if a == [] {
      assert a + b == b && s + t == t;
    } else {
      FlatConcat(a[1..], b, s[1..], t);
      SizeConcat(s[1..], t);
      assert (a + b)[1..] == a[1..] + b;
      assert (s + t)[1..] == s[1..] + t;
      Regroup(a[0], Flat(a[1..], s[1..]), Flat(b, t), Size(t), Size(s[1..]));
    }
  }

  lemma InShapeConcat(a: Coord, b: Coord, s: seq<nat>, t: seq<nat>)
    requires InShape(a, s) && InShape(b, t)
    ensures InShape(a + b, s + t)
  {}

  lemma DecodePair(a: Coord, b: Coord, s: seq<nat>, t: seq<nat>, flat: int)
    requires Positive(s) && Positive(t) && InShape(a, s) && InShape(b, t)
    requires flat == Flat(a, s) * Size(t) + Flat(b, t)
    ensures 0 <= flat < Size(s + t)
    ensures Decode(flat, s + t) == a + b
  {
    FlatConcat(a, b, s, t);
    InShapeConcat(a, b, s, t);
    FlatBound(a + b, s + t);
    DecodeOfFlat(a + b, s + t);
  }

  /** Decoding a position splits along any split of the shape. */
  lemma DecodeConcat(p: nat, q: nat, s: seq<nat>, t: seq<nat>, flat: int)
    requires Positive(s) && Positive(t)
    requires p < Size(s) && q < Size(t) && flat == p * Size(t) + q
    ensures 0 <= flat < Size(s + t)
    ensures Decode(flat, s + t) == Decode(p, s) + Decode(q, t)
  {
    FlatOfDecodeInside(p, s);
    FlatOfDecodeInside(q, t);
    DecodePair(Decode(p, s), Decode(q, t), s, t, flat);
  }

  /** A shape of singletons has one coordinate. */
  lemma {:induction false} SizeOfOnes(s: seq<nat>)
    requires forall i :: 0 <= i < |s| ==> s[i] == 1
    ensures Size(s) == 1
    ensures Decode(0, s) == Zeros(|s|)
  {
    if s != [] {
      SizeOfOnes(s[1..]);
      assert Zeros(|s|) == [0] + Zeros(|s| - 1);
    }
  }

  lemma {:induction false} DotUpdate(c: seq<int>, s: seq<int>, k: nat, x: int, d: int)
    requires |c| == |s| && k < |c| && x - c[k] == d
    ensures Dot(c[k := x], s) == Dot(c, s) + d * s[k]
  {
    if k == 0 {
      assert c[k := x][1..] == c[1..];
      MulAdd(c[0], d, s[0], x);
    } else {
      assert c[k := x][1..] == c[1..][k - 1 := x];
      DotUpdate(c[1..], s[1..], k - 1, x, d);
    }
  }

  lemma FlatUpdate(c: Coord, shape: seq<nat>, k: nat, x: nat, d: int)
    requires |c| == |shape| && k < |c| && x - c[k] == d
    ensures Flat(c[k := x], shape) == Flat(c, shape) + d * Strides(shape)[k]
  {
    FlatIsDot(c, shape);
    FlatIsDot(c[k := x], shape);
    DotUpdate(c, Strides(shape), k, x, d);
  }

  lemma MulAdd(a: int, b: int, s: int, sum: int)
    requires sum == a + b
    ensures sum * s == a * s + b * s
  {}

  /** Summing a prefix equals summing the coordinate with the rest zeroed. */
  lemma DotPrefix(c: seq<int>, s: seq<int>, k: nat)
    requires |c| == |s| && k <= |c|
    ensures Dot(c[..k] + Zeros(|c| - k), s) == Dot(c[..k], s[..k])
  {
    DotConcat(c[..k], Zeros(|c| - k), s[..k], s[k..]);
    DotZero(Zeros(|c| - k), s[k..]);
    assert s[..k] + s[k..] == s;
  }

  lemma DotNext(c: seq<int>, s: seq<int>, k: nat)
    requires |c| == |s| && k < |c|
    ensures Dot(c[..k + 1], s[..k + 1]) == Dot(c[..k], s[..k]) + c[k] * s[k]
  {
    assert c[..k + 1] == c[..k] + [c[k]];
    assert s[..k + 1] == s[..k] + [s[k]];
    DotConcat(c[..k], [c[k]], s[..k], [s[k]]);
  }
}
