/** Advancing a row-major coordinate by one: the carry shared by every coordinate walk. */
module Odometer {
  import opened Radix

  /** Axes from `axis` on have been reset; one step of the `axis - 1` digit is still owed. */
  ghost predicate Rolling(dims: seq<nat>, start: Coord, axis: nat, now: Coord) {
    && |start| == |now| == |dims| && axis <= |dims|
    && InShape(start, dims)
    && (forall i :: 0 <= i < axis ==> now[i] == start[i])
    && (forall i :: axis <= i < |dims| ==> now[i] == 0)
    && Flat(start, dims) + 1 == Flat(now, dims) + Size(dims[axis..])
  }

  lemma RollStart(dims: seq<nat>, start: Coord)
    requires InShape(start, dims)
    ensures Rolling(dims, start, |dims|, start)
  {
    assert dims[|dims|..] == [];
  }

  /** The digit stood at its last value: it resets and the carry moves on. */
  lemma RollReset(dims: seq<nat>, start: Coord, axis: nat, now: Coord)
    requires axis < |dims| && Rolling(dims, start, axis + 1, now) && start[axis] + 1 == dims[axis]
    ensures Rolling(dims, start, axis, now[axis := 0])
  {
    var o: int, s: int := now[axis], Size(dims[axis + 1..]);
    FlatUpdate(now, dims, axis, 0, -o);
    StridesAt(dims, axis);
    assert dims[axis..][1..] == dims[axis + 1..];
    MulAdd(o, 1, s, dims[axis]);
    MulAdd(o, -o, s, 0);
  }

  /** The digit can grow: the walk is exactly one position further. */
  lemma RollStop(dims: seq<nat>, start: Coord, axis: nat, now: Coord)
    requires axis < |dims| && Rolling(dims, start, axis + 1, now) && start[axis] + 1 < dims[axis]
    ensures InShape(now[axis := now[axis] + 1], dims)
    ensures Flat(now[axis := now[axis] + 1], dims) == Flat(start, dims) + 1
  {
    FlatUpdate(now, dims, axis, now[axis] + 1, 1);
    StridesAt(dims, axis);
  }

  /** The carry left the first axis: the start was the last coordinate. */
  lemma RollDone(dims: seq<nat>, start: Coord, now: Coord)
    requires Rolling(dims, start, 0, now)
    ensures now == Zeros(|dims|) && Flat(start, dims) + 1 == Size(dims)
  {
    assert dims[0..] == dims;
    FlatIsDot(now, dims);
    DotZero(now, Strides(dims));
  }

  /** A coordinate is determined by its position. */
  lemma AtPosition(c: Coord, dims: seq<nat>, position: nat)
    requires Positive(dims) && InShape(c, dims) && Flat(c, dims) == position
    ensures c == Decode(position, dims)
  {
    DecodeOfFlat(c, dims);
  }

  lemma ZerosFlat(dims: seq<nat>)
    ensures Flat(Zeros(|dims|), dims) == 0
  {
    FlatIsDot(Zeros(|dims|), dims);
    DotZero(Zeros(|dims|), Strides(dims));
  }
}
