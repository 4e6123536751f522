/** The evaluation trampoline: an explicit stack of suspended frames instead of recursion. */
module Driver {
  import opened Wrappers

  /** The most frames one evaluation may suspend. */
  const MAX_FRAMES: nat := 16384

  // ---------------------------------------------------------------------
  // Evaluations as the driver sees them
  // ---------------------------------------------------------------------

  /** What a suspended evaluation does when it is continued: answer, or ask for one child evaluation
      and resume with its answer. The child's request is checked before it starts and its value
      before it is delivered. */
  datatype Action<!S, !V> =
    | Finish(result: Result<V>)
    | Ask(request: Outcome, child: S, accepts: V -> bool, resume: Result<V> -> S)

  /** States of evaluations and what each does; which child a state asks for, and what it does next,
      may depend on every earlier answer. */
  datatype Machine<!S, !V> = Machine(act: S -> Action<S, V>, rank: S -> ORDINAL)

  ghost predicate RankedAt<S(!new), V(!new)>(m: Machine<S, V>, s: S) {
    match m.act(s)
    case Finish(_) => true
    case Ask(_, child, _, resume) => m.rank(child) < m.rank(s) && forall a :: m.rank(resume(a)) < m.rank(s)
  }

  /** Every evaluation ends, whatever its children answer. */
  ghost predicate Ranked<S(!new), V(!new)>(m: Machine<S, V>) {
    forall s :: RankedAt(m, s)
  }

  /** A child's value is delivered only if it has the expected form. */
  function Delivered<V>(r: Result<V>, accepts: V -> bool): Result<V> {
    match r
    case Err(_) => r
    case Ok(value) => if accepts(value) then r else Err(InvalidLayout)
  }

  /** The reference: plain recursion. */
  ghost function Eval<S(!new), V(!new)>(m: Machine<S, V>, s: S): Result<V>
    requires Ranked(m)
    decreases m.rank(s)
  {
    assert RankedAt(m, s);
    match m.act(s)
    case Finish(result) => result
    case Ask(request, child, accepts, resume) =>
      match request
      case Fail(error) => Eval(m, resume(Err(error)))
      case Pass => Eval(m, resume(Delivered(Eval(m, child), accepts)))
  }

  /** How a frame goes on: with the error of a refused request, with the answer of its child, or with an
      error in place of a value of the wrong form. */
  lemma EvalSteps<S(!new), V(!new)>(m: Machine<S, V>, s: S)
    requires Ranked(m)
    ensures m.act(s).Finish? ==> Eval(m, s) == m.act(s).result
    ensures m.act(s).Ask? && m.act(s).request.Fail? ==>
              Eval(m, s) == Eval(m, m.act(s).resume(Err(m.act(s).request.error)))
    ensures m.act(s).Ask? && m.act(s).request.Pass? && Eval(m, m.act(s).child).Err? ==>
              Eval(m, s) == Eval(m, m.act(s).resume(Eval(m, m.act(s).child)))
    ensures m.act(s).Ask? && m.act(s).request.Pass? && Eval(m, m.act(s).child).Ok? ==>
              var value := Eval(m, m.act(s).child).value;
              Eval(m, s) == Eval(m, m.act(s).resume(if m.act(s).accepts(value) then Ok(value) else Err(InvalidLayout)))
  {
    assert RankedAt(m, s);
  }

  /** How deeply the evaluations of that recursion nest. */
  ghost function Height<S(!new), V(!new)>(m: Machine<S, V>, s: S): (h: nat)
    requires Ranked(m)
    ensures h > 0
    decreases m.rank(s)
  {
    assert RankedAt(m, s);
    match m.act(s)
    case Finish(_) => 1
    case Ask(request, child, accepts, resume) =>
      match request
      case Fail(error) => Height(m, resume(Err(error)))
      case Pass =>
        var here, rest := 1 + Height(m, child), Height(m, resume(Delivered(Eval(m, child), accepts)));
        if here >= rest then here else rest
  }

  // ---------------------------------------------------------------------
  // The recursion on a bounded stack
  // ---------------------------------------------------------------------

  /** An evaluation that needs too many frames is abandoned as a whole: no frame sees an error. */
  datatype Answer<V> = Done(result: Result<V>) | Abandoned

  /** An answer and how many steps it took. */
  datatype Trace<V> = Trace(answer: Answer<V>, steps: nat)

  function After<V>(n: nat, t: Trace<V>): Trace<V> {
    Trace(t.answer, n + t.steps)
  }

  function Deliver<V>(t: Trace<V>, accepts: V -> bool): Trace<V> {
    match t.answer
    case Abandoned => t
    case Done(result) => Trace(Done(Delivered(result, accepts)), t.steps)
  }

  /** The recursion with at most `MAX_FRAMES` nested evaluations, this one at nesting `depth`. */
  ghost function Limited<S(!new), V(!new)>(m: Machine<S, V>, s: S, depth: nat): (t: Trace<V>)
    requires Ranked(m)
    ensures t.steps > 0
    decreases m.rank(s)
  {
    assert RankedAt(m, s);
    match m.act(s)
    case Finish(result) => Trace(Done(result), 1)
    case Ask(request, child, accepts, resume) =>
      match request
      case Fail(error) => After(1, Limited(m, resume(Err(error)), depth))
      case Pass =>
        if depth >= MAX_FRAMES then Trace(Abandoned, 1)
        else
          var t := Limited(m, child, depth + 1);
          match t.answer
          case Abandoned => After(1, t)
          case Done(result) => After(1 + t.steps, Limited(m, resume(Delivered(result, accepts)), depth))
  }

  /** The bound is invisible exactly as long as the nesting fits; beyond it nothing is answered. */
  lemma {:induction false} LimitExact<S(!new), V(!new)>(m: Machine<S, V>, s: S, depth: nat)
    requires Ranked(m) && 0 < depth <= MAX_FRAMES
    ensures Limited(m, s, depth).answer ==
            if depth - 1 + Height(m, s) <= MAX_FRAMES then Done(Eval(m, s)) else Abandoned
    decreases m.rank(s)
  {
    assert RankedAt(m, s);
    match m.act(s)
    case Finish(_) =>
    case Ask(request, child, accepts, resume) =>
      match request
      case Fail(error) => LimitExact(m, resume(Err(error)), depth);
      case Pass =>
        if depth < MAX_FRAMES {
          LimitExact(m, child, depth + 1);
          LimitExact(m, resume(Delivered(Eval(m, child), accepts)), depth);
        }
  }

  // ---------------------------------------------------------------------
  // Frames
  // ---------------------------------------------------------------------

  /** A suspended evaluation: its state, the channel it waits on, and the channel and the check its
      own answer goes through. */
  datatype Frame<!S, !V> = Frame(state: S, awaits: Option<nat>, accepts: V -> bool, out: nat)

  /** Only an evaluation that asked for a child waits. */
  predicate Waiting<S, V>(m: Machine<S, V>, f: Frame<S, V>) {
    f.awaits.Some? && m.act(f.state).Ask?
  }

  predicate Suspended<S, V>(m: Machine<S, V>, frames: seq<Frame<S, V>>) {
    forall k :: 0 <= k < |frames| ==> Waiting(m, frames[k])
  }

  /** How a waiting frame continues once its child has answered. */
  ghost function Continue<S(!new), V(!new)>(m: Machine<S, V>, f: Frame<S, V>, t: Trace<V>, depth: nat): Trace<V>
    requires Ranked(m) && Waiting(m, f)
  {
    match t.answer
    case Abandoned => t
    case Done(result) => After(t.steps, Limited(m, m.act(f.state).resume(result), depth))
  }

  /** What the root answers once the frame above the stack has answered. */
  ghost function Unwind<S(!new), V(!new)>(m: Machine<S, V>, frames: seq<Frame<S, V>>, t: Trace<V>): Trace<V>
    requires Ranked(m) && Suspended(m, frames)
  {
    if frames == [] then t
    else
      var n := |frames| - 1;
      Unwind(m, frames[..n], Deliver(Continue(m, frames[n], t, n + 1), frames[n].accepts))
  }

  lemma {:induction false} UnwindAfter<S(!new), V(!new)>(m: Machine<S, V>, frames: seq<Frame<S, V>>, k: nat, t: Trace<V>)
    requires Ranked(m) && Suspended(m, frames)
    ensures Unwind(m, frames, After(k, t)) == After(k, Unwind(m, frames, t))
    decreases |frames|
  {
    hide Limited;
    if frames != [] {
      var n := |frames| - 1;
      UnwindAfter(m, frames[..n], k, Deliver(Continue(m, frames[n], t, n + 1), frames[n].accepts));
    }
  }

  lemma {:induction false} UnwindAbandoned<S(!new), V(!new)>(m: Machine<S, V>, frames: seq<Frame<S, V>>, t: Trace<V>)
    requires Ranked(m) && Suspended(m, frames) && t.answer.Abandoned?
    ensures Unwind(m, frames, t) == t
    decreases |frames|
  {
    if frames != [] {
      UnwindAbandoned(m, frames[..|frames| - 1], t);
    }
  }

  lemma UnwindPush<S(!new), V(!new)>(m: Machine<S, V>, rest: seq<Frame<S, V>>, top: Frame<S, V>, t: Trace<V>)
    requires Ranked(m) && Suspended(m, rest) && Waiting(m, top)
    ensures Suspended(m, rest + [top])
    ensures Unwind(m, rest + [top], t) == Unwind(m, rest, Deliver(Continue(m, top, t, |rest| + 1), top.accepts))
  {
    hide Limited;
    assert (rest + [top])[..|rest|] == rest;
  }

  lemma UnwindNone<S(!new), V(!new)>(m: Machine<S, V>, t: Trace<V>)
    requires Ranked(m)
    ensures Unwind(m, [], t) == t
  {}

  /** Each frame waits for exactly the frame above it. */
  predicate Linked<S, V>(frames: seq<Frame<S, V>>) {
    forall k :: 0 < k < |frames| ==> frames[k - 1].awaits == Some(frames[k].out)
  }

  // ---------------------------------------------------------------------
  // The driver
  // ---------------------------------------------------------------------

  class Driver<S(!new), V(!new)> {
    const machine: Machine<S, V>
    var frames: seq<Frame<S, V>>
    /** The one queued child. */
    var pending: Option<Frame<S, V>>
    /** Answers sent and not yet received. */
    var channels: map<nat, Result<V>>
    var next: nat
    const receive: nat
    ghost const answer: Answer<V>

    /** The frames that wait for a child: all of them, or all but a top frame that can continue. */
    function Below(): seq<Frame<S, V>>
      reads this
    {
      if pending.None? && frames != [] && frames[|frames| - 1].awaits.None? then frames[..|frames| - 1] else frames
    }

    /** The answer and the steps still to come, in terms of the recursion. */
    ghost function Current(): Trace<V>
      requires Ranked(machine) && Suspended(machine, Below())
      reads this
    {
      var waiting := Below();
      if pending.Some? then
        var child := if |frames| >= MAX_FRAMES then Trace(Abandoned, 0) else Limited(machine, pending.value.state, |frames| + 1);
        Unwind(machine, waiting, Deliver(child, pending.value.accepts))
      else if |waiting| < |frames| then
        var top := frames[|frames| - 1];
        Unwind(machine, waiting, Deliver(Limited(machine, top.state, |frames|), top.accepts))
      else
        Unwind(machine, waiting, Trace(Done(Answered()), 0))
    }

    /** The channel of the only answer on its way. */
    function Channel(): nat
      reads this
    {
      if frames == [] then receive else if frames[|frames| - 1].awaits.Some? then frames[|frames| - 1].awaits.value else receive
    }

    function Answered(): Result<V>
      reads this
    {
      if Channel() in channels then channels[Channel()] else Err(InvalidLayout)
    }

    /** In every reachable state the stack is bounded, each frame waits for the one above it, at most
        one child is queued, and at most one answer is on its way, to the frame that waits for it. */
    ghost predicate Shaped()
      reads this
    {
      && Ranked(machine) && |frames| <= MAX_FRAMES && Linked(frames) && Suspended(machine, Below())
      && (frames != [] ==> frames[0].out == receive)
      && (pending.Some? ==>
            frames != [] && frames[|frames| - 1].awaits == Some(pending.value.out) && pending.value.awaits.None?)
      && (if pending.Some? || |Below()| < |frames| then channels == map[] else channels == map[Channel() := Answered()])
    }

    /** The stack stands for the rest of the recursion. */
    ghost predicate Valid()
      reads this
    {
      Shaped() && Current().answer == answer
    }

    constructor (machine: Machine<S, V>, root: S)
      requires Ranked(machine)
      ensures Valid() && this.machine == machine && answer == Limited(machine, root, 1).answer
      ensures frames == [Frame(root, None, _ => true, 0)] && pending.None?
    {
      this.machine := machine;
      frames := [Frame(root, None, _ => true, 0)];
      pending := None;
      channels := map[];
      next := 1;
      receive := 0;
      answer := Limited(machine, root, 1).answer;
      new;
      assert frames[..0] == [];
      UnwindNone(machine, Deliver(Limited(machine, root, 1), frames[0].accepts));
    }

    /** `Context::batch`: validate, queue the child, and return the channel to wait on. Only one child
        may be queued. */
    method Batch(request: Outcome, child: S, accepts: V -> bool) returns (r: Result<nat>)
      modifies this`pending, this`next
      ensures r.Ok? <==> request.Pass? && old(pending).None?
      ensures r.Err? ==> pending == old(pending) && next == old(next)
      ensures r.Err? ==> r.error == if request.Fail? then request.error else InvalidLayout
      ensures r.Ok? ==> r.value == old(next) && pending == Some(Frame(child, None, accepts, r.value))
    {
      if request.Fail? {
        return Err(request.error);
      }
      if pending.Some? {
        return Err(InvalidLayout);
      }
      var channel := next;
      next := next + 1;
      pending := Some(Frame(child, None, accepts, channel));
      return Ok(channel);
    }

    /** The answer on its way resumes the frame that waits for it. */
    method Receive()
      requires Valid() && pending.None? && frames != []
      modifies this`channels, this`frames
      ensures Valid() && pending.None? && |frames| == old(|frames|) && frames[|frames| - 1].awaits.None?
      ensures frames[|frames| - 1].out == old(frames[|frames| - 1].out)
      ensures Current() == old(Current())
    {
      hide Unwind, Limited;
      var n := |frames| - 1;
      var top := frames[n];
      if top.awaits.Some? {
        var received := channels[top.awaits.value];
        var state := machine.act(top.state).resume(received);
        UnwindPush(machine, frames[..n], top, Trace(Done(received), 0));
        assert frames == frames[..n] + [top];
        channels := map[];
        frames := frames[..n] + [Frame(state, None, top.accepts, top.out)];
        assert Below() == frames[..n];
      }
    }

    /** The top frame has sent its answer and is about to be dropped. */
    ghost predicate Finished()
      reads this
    {
      && Ranked(machine) && 0 < |frames| <= MAX_FRAMES && Linked(frames) && Suspended(machine, frames[..|frames| - 1])
      && frames[0].out == receive && pending.None?
      && channels.Keys == {frames[|frames| - 1].out}
      && Ended().answer == answer
    }

    /** What is still to come below the finished top frame. */
    ghost function Ended(): Trace<V>
      requires Ranked(machine) && frames != [] && Suspended(machine, frames[..|frames| - 1])
      requires frames[|frames| - 1].out in channels
      reads this
    {
      Unwind(machine, frames[..|frames| - 1], Trace(Done(channels[frames[|frames| - 1].out]), 0))
    }

    /** The top frame answers. */
    method Conclude()
      requires Valid() && pending.None? && frames != [] && frames[|frames| - 1].awaits.None?
      requires machine.act(frames[|frames| - 1].state).Finish?
      modifies this`channels
      ensures Finished() && Ended().steps < old(Current()).steps
    {
      hide Unwind, Limited;
      var n := |frames| - 1;
      var top := frames[n];
      var result := machine.act(top.state).result;
      Unfolded(machine, top.state, n + 1);
      UnwindAfter(machine, frames[..n], 1, Trace(Done(Delivered(result, top.accepts)), 0));
      channels := map[top.out := Delivered(result, top.accepts)];
    }

    /** A rejected request resumes the top frame with its error. */
    method Reject()
      requires Valid() && pending.None? && frames != [] && frames[|frames| - 1].awaits.None?
      requires machine.act(frames[|frames| - 1].state).Ask? && machine.act(frames[|frames| - 1].state).request.Fail?
      modifies this`frames
      ensures Valid() && |frames| == old(|frames|) && frames[|frames| - 1].awaits.None?
      ensures Current().steps < old(Current()).steps
    {
      hide Unwind, Limited;
      var n := |frames| - 1;
      var top := frames[n];
      var ask := machine.act(top.state);
      Unfolded(machine, top.state, n + 1);
      var state := ask.resume(Err(ask.request.error));
      UnwindAfter(machine, frames[..n], 1, Deliver(Limited(machine, state, n + 1), top.accepts));
      var resumed := Frame(state, None, top.accepts, top.out);
      assert (frames[..n] + [resumed])[..n] == frames[..n];
      frames := frames[..n] + [resumed];
    }

    /** The top frame asks for a child, which is queued; a rejected request resumes the frame at once. */
    method Start()
      requires Valid() && pending.None? && frames != [] && frames[|frames| - 1].awaits.None?
      requires machine.act(frames[|frames| - 1].state).Ask?
      modifies this`frames, this`pending, this`next
      ensures Valid() && |frames| == old(|frames|) && Current().steps < old(Current()).steps
      ensures pending.None? ==> frames[|frames| - 1].awaits.None?
      ensures pending.Some? <==> machine.act(old(frames[|frames| - 1].state)).request.Pass?
    {
      hide Unwind, Limited;
      var n := |frames| - 1;
      var top := frames[n];
      var ask := machine.act(top.state);
      Unfolded(machine, top.state, n + 1);
      var queued := Batch(ask.request, ask.child, ask.accepts);
      if queued.Ok? {
        var waiting := Frame(top.state, Some(queued.value), top.accepts, top.out);
        Queued(machine, frames[..n], waiting, ask.child, ask.accepts);
        frames := frames[..n] + [waiting];
      } else {
        Reject();
      }
    }

    /** Continue the top frame until it answers or its next child is queued. */
    method PollTop() returns (ready: bool)
      requires Valid() && pending.None? && frames != []
      modifies this`channels, this`frames, this`pending, this`next
      ensures |frames| == old(|frames|)
      ensures ready ==> Finished() && Ended().steps < old(Current()).steps
      ensures !ready ==> Valid() && pending.Some? && Current().steps < old(Current()).steps
    {
      hide Driver.Valid, Driver.Current, Driver.Finished, Driver.Ended;
      ValidShape();
      ghost var before := Current().steps;
      Receive();
      ValidShape();
      while machine.act(frames[|frames| - 1].state).Ask?
        invariant Valid() && Shaped() && pending.None? && |frames| == old(|frames|) > 0
        invariant frames[|frames| - 1].awaits.None? && Current().steps <= before
        decreases Current().steps
      {
        Start();
        ValidShape();
        if pending.Some? {
          return false;
        }
      }
      Conclude();
      FinishedShape();
      return true;
    }

    lemma FinishedShape()
      requires Finished()
      ensures Ranked(machine) && frames != [] && Suspended(machine, frames[..|frames| - 1])
      ensures frames[|frames| - 1].out in channels
    {}

    /** Drop the finished top frame; its answer is what the frame below waits for. */
    method Pop()
      requires Finished()
      modifies this`frames
      ensures Valid() && |frames| == old(|frames|) - 1 && Current() == old(Ended())
    {
      hide Unwind, Limited;
      var n := |frames| - 1;
      assert n > 0 ==> frames[n - 1].awaits == Some(frames[n].out);
      assert channels == map[frames[n].out := channels[frames[n].out]];
      frames := frames[..n];
    }

    /** Move the queued child onto the stack, unless the stack is full. */
    method Push() returns (r: Outcome)
      requires Valid() && pending.Some?
      modifies this`frames, this`pending
      ensures r.Fail? <==> old(|frames|) == MAX_FRAMES
      ensures r.Fail? ==> r.error == FrameLimit && answer == Abandoned
      ensures r.Pass? ==> Valid() && pending.None? && frames != [] && Current() == old(Current())
    {
      hide Unwind, Limited;
      if |frames| == MAX_FRAMES {
        UnwindAbandoned(machine, frames, Trace(Abandoned, 0));
        return Fail(FrameLimit);
      }
      var frame := pending.value;
      assert (frames + [frame])[..|frames|] == frames;
      frames := frames + [frame];
      pending := None;
      return Pass;
    }

    /** The driver's loop: exactly the bounded recursion. */
    method Run() returns (r: Result<V>)
      requires Valid()
      modifies this
      ensures r == match answer case Done(result) => result case Abandoned => Err(FrameLimit)
    {
      hide Driver.Valid, Unwind, Limited, Linked;
      ValidShape();
      while true
        invariant Valid() && Shaped()
        decreases Current().steps
      {
        if pending.Some? {
          var pushed := Push();
          if pushed.Fail? {
            return Err(pushed.error);
          }
        }
        ValidShape();
        if frames == [] {
          if receive in channels {
            return channels[receive];
          }
          return Err(InvalidLayout);
        }
        var ready := PollTop();
        if ready {
          Pop();
        }
        ValidShape();
      }
    }

    lemma ValidShape()
      requires Valid()
      ensures Shaped()
      ensures frames == [] && pending.None? ==> receive in channels && answer == Done(channels[receive])
    {
      if frames == [] && pending.None? {
        UnwindNone(machine, Trace(Done(Answered()), 0));
      }
    }
  }

  /** One step of the bounded recursion. */
  lemma Unfolded<S(!new), V(!new)>(m: Machine<S, V>, s: S, depth: nat)
    requires Ranked(m)
    ensures match m.act(s)
            case Finish(result) => Limited(m, s, depth) == Trace(Done(result), 1)
            case Ask(request, child, accepts, resume) =>
              match request
              case Fail(error) => Limited(m, s, depth) == After(1, Limited(m, resume(Err(error)), depth))
              case Pass =>
                Limited(m, s, depth) == if depth >= MAX_FRAMES then Trace(Abandoned, 1) else Asked(m, s, depth)
  {
    assert RankedAt(m, s);
  }

  /** An evaluation whose child runs one level deeper. */
  ghost function Asked<S(!new), V(!new)>(m: Machine<S, V>, s: S, depth: nat): Trace<V>
    requires Ranked(m) && m.act(s).Ask?
  {
    var t := Limited(m, m.act(s).child, depth + 1);
    match t.answer
    case Abandoned => After(1, t)
    case Done(result) => After(1 + t.steps, Limited(m, m.act(s).resume(Delivered(result, m.act(s).accepts)), depth))
  }

  /** Queueing a child spends one step and leaves the recursion where it was. */
  lemma Queued<S(!new), V(!new)>(m: Machine<S, V>, rest: seq<Frame<S, V>>, top: Frame<S, V>, child: S, accepts: V -> bool)
    requires Ranked(m) && Suspended(m, rest) && Waiting(m, top)
    requires m.act(top.state).request.Pass? && m.act(top.state).child == child && m.act(top.state).accepts == accepts
    ensures Suspended(m, rest + [top])
    ensures var depth := |rest| + 1;
            var t := if depth >= MAX_FRAMES then Trace(Abandoned, 0) else Limited(m, child, depth + 1);
            After(1, Unwind(m, rest + [top], Deliver(t, accepts))) == Unwind(m, rest, Deliver(Limited(m, top.state, depth), top.accepts))
  {
    hide Unwind, Limited;
    var depth := |rest| + 1;
    var t := if depth >= MAX_FRAMES then Trace(Abandoned, 0) else Limited(m, child, depth + 1);
    Unfolded(m, top.state, depth);
    UnwindPush(m, rest, top, Deliver(t, accepts));
    var c := Deliver(Continue(m, top, Deliver(t, accepts), depth), top.accepts);
    UnwindAfter(m, rest, 1, c);
    assert After(1, c) == Deliver(Limited(m, top.state, depth), top.accepts);
  }

  /** `evaluate_batch`: the driver answers what plain recursion answers as long as the evaluations
      nest no deeper than the bound, and otherwise reports the bound. */
  method EvaluateBatch<S(!new), V(!new)>(machine: Machine<S, V>, root: S) returns (r: Result<V>)
    requires Ranked(machine)
    ensures r == if Height(machine, root) <= MAX_FRAMES then Eval(machine, root) else Err(FrameLimit)
  {
    hide Limited, Eval, Height, Driver.Valid;
    var driver := new Driver(machine, root);
    LimitExact(machine, root, 1);
    r := driver.Run();
  }
}
