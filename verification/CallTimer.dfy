/**
 The nested-call timer of benchmarks/trace_run.py (Tracer.wrap): every thread keeps a stack with the inclusive
 time of the finished children of each open call, and a finished call records its duration and what is left of
 it without its children. A run is any interleaving of the threads' calls and returns.
 */
module CallTimer {

  type Thread = nat

  /** An open call: when it started and how long its finished children took. */
  datatype Frame = Frame(name: string, start: real, children: real)

  /** A finished call. */
  datatype Event = Event(name: string, thread: Thread, start: real, duration: real, exclusive: real)

  /** One step of a run; a call that raises leaves through the same `finally` block. */
  datatype Action = Enter(thread: Thread, name: string, time: real) | Leave(thread: Thread, time: real)

  /** The threads' stacks, the recorded events, and the time of the finished outermost calls by thread. */
  datatype State = State(stacks: map<Thread, seq<Frame>>, events: seq<Event>, roots: map<Thread, real>) {

    function Stack(t: Thread): seq<Frame> { if t in stacks then stacks[t] else [] }

    function Root(t: Thread): real { if t in roots then roots[t] else 0.0 }

    /** A return needs an open call of its thread. */
    predicate Enabled(a: Action) { a.Enter? || Stack(a.thread) != [] }

    function Step(a: Action): State
      requires Enabled(a)
    {
      var stack := Stack(a.thread);
      match a
      case Enter(t, name, time) => this.(stacks := stacks[t := stack + [Frame(name, time, 0.0)]])
      case Leave(t, time) =>
        var frame, below := stack[|stack| - 1], stack[..|stack| - 1];
        var duration := time - frame.start;
        var event := Event(frame.name, t, frame.start, duration, duration - frame.children);
        if below == [] then State(stacks[t := []], events + [event], roots[t := Root(t) + duration])
        else
          var parent := below[|below| - 1];
          var charged := below[|below| - 1 := parent.(children := parent.children + duration)];
          State(stacks[t := charged], events + [event], roots)
    }
  }

  const IDLE := State(map[], [], map[])

  /** The state after a whole run, if every step was possible. */
  function Run(actions: seq<Action>): (s: State)
    requires Runs(actions)
    decreases |actions|, 1
  {
    if actions == [] then IDLE else Run(actions[..|actions| - 1]).Step(actions[|actions| - 1])
  }

  predicate Runs(actions: seq<Action>)
    decreases |actions|, 0
  {
    actions != [] ==> Runs(actions[..|actions| - 1]) && Run(actions[..|actions| - 1]).Enabled(actions[|actions| - 1])
  }

  // ----- conservation -----

  /** The exclusive times recorded for a thread. */
  function Exclusive(events: seq<Event>, t: Thread): real {
    if events == [] then 0.0
    else
      var event := events[|events| - 1];
      Exclusive(events[..|events| - 1], t) + if event.thread == t then event.exclusive else 0.0
  }

  /** The finished children's times of all open calls. */
  function Pending(stack: seq<Frame>): real {
    if stack == [] then 0.0 else Pending(stack[..|stack| - 1]) + stack[|stack| - 1].children
  }

  /** Every recorded exclusive time belongs to a finished outermost call or is still pending in an open one. */
  predicate Conserved(s: State, t: Thread) {
    Exclusive(s.events, t) == s.Root(t) + Pending(s.Stack(t))
  }

  lemma ExclusiveAppend(events: seq<Event>, e: Event, t: Thread)
    ensures Exclusive(events + [e], t) == Exclusive(events, t) + if e.thread == t then e.exclusive else 0.0
  {
    assert (events + [e])[..|events|] == events;
  }

  lemma PendingTop(below: seq<Frame>, d: real)
    requires below != []
    ensures var parent := below[|below| - 1];
        Pending(below[|below| - 1 := parent.(children := parent.children + d)]) == Pending(below) + d
  {
    var n := |below| - 1;
    var raised := below[n := below[n].(children := below[n].children + d)];
    assert raised[..n] == below[..n];
  }

  lemma StepConserves(s: State, a: Action, t: Thread)
    requires s.Enabled(a) && Conserved(s, t)
    ensures Conserved(s.Step(a), t)
  {
    if a.Enter? {
      EnterEffect(s, a, t);
    } else {
      LeaveEffect(s, a, t);
    }
    hide *;
    assert Conserved(s.Step(a), t) by {
      ConservedIs(s, t);
      ConservedIs(s.Step(a), t);
    }
  }

  lemma ConservedIs(s: State, t: Thread)
    ensures Conserved(s, t) <==> Exclusive(s.events, t) == s.Root(t) + Pending(s.Stack(t))
  {}

  lemma EnterEffect(s: State, a: Action, t: Thread)
    requires a.Enter?
    ensures s.Step(a).events == s.events && s.Step(a).Root(t) == s.Root(t)
      && Pending(s.Step(a).Stack(t)) == Pending(s.Stack(t))
  {
    PendingEnter(s.Stack(a.thread), Frame(a.name, a.time, 0.0));
    hide Pending;
  }

  /** What a return does to the stack, the events and the finished outermost calls of a thread. */
  lemma LeaveParts(s: State, a: Action, t: Thread)
    requires a.Leave? && s.Enabled(a)
    ensures var u, stack := s.Step(a), s.Stack(a.thread);
      var frame, below := stack[|stack| - 1], stack[..|stack| - 1];
      var duration := a.time - frame.start;
      && u.events == s.events + [Event(frame.name, a.thread, frame.start, duration, duration - frame.children)]
      && (t != a.thread ==> u.Stack(t) == s.Stack(t) && u.Root(t) == s.Root(t))
      && (t == a.thread ==>
            u.Stack(t) == Charged(below, duration)
            && u.Root(t) == s.Root(t) + if below == [] then duration else 0.0)
  {}

  /** The calls below with the duration charged to the innermost one. */
  function Charged(below: seq<Frame>, duration: real): seq<Frame> {
    if below == [] then [] else
    var parent := below[|below| - 1];
    below[|below| - 1 := parent.(children := parent.children + duration)]
  }

  lemma PendingLeave(stack: seq<Frame>, duration: real)
    requires stack != []
    ensures var below := stack[..|stack| - 1];
      Pending(Charged(below, duration)) - Pending(stack)
        == (if below == [] then 0.0 else duration) - stack[|stack| - 1].children
  {
    var below := stack[..|stack| - 1];
    assert Pending(stack) == Pending(below) + stack[|stack| - 1].children;
    if below != [] {
      PendingTop(below, duration);
      hide Pending;
    }
  }

  /** A return moves its duration into the parent or the finished outermost calls, and its children's time out. */
  lemma LeaveEffect(s: State, a: Action, t: Thread)
    requires a.Leave? && s.Enabled(a)
    ensures var u := s.Step(a);
        Exclusive(u.events, t) - Exclusive(s.events, t)
            == u.Root(t) - s.Root(t) + (Pending(u.Stack(t)) - Pending(s.Stack(t)))
  {
    LeaveParts(s, a, t);
    hide Pending, Exclusive, Charged, State.Step, State.Stack, State.Root;
    var stack := s.Stack(a.thread);
    var frame := stack[|stack| - 1];
    var duration := a.time - frame.start;
    ExclusiveAppend(s.events, Event(frame.name, a.thread, frame.start, duration, duration - frame.children), t);
    PendingLeave(stack, duration);
  }

  lemma PendingEnter(stack: seq<Frame>, frame: Frame)
    ensures Pending(stack + [frame]) == Pending(stack) + frame.children
  {
    assert (stack + [frame])[..|stack|] == stack;
  }

  /** Conservation holds after every run, thread by thread, whatever the other threads do. */
  lemma {:induction false} RunConserves(actions: seq<Action>, t: Thread)
    requires Runs(actions)
    ensures Conserved(Run(actions), t)
  {
    if actions != [] {
      RunConserves(actions[..|actions| - 1], t);
      StepConserves(Run(actions[..|actions| - 1]), actions[|actions| - 1], t);
    }
  }

  /** Once a thread has returned from everything, its exclusive times add up to its outermost calls. */
  lemma FinishedThread(actions: seq<Action>, t: Thread)
    requires Runs(actions) && Run(actions).Stack(t) == []
    ensures Exclusive(Run(actions).events, t) == Run(actions).Root(t)
  {
    RunConserves(actions, t);
  }

  // ----- with a clock that does not run backwards -----

  function TimeOf(a: Action): real { a.time }

  predicate Monotone(actions: seq<Action>) {
    forall i, j :: 0 <= i < j < |actions| ==> TimeOf(actions[i]) <= TimeOf(actions[j])
  }

  /** Finished children fit between a call's start and the start of its open child, or now. */
  predicate Fits(stack: seq<Frame>, now: real) {
    forall i :: 0 <= i < |stack| ==> FitsAt(stack, i, now)
  }

  predicate FitsAt(stack: seq<Frame>, i: nat, now: real)
    requires i < |stack|
  {
    0.0 <= stack[i].children <= (if i + 1 < |stack| then stack[i + 1].start else now) - stack[i].start
  }

  predicate Sensible(e: Event) { 0.0 <= e.exclusive <= e.duration }

  ghost predicate Timely(s: State, now: real) {
    && (forall t :: t in s.stacks ==> Fits(s.stacks[t], now))
    && forall i :: 0 <= i < |s.events| ==> Sensible(s.events[i])
  }

  lemma LaterFits(stack: seq<Frame>, now: real, later: real)
    requires Fits(stack, now) && now <= later
    ensures Fits(stack, later)
  {
    forall i | 0 <= i < |stack|
      ensures FitsAt(stack, i, later)
    {
      assert FitsAt(stack, i, now);
    }
  }

  lemma EnterFits(stack: seq<Frame>, name: string, now: real, time: real)
    requires Fits(stack, now) && now <= time
    ensures Fits(stack + [Frame(name, time, 0.0)], time)
  {
    LaterFits(stack, now, time);
    var r := stack + [Frame(name, time, 0.0)];
    forall i | 0 <= i < |r|
      ensures FitsAt(r, i, time)
    {
      assert i < |stack| ==> FitsAt(stack, i, time);
      assert i < |stack| ==> r[i] == stack[i];
      assert i + 1 < |stack| ==> r[i + 1] == stack[i + 1];
    }
  }

  lemma LeaveFits(stack: seq<Frame>, now: real, time: real)
    requires Fits(stack, now) && now <= time && stack != []
    ensures var frame, below := stack[|stack| - 1], stack[..|stack| - 1];
        0.0 <= frame.children <= time - frame.start
        && (below != [] ==>
          var n := |below| - 1;
          Fits(below[n := below[n].(children := below[n].children + (time - frame.start))], time))
  {
    var frame, below := stack[|stack| - 1], stack[..|stack| - 1];
    assert FitsAt(stack, |stack| - 1, now);
    if below != [] {
      var n := |below| - 1;
      var r := below[n := below[n].(children := below[n].children + (time - frame.start))];
      forall i | 0 <= i < |r|
        ensures FitsAt(r, i, time)
      {
        assert FitsAt(stack, i, now) && FitsAt(stack, n + 1, now);
        assert stack[i] == below[i];
        assert stack[n + 1] == frame;
        assert i + 1 < |r| ==> r[i + 1].start == stack[i + 1].start;
      }
    }
  }

  lemma StepTimely(s: State, a: Action, now: real)
    requires s.Enabled(a) && Timely(s, now) && now <= TimeOf(a)
    ensures Timely(s.Step(a), TimeOf(a))
  {
    var stack, time := s.Stack(a.thread), TimeOf(a);
    forall t | t in s.stacks
      ensures Fits(s.stacks[t], time)
    {
      LaterFits(s.stacks[t], now, time);
    }
    if a.Enter? {
      EnterFits(stack, a.name, now, time);
    } else {
      LeaveFits(stack, now, time);
    }
    hide Fits;
  }

  /** With a clock that does not run backwards, no call has a negative exclusive time or one above its duration. */
  lemma {:induction false} RunTimely(actions: seq<Action>, now: real)
    requires Runs(actions) && Monotone(actions) && forall i :: 0 <= i < |actions| ==> TimeOf(actions[i]) <= now
    ensures Timely(Run(actions), now)
  {
    if actions != [] {
      var n := |actions| - 1;
      var front := actions[..n];
      assert forall i :: 0 <= i < n ==> front[i] == actions[i];
      assert Runs(front) && Monotone(front);
      RunTimely(front, TimeOf(actions[n]));
      StepTimely(Run(front), actions[n], TimeOf(actions[n]));
      var s := Run(actions);
      hide Run, Runs, State.Step;
      forall t | t in s.stacks
        ensures Fits(s.stacks[t], now)
      {
        LaterFits(s.stacks[t], TimeOf(actions[n]), now);
      }
    }
  }

  // ----- the recorder -----

  /** The recorder's fields and what one wrapped call does to them on entry and in its `finally` block. */
  class Tracer {
    var stacks: map<Thread, seq<Frame>>
    var events: seq<Event>
    ghost var roots: map<Thread, real>

    ghost function Value(): State
      reads this
    {
      State(stacks, events, roots)
    }

    constructor ()
      ensures Value() == IDLE
    {
      stacks, events, roots := map[], [], map[];
    }

    method Start(t: Thread, name: string, time: real)
      modifies this
      ensures Value() == old(Value()).Step(Enter(t, name, time))
    {
      if t !in stacks {
        stacks := stacks[t := []];
      }
      stacks := stacks[t := stacks[t] + [Frame(name, time, 0.0)]];
    }

    method Finish(t: Thread, time: real)
      requires Value().Enabled(Leave(t, time))
      modifies this
      ensures Value() == old(Value()).Step(Leave(t, time))
    {
      var stack := stacks[t];
      var frame := stack[|stack| - 1];
      stack := stack[..|stack| - 1];
      var duration := time - frame.start;
      if stack != [] {
        var parent := stack[|stack| - 1];
        stack := stack[|stack| - 1 := parent.(children := parent.children + duration)];
      } else {
        roots := roots[t := Value().Root(t) + duration];
      }
      stacks := stacks[t := stack];
      events := events + [Event(frame.name, t, frame.start, duration, duration - frame.children)];
    }
  }
}
