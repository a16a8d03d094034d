/** How many timers of the X server the dummy driver keeps armed: an abort leaves its
    timer behind, and the next event starts another one. */
module Timers {
  import opened FrameClock
  import opened Sequences
  import opened Vblank

  ghost predicate IsRun(s: State, run: seq<Action>) {
    forall n :: 0 <= n < |run| ==> CanStep(After(s, run[..n]), run[n])
  }

  lemma RunPrefix(s: State, run: seq<Action>)
    requires run != [] && IsRun(s, run)
    ensures IsRun(s, run[..|run| - 1]) && CanStep(After(s, run[..|run| - 1]), run[|run| - 1])
  {
    var before := run[..|run| - 1];
    forall n | 0 <= n < |before|
      ensures CanStep(After(s, before[..n]), before[n])
    {
      assert before[..n] == run[..n];
    }
  }

  lemma {:induction false} LiveRun(s: State, run: seq<Action>)
    requires Live(s) && IsRun(s, run)
    ensures Live(After(s, run))
  {
    if run == [] {
    } else {
      RunPrefix(s, run);
      LiveRun(s, run[..|run| - 1]);
      LiveStep(After(s, run[..|run| - 1]), run[|run| - 1]);
    }
  }

  /* ---------- when a second timer is armed ---------- */

  /** A queue step that succeeds although the queue is empty and a timer is armed. */
  predicate StartsSecond(s: State, a: Action) {
    a.Queue? && Step(s, a).1.ok && s.queue == [] && s.armed != map[]
  }

  /** A queue step arms one more timer if it succeeds and finds the queue empty, and
      none otherwise. */
  lemma QueueArms(s: State, a: Action)
    requires Live(s) && a.Queue?
    ensures var (s', e) := Step(s, a);
      |s'.armed| == |s.armed| + (if e.ok && s.queue == [] then 1 else 0)
  {
    var (s', e) := Step(s, a);
    if e.ok && s.queue == [] {
      assert s'.armed.Keys == s.armed.Keys + {s.timers};
    }
  }

  /** A fire disarms its timer; the one it may set again was armed. */
  lemma FireArms(s: State, a: Action)
    requires Live(s) && a.Fire? && CanStep(s, a)
    ensures |Step(s, a).0.armed| <= |s.armed|
  {
    var s' := Step(s, a).0;
    KeepDue(s.queue, Msc(s.clock, a.now));
    FireRearms(s, a.now, a.timer);
    SubsetSize(s'.armed.Keys, s.armed.Keys);
  }

  lemma SubsetSize<T>(a: set<T>, b: set<T>)
    requires a <= b
    ensures |a| <= |b|
  {
    assert b == a + (b - a);
  }

  /** With at most one timer armed, a step leaves more than one exactly when it starts
      a second. */
  lemma SecondTimerIff(s: State, a: Action)
    requires Live(s) && CanStep(s, a) && |s.armed| <= 1
    ensures |Step(s, a).0.armed| > 1 <==> StartsSecond(s, a)
  {
    match a
    case Queue(_, _, _, _, _) => QueueArms(s, a);
    case Abort(_, _) =>
    case Fire(_, _) => FireArms(s, a);
    case ModeSet(_, _, _, _) =>
  }

  /** At no time of the run is more than one timer armed. */
  ghost predicate OneAtATime(s: State, run: seq<Action>) {
    |After(s, run).armed| <= 1 && (run == [] || OneAtATime(s, run[..|run| - 1]))
  }

  ghost predicate NeverStartsSecond(s: State, run: seq<Action>) {
    run == [] ||
    (NeverStartsSecond(s, run[..|run| - 1]) && !StartsSecond(After(s, run[..|run| - 1]), run[|run| - 1]))
  }

  /** Over every run: more than one timer is armed at some time exactly when some queue
      step succeeds with the queue empty and a timer still armed. */
  lemma {:induction false} OneTimerIff(s: State, run: seq<Action>)
    requires Live(s) && |s.armed| <= 1 && IsRun(s, run)
    ensures OneAtATime(s, run) <==> NeverStartsSecond(s, run)
  {
    if run == [] {
    } else {
      var before := run[..|run| - 1];
      RunPrefix(s, run);
      LiveRun(s, before);
      OneTimerIff(s, before);
      if |After(s, before).armed| <= 1 {
        SecondTimerIff(After(s, before), run[|run| - 1]);
      }
    }
  }

  lemma ThreeSteps(s: State, a: Action, b: Action, c: Action)
    requires var s1 := Step(s, a).0; CanStep(s, a) && CanStep(s1, b) && CanStep(Step(s1, b).0, c)
    ensures IsRun(s, [a, b, c]) && After(s, [a, b, c]) == Step(Step(Step(s, a).0, b).0, c).0
  {
    var run := [a, b, c];
    assert run[..0] == [] && run[..1][..0] == [] && run[..2][..1] == run[..1];
    assert After(s, run[..1]) == Step(s, a).0;
    assert After(s, run[..2]) == Step(After(s, run[..1]), b).0;
  }

  /** An event that is queued first and then aborted leaves its timer armed. */
  lemma AbortLeavesTimer(s: State, now: int, id: int, target: int)
    requires s.queue == []
    ensures var t := Step(Step(s, Queue(now, id, target, true, true)).0, Abort(now, id)).0;
      t.queue == [] && t.armed.Keys == s.armed.Keys + {s.timers} && t.timers == s.timers + 1
  {
    var e := Entry(s.accepted, id, target);
    var u := Step(s, Queue(now, id, target, true, true)).0;
    assert u.queue == [e] && u.queue[0] == e;
    assert Without([e], 0) == [];
  }

  /** It does happen: an event is queued and aborted, and another one is queued. */
  lemma TwoTimersArmed(c: Clock)
    ensures var run := [Queue(0, 1, 5, true, true), Abort(0, 1), Queue(0, 2, 6, true, true)];
      IsRun(Begin(c).s, run) && After(Begin(c).s, run).armed.Keys == {0, 1}
  {
    ThreeSteps(Begin(c).s, Queue(0, 1, 5, true, true), Abort(0, 1), Queue(0, 2, 6, true, true));
    AbortLeavesTimer(Begin(c).s, 0, 1, 5);
  }

  /* ---------- without aborts there is one timer ---------- */

  /** A timer is armed exactly while events wait, and it is the driver's. */
  ghost predicate OneTimer(s: State) {
    if s.queue == [] then s.armed == map[]
    else s.current.Some? && s.armed.Keys == {s.current.value}
  }

  lemma OneTimerStep(s: State, a: Action)
    requires OneTimer(s) && CanStep(s, a) && !a.Abort?
    ensures OneTimer(Step(s, a).0)
  {
    if a.Fire? {
      assert s.queue != [] && s.armed.Keys == {a.timer};
    }
  }

  /** In every run without aborts the driver keeps exactly one timer armed while events
      wait, and none otherwise. */
  lemma {:induction false} OneTimerRun(s: State, run: seq<Action>)
    requires OneTimer(s) && IsRun(s, run) && forall n :: 0 <= n < |run| ==> !run[n].Abort?
    ensures OneTimer(After(s, run))
  {
    if run == [] {
    } else {
      RunPrefix(s, run);
      OneTimerRun(s, run[..|run| - 1]);
      OneTimerStep(After(s, run[..|run| - 1]), run[|run| - 1]);
    }
  }
}
