/** What each call of the vblank queue does to the driver's state. */
module VblankCalls {
  import opened FrameClock
  import opened Geometry
  import opened Vblank

  /** A timer may fire exactly when it is armed and its millisecond has come. */
  lemma FireAllowedIff(s: State, a: Action)
    requires a.Fire?
    ensures CanStep(s, a) <==> a.timer in s.armed && 1000 * s.armed[a.timer] <= a.now
  {
  }

  /** A queue call fails exactly when no node is to be had, or the queue is empty and no
      timer is to be had; then no event is lost or added and no timer is touched, but
      without a timer the handle is empty. */
  lemma QueueFailsIff(s: State, a: Action)
    requires a.Queue?
    ensures var (t, e) := Step(s, a);
      && (e.ok <==> a.allocOk && (s.queue != [] || a.timerOk))
      && (!e.ok ==> t.queue == s.queue && t.armed == s.armed && t.accepted == s.accepted && t.timers == s.timers)
      && (!e.ok ==> t.current == if a.allocOk then None else s.current)
      && t.clock == s.clock && e.notified == [] && e.aborted == []
  {
  }

  /** One that succeeds appends exactly this event; if others wait it leaves the timers
      alone, else it arms a new one for it. */
  lemma QueueAppends(s: State, a: Action)
    requires a.Queue? && Step(s, a).1.ok
    ensures var t, n := Step(s, a).0, |s.queue|;
      && |t.queue| == n + 1 && t.queue[..n] == s.queue
      && t.queue[n].serial == s.accepted && t.queue[n].id == a.id && t.queue[n].target == a.target
      && t.accepted == s.accepted + 1
      && (n > 0 ==> t.armed == s.armed && t.current == s.current && t.timers == s.timers && t.seen == s.seen)
      && (n == 0 ==>
            && t.current == Some(s.timers) && t.timers == s.timers + 1 && t.armed.Keys == s.armed.Keys + {s.timers}
            && t.seen == Msc(s.clock, a.now) && forall k :: k in s.armed && k != s.timers ==> t.armed[k] == s.armed[k])
  {
  }

  /** The first timer of an event is set to the first millisecond after the start of
      its frame, or of the next frame if its own has started. */
  lemma FirstDeadlineExact(s: State, a: Action)
    requires a.Queue? && Step(s, a).1.ok && s.queue == []
    requires InRange(s.clock, a.now) && s.clock.interval > 0 && TargetFits(s.clock, a.target)
    ensures var start := FrameStart(s.clock, a.target);
      var at := if start <= a.now then FrameStart(s.clock, Msc(s.clock, a.now) + 1) else start;
      var t := Step(s, a).0;
      t.current.Some? && t.current.value in t.armed && at < 1000 * t.armed[t.current.value] <= at + 1000
  {
    NextFrameFits(s.clock, a.now);
    FrameStartIs(s.clock, Msc(s.clock, a.now) + 1);
    FrameStartIs(s.clock, a.target);
    DeadlineIsLater(FrameStart(s.clock, a.target));
    DeadlineIsLater(FrameStart(s.clock, Msc(s.clock, a.now) + 1));
  }

  /** `k` is the position of the first event with the id, or the length. */
  predicate IsFirst(q: seq<Entry>, id: int, k: nat) {
    k <= |q| && (k < |q| ==> q[k].id == id) && forall j :: 0 <= j < k ==> q[j].id != id
  }

  /** An abort removes the first event with the id, if there is one, and nothing else
      changes. */
  lemma AbortRemovesFirst(s: State, a: Action, k: nat)
    requires a.Abort? && IsFirst(s.queue, a.id, k)
    ensures var (t, e) := Step(s, a);
      && t == s.(queue := t.queue)
      && t.queue == (if k < |s.queue| then s.queue[..k] + s.queue[k + 1..] else s.queue)
      && e.aborted == (if k < |s.queue| then [s.queue[k]] else [])
  {
    assert FirstWith(s.queue, a.id) == k;
  }

  lemma {:induction false} DueBelow(q: seq<Entry>, msc: int, bound: nat)
    requires Below(q, bound)
    ensures Below(Due(q, msc), bound)
  {
    if q == [] {
    } else {
      DueBelow(q[..|q| - 1], msc, bound);
    }
  }

  lemma {:induction false} DueRising(q: seq<Entry>, msc: int)
    requires Rising(q)
    ensures Rising(Due(q, msc))
  {
    if q == [] {
    } else {
      var n := |q| - 1;
      DueRising(q[..n], msc);
      DueBelow(q[..n], msc, q[n].serial);
    }
  }

  /** A fire notifies exactly the events whose frame has come, in order and with the
      counter, and keeps the others in order. */
  lemma FireNotifiesDue(s: State, a: Action)
    requires a.Fire? && Rising(s.queue)
    ensures var (t, e) := Step(s, a); var msc := Msc(s.clock, a.now);
      && e.msc == msc && e.aborted == [] && t.clock == s.clock && t.accepted == s.accepted && t.timers == s.timers
      && (forall x :: x in e.notified <==> x in s.queue && x.target <= msc) && Rising(e.notified)
      && (forall x :: x in t.queue <==> x in s.queue && msc < x.target) && Rising(t.queue)
  {
    var msc := Msc(s.clock, a.now);
    KeepDue(s.queue, msc);
    KeepRising(s.queue, msc);
    DueRising(s.queue, msc);
  }

  /** A fire disarms its timer; it sets the driver's exactly when events remain, to the
      first millisecond after the start of the next frame; other timers stay. */
  lemma FireSetsTimer(s: State, a: Action)
    requires a.Fire? && Live(s) && Steady(s, a)
    ensures var t := Step(s, a).0; var next := FrameStart(s.clock, Msc(s.clock, a.now) + 1);
      && t.current == s.current
      && (t.queue == [] ==> t.armed == s.armed - {a.timer})
      && (t.queue != [] ==>
            && t.current.Some? && t.armed.Keys == (s.armed.Keys - {a.timer}) + {t.current.value}
            && next < 1000 * t.armed[t.current.value] <= next + 1000)
      && forall k :: k in t.armed && t.current != Some(k) ==> k in s.armed && k != a.timer && t.armed[k] == s.armed[k]
  {
    NextFrameFits(s.clock, a.now);
    FrameStartIs(s.clock, Msc(s.clock, a.now) + 1);
    DeadlineIsLater(FrameStart(s.clock, Msc(s.clock, a.now) + 1));
    FireRearms(s, a.now, a.timer);
  }

  /** A mode set touches neither events nor timers; the counter then goes on by whole
      frames of the new mode. */
  lemma ModeSetKeepsEvents(s: State, a: Action, i: int, t: int)
    requires a.ModeSet? && ModeFits(a.hTotal, a.vTotal, a.pixelClock)
    requires IsFrameTime(i, a.hTotal, a.vTotal, a.pixelClock)
    requires ValidClock(s.clock) && s.clock.ustBase <= a.now <= t < WORD
    requires s.clock.mscBase + (t - s.clock.ustBase) < WORD
    ensures var (u, e) := Step(s, a);
      && u == s.(clock := u.clock) && e.notified == [] && e.aborted == []
      && WholeFrames(Msc(s.clock, a.now), Msc(u.clock, t), i, a.now, t)
  {
    ModeSetInstalls(s.clock, a.now, a.hTotal, a.vTotal, a.pixelClock, i, t);
  }
}
