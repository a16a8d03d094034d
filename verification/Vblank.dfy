/** The vblank queue of the dummy video driver: events wait for a frame, a
    one-shot timer looks at them, and list nodes are reused through a free list. */
module Vblank {
  import opened Arithmetic
  import opened FrameClock
  import opened Geometry
  import opened Sequences

  /** An event waiting for frame `target`; `serial` counts accepted events. */
  datatype Entry = Entry(serial: nat, id: int, target: int)

  /** The events still waiting at frame `msc`, and those that are due. */
  function Keep(q: seq<Entry>, msc: int): seq<Entry> {
    if q == [] then []
    else
      var e := q[|q| - 1];
      Keep(q[..|q| - 1], msc) + (if msc < e.target then [e] else [])
  }

  function Due(q: seq<Entry>, msc: int): seq<Entry> {
    if q == [] then []
    else
      var e := q[|q| - 1];
      Due(q[..|q| - 1], msc) + (if msc < e.target then [] else [e])
  }

  /** The position of the first event with this id, or the length. */
  function FirstWith(q: seq<Entry>, id: int): (k: nat)
    ensures k <= |q| && (k < |q| ==> q[k].id == id) && forall j :: 0 <= j < k ==> q[j].id != id
  {
    if q == [] then 0
    else
      var k := FirstWith(q[..|q| - 1], id);
      if k < |q| - 1 then k else if q[|q| - 1].id == id then k else |q|
  }

  /* ---------- the driver state ---------- */

  /** `armed` holds the armed timers of the X server with their deadlines in
      milliseconds; `current` is the driver's timer handle; `seen` is the frame
      counter when that timer was last set. */
  datatype State = State(
    clock: Clock,
    queue: seq<Entry>,
    armed: map<nat, int>,
    current: Option<nat>,
    timers: nat,
    accepted: nat,
    seen: int)

  datatype Action =
    | Queue(now: int, id: int, target: int, allocOk: bool, timerOk: bool)
    | Abort(now: int, id: int)
    | Fire(now: int, timer: nat)
    | ModeSet(now: int, hTotal: int, vTotal: int, pixelClock: int)

  /** What a step tells the clients, with the frame counter if it tells them anything,
      and what it drops. */
  datatype Effect = Effect(ok: bool, msc: int, notified: seq<Entry>, aborted: seq<Entry>)

  function Deadline(ust: int): int {
    ust / 1000 + 1
  }

  /** When the first timer is set for a new event. */
  function FirstDeadline(c: Clock, now: int, target: int): int {
    var at := UstForMsc(c, target);
    Deadline(if at <= now then UstForMsc(c, Msc(c, now) + 1) else at)
  }

  function QueueStep(s: State, now: int, id: int, target: int, allocOk: bool, timerOk: bool): (State, Effect) {
    var start := s.queue == [];
    if !allocOk then (s, Effect(false, 0, [], []))
    else if start && !timerOk then (s.(current := None), Effect(false, 0, [], []))
    else
      var s' := s.(queue := s.queue + [Entry(s.accepted, id, target)], accepted := s.accepted + 1);
      if start then
        (s'.(armed := s.armed[s.timers := FirstDeadline(s.clock, now, target)], current := Some(s.timers),
          timers := s.timers + 1, seen := Msc(s.clock, now)), Effect(true, 0, [], []))
      else (s', Effect(true, 0, [], []))
  }

  function AbortStep(s: State, id: int): (State, Effect) {
    var k := FirstWith(s.queue, id);
    (s.(queue := Without(s.queue, k)), Effect(true, 0, [], if k < |s.queue| then [s.queue[k]] else []))
  }

  /** If events remain the driver's timer is set for the next frame. */
  function Rearm(s: State, msc: int): State {
    if s.queue == [] || s.current.None? then s
    else s.(armed := s.armed[s.current.value := Deadline(UstForMsc(s.clock, msc + 1))], seen := msc)
  }

  /** `dummy_do_timer`: an armed timer whose deadline has come fires and is
      disarmed. */
  function FireStep(s: State, now: int, timer: nat): (State, Effect) {
    var msc := Msc(s.clock, now);
    (Rearm(s.(queue := Keep(s.queue, msc), armed := s.armed - {timer}), msc), Effect(true, msc, Due(s.queue, msc), []))
  }

  predicate CanStep(s: State, a: Action) {
    match a
    case Fire(now, timer) => timer in s.armed && s.armed[timer] <= now / 1000
    case ModeSet(_, _, _, pixelClock) => pixelClock > 0
    case _ => true
  }

  function Step(s: State, a: Action): (State, Effect) {
    match a
    case Queue(now, id, target, allocOk, timerOk) => QueueStep(s, now, id, target, allocOk, timerOk)
    case Abort(_, id) => AbortStep(s, id)
    case Fire(now, timer) => FireStep(s, now, timer)
    case ModeSet(now, hTotal, vTotal, pixelClock) =>
      (if pixelClock > 0 then s.(clock := SetMode(s.clock, now, hTotal, vTotal, pixelClock)) else s,
        Effect(true, 0, [], []))
  }

  /* ---------- filtering ---------- */

  lemma {:induction false} KeepDueCounts(q: seq<Entry>, msc: int)
    ensures multiset(q) == multiset(Keep(q, msc)) + multiset(Due(q, msc))
  {
    if q == [] {
    } else {
      var n := |q| - 1;
      KeepDueCounts(q[..n], msc);
      assert q == q[..n] + [q[n]];
    }
  }

  lemma {:induction false} KeepHas(q: seq<Entry>, msc: int)
    ensures forall e :: e in Keep(q, msc) <==> e in q && msc < e.target
  {
    if q == [] {
    } else {
      KeepHas(q[..|q| - 1], msc);
      assert q == q[..|q| - 1] + [q[|q| - 1]];
    }
  }

  lemma {:induction false} DueHas(q: seq<Entry>, msc: int)
    ensures forall e :: e in Due(q, msc) <==> e in q && e.target <= msc
  {
    if q == [] {
    } else {
      DueHas(q[..|q| - 1], msc);
      assert q == q[..|q| - 1] + [q[|q| - 1]];
    }
  }

  /** A fire splits the queue: what is kept is not yet due, what is due is not kept,
      and nothing is lost. */
  lemma KeepDue(q: seq<Entry>, msc: int)
    ensures multiset(q) == multiset(Keep(q, msc)) + multiset(Due(q, msc))
    ensures forall e :: e in Keep(q, msc) <==> e in q && msc < e.target
    ensures forall e :: e in Due(q, msc) <==> e in q && e.target <= msc
  {
    KeepDueCounts(q, msc);
    KeepHas(q, msc);
    DueHas(q, msc);
  }

  /** Serial numbers rise along the queue: events keep their order. */
  ghost predicate Rising(q: seq<Entry>) {
    forall i, j :: 0 <= i < j < |q| ==> q[i].serial < q[j].serial
  }

  ghost predicate Below(q: seq<Entry>, bound: nat) {
    forall i :: 0 <= i < |q| ==> q[i].serial < bound
  }

  lemma {:induction false} KeepBelow(q: seq<Entry>, msc: int, bound: nat)
    requires Below(q, bound)
    ensures Below(Keep(q, msc), bound)
  {
    if q == [] {
    } else {
      KeepBelow(q[..|q| - 1], msc, bound);
    }
  }

  lemma {:induction false} KeepRising(q: seq<Entry>, msc: int)
    requires Rising(q)
    ensures Rising(Keep(q, msc))
  {
    if q == [] {
    } else {
      var n := |q| - 1;
      KeepRising(q[..n], msc);
      KeepBelow(q[..n], msc, q[n].serial);
    }
  }

  lemma WithoutRising(q: seq<Entry>, k: nat)
    requires Rising(q)
    ensures Rising(Without(q, k))
    ensures k < |q| ==> multiset(q) == multiset(Without(q, k)) + multiset{q[k]}
  {
    if k < |q| {
      assert q == q[..k] + [q[k]] + q[k + 1..];
    }
  }

  /* ---------- a timer stays armed ---------- */

  /** While events wait, the driver's timer is armed. */
  predicate Live(s: State) {
    && (forall t :: t in s.armed ==> t < s.timers)
    && (s.queue != [] ==> s.current.Some? && s.current.value in s.armed)
  }

  lemma LiveStep(s: State, a: Action)
    requires Live(s) && CanStep(s, a)
    ensures Live(Step(s, a).0)
  {
    if a.Fire? {
      KeepDue(s.queue, Msc(s.clock, a.now));
      if s.queue == [] {
        assert Keep(s.queue, Msc(s.clock, a.now)) == [];
      }
    }
  }

  /* ---------- conservation over runs ---------- */

  /** Everything that ever happened to accepted events. */
  datatype History = History(s: State, accepted: seq<Entry>, notified: seq<(Entry, int)>, aborted: seq<Entry>)

  function Stamp(es: seq<Entry>, msc: int): (ns: seq<(Entry, int)>)
    ensures |ns| == |es|
  {
    seq(|es|, i requires 0 <= i < |es| => (es[i], msc))
  }

  function Entries(ns: seq<(Entry, int)>): (es: seq<Entry>)
    ensures |es| == |ns|
  {
    seq(|ns|, i requires 0 <= i < |ns| => ns[i].0)
  }

  function Record(h: History, a: Action): History {
    var (s, e) := Step(h.s, a);
    var taken := if a.Queue? && e.ok then [Entry(h.s.accepted, a.id, a.target)] else [];
    History(s, h.accepted + taken, h.notified + Stamp(e.notified, e.msc), h.aborted + e.aborted)
  }

  function RecordAll(h: History, run: seq<Action>): History {
    if run == [] then h else Record(RecordAll(h, run[..|run| - 1]), run[|run| - 1])
  }

  ghost predicate CanRun(h: History, run: seq<Action>) {
    forall n :: 0 <= n < |run| ==> CanStep(RecordAll(h, run[..n]).s, run[n])
  }

  function Begin(c: Clock): History {
    History(State(c, [], map[], None, 0, 0, 0), [], [], [])
  }

  ghost predicate Balanced(h: History) {
    multiset(h.accepted) == multiset(h.s.queue) + multiset(Entries(h.notified)) + multiset(h.aborted)
  }

  /** Every accepted event is waiting, notified or aborted, in exactly one place
      and once; it was notified only when its frame had come; those that wait
      stand in the order they were accepted; and if any wait, a timer is armed. */
  ghost predicate Conserved(h: History) {
    && Live(h.s)
    && |h.accepted| == h.s.accepted
    && (forall i :: 0 <= i < |h.accepted| ==> h.accepted[i].serial == i)
    && Balanced(h)
    && (forall n :: n in h.notified ==> n.0.target <= n.1)
    && Rising(h.s.queue)
  }

  lemma EntriesAppend(ns: seq<(Entry, int)>, es: seq<Entry>, msc: int)
    ensures Entries(ns + Stamp(es, msc)) == Entries(ns) + es
  {
  }

  /** Events move from the queue to the other places, or arrive in it. */
  lemma BalancedMove(h: History, taken: seq<Entry>, queue: seq<Entry>, due: seq<Entry>, msc: int, dropped: seq<Entry>)
    requires Balanced(h)
    requires multiset(h.s.queue) + multiset(taken) == multiset(queue) + multiset(due) + multiset(dropped)
    ensures multiset(h.accepted + taken) ==
      multiset(queue) + multiset(Entries(h.notified + Stamp(due, msc))) + multiset(h.aborted + dropped)
  {
    EntriesAppend(h.notified, due, msc);
    var q, n, b := multiset(h.s.queue), multiset(Entries(h.notified)), multiset(h.aborted);
    assert multiset(h.accepted + taken) == q + n + b + multiset(taken);
    assert multiset(Entries(h.notified + Stamp(due, msc))) == n + multiset(due);
    assert multiset(h.aborted + dropped) == b + multiset(dropped);
    assert q + n + b + multiset(taken) == (q + multiset(taken)) + n + b;
    assert (multiset(queue) + multiset(due) + multiset(dropped)) + n + b ==
      multiset(queue) + (n + multiset(due)) + (b + multiset(dropped));
  }

  lemma NewSerialIsHighest(h: History, id: int, target: int)
    requires Conserved(h)
    ensures Rising(h.s.queue + [Entry(h.s.accepted, id, target)])
  {
    forall i | 0 <= i < |h.s.queue|
      ensures h.s.queue[i].serial < h.s.accepted
    {
      QueuedWasAccepted(h, h.s.queue[i]);
    }
  }

  lemma ConservedQueue(h: History, a: Action)
    requires Conserved(h) && a.Queue?
    ensures Conserved(Record(h, a))
  {
    LiveStep(h.s, a);
    NewSerialIsHighest(h, a.id, a.target);
    var (s', e) := QueueStep(h.s, a.now, a.id, a.target, a.allocOk, a.timerOk);
    BalancedMove(h, if e.ok then [Entry(h.s.accepted, a.id, a.target)] else [], s'.queue, [], e.msc, []);
  }

  lemma QueuedWasAccepted(h: History, e: Entry)
    requires Conserved(h) && e in h.s.queue
    ensures e.serial < h.s.accepted && h.accepted[e.serial] == e
  {
    assert e in multiset(h.accepted);
    var i :| 0 <= i < |h.accepted| && h.accepted[i] == e;
  }

  lemma ConservedAbort(h: History, a: Action)
    requires Conserved(h) && a.Abort?
    ensures Conserved(Record(h, a))
  {
    LiveStep(h.s, a);
    WithoutRising(h.s.queue, FirstWith(h.s.queue, a.id));
    var (s', e) := AbortStep(h.s, a.id);
    BalancedMove(h, [], s'.queue, [], 0, e.aborted);
  }

  lemma ConservedFire(h: History, a: Action)
    requires Conserved(h) && a.Fire? && CanStep(h.s, a)
    ensures Conserved(Record(h, a))
  {
    var msc := Msc(h.s.clock, a.now);
    LiveStep(h.s, a);
    KeepDue(h.s.queue, msc);
    KeepRising(h.s.queue, msc);
    BalancedMove(h, [], Keep(h.s.queue, msc), Due(h.s.queue, msc), msc, []);
    StampDue(h.s.queue, msc);
  }

  lemma StampDue(q: seq<Entry>, msc: int)
    ensures forall n :: n in Stamp(Due(q, msc), msc) ==> n.0.target <= n.1
  {
    KeepDue(q, msc);
    forall n | n in Stamp(Due(q, msc), msc)
      ensures n.0.target <= n.1
    {
      assert n.0 in Due(q, msc);
    }
  }

  lemma ConservedModeSet(h: History, a: Action)
    requires Conserved(h) && a.ModeSet? && CanStep(h.s, a)
    ensures Conserved(Record(h, a))
  {
    LiveStep(h.s, a);
    BalancedMove(h, [], h.s.queue, [], 0, []);
  }

  /** Conservation over every run of queue, abort, fire and mode-set steps. */
  lemma {:induction false} EventsConserved(c: Clock, run: seq<Action>)
    requires CanRun(Begin(c), run)
    ensures Conserved(RecordAll(Begin(c), run))
  {
    if run != [] {
      var n := |run| - 1;
      var before := run[..n];
      forall k | 0 <= k < n
        ensures CanStep(RecordAll(Begin(c), before[..k]).s, before[k])
      {
        assert before[..k] == run[..k];
        assert CanStep(RecordAll(Begin(c), run[..k]).s, run[k]);
      }
      EventsConserved(c, before);
      var h, a := RecordAll(Begin(c), before), run[n];
      assert CanStep(h.s, a);
      match a
      case Queue(_, _, _, _, _) => ConservedQueue(h, a);
      case Abort(_, _) => ConservedAbort(h, a);
      case Fire(_, _) => ConservedFire(h, a);
      case ModeSet(_, _, _, _) => ConservedModeSet(h, a);
    } else {
      assert Entries([]) == [];
    }
  }

  /** An accepted event is in one place only: the places a single event can be
      found add up to one, so it is never notified twice, nor after an abort. */
  lemma InOnePlace(h: History, i: nat)
    requires Conserved(h) && i < |h.accepted|
    ensures var e := h.accepted[i];
      multiset(h.s.queue)[e] + multiset(Entries(h.notified))[e] + multiset(h.aborted)[e] == 1
  {
    var e := h.accepted[i];
    DistinctCount(h.accepted, i);
    assert multiset(h.accepted)[e] ==
      multiset(h.s.queue)[e] + multiset(Entries(h.notified))[e] + multiset(h.aborted)[e];
  }

  lemma {:induction false} DistinctCount(es: seq<Entry>, i: nat)
    requires i < |es| && forall j :: 0 <= j < |es| ==> es[j].serial == j
    ensures multiset(es)[es[i]] == 1
  {
    var n := |es| - 1;
    assert es == es[..n] + [es[n]];
    if i < n {
      DistinctCount(es[..n], i);
      assert es[..n][i] == es[i];
    } else {
      assert es[i] !in es[..n];
    }
  }

  /* ---------- progress ---------- */

  /** When frame `msc` starts, before wrapping. */
  function FrameStart(c: Clock, msc: int): int {
    c.ustBase + c.interval * (msc - c.mscBase)
  }

  /** A target the driver can be asked for without wrapping its arithmetic. */
  predicate TargetFits(c: Clock, target: int) {
    c.mscBase <= target && FrameStart(c, target) < WORD
  }

  lemma FrameStartIs(c: Clock, target: int)
    requires ValidClock(c) && TargetFits(c, target)
    ensures UstForMsc(c, target) == FrameStart(c, target)
  {
    MulMonotone(0, target - c.mscBase, c.interval);
    assert c.interval * (target - c.mscBase) == (target - c.mscBase) * c.interval;
  }

  lemma NextFrameFits(c: Clock, now: int)
    requires InRange(c, now) && c.interval > 0
    ensures TargetFits(c, Msc(c, now) + 1) && now < FrameStart(c, Msc(c, now) + 1) && c.mscBase <= Msc(c, now)
  {
    MscIs(c, now);
    DivFrame(now - c.ustBase, c.interval);
    var q := (now - c.ustBase) / c.interval;
    assert Msc(c, now) + 1 - c.mscBase == q + 1;
  }

  /** A later frame starts no earlier. */
  lemma FrameStartMonotone(c: Clock, m: int, n: int)
    requires m <= n && c.interval > 0
    ensures FrameStart(c, m) <= FrameStart(c, n)
  {
    MulMonotone(m - c.mscBase, n - c.mscBase, c.interval);
    assert c.interval * (m - c.mscBase) == (m - c.mscBase) * c.interval;
    assert c.interval * (n - c.mscBase) == (n - c.mscBase) * c.interval;
  }

  /** A deadline lies beyond the instant it was computed from, despite the
      rounding to milliseconds. */
  lemma DeadlineIsLater(ust: int)
    ensures ust < 1000 * Deadline(ust) <= ust + 1000
  {
  }

  /** While events wait, the driver's timer is set beyond the start of the frame
      after the one seen when it was set. */
  ghost predicate Ahead(s: State) {
    && Live(s)
    && (s.queue != [] ==>
        s.clock.mscBase <= s.seen && FrameStart(s.clock, s.seen + 1) < 1000 * s.armed[s.current.value])
  }

  /** The steps the progress argument is about: no mode set, time within range,
      targets that fit. */
  ghost predicate Steady(s: State, a: Action) {
    && CanStep(s, a) && !a.ModeSet? && InRange(s.clock, a.now) && s.clock.interval > 0
    && (a.Queue? ==> TargetFits(s.clock, a.target))
  }

  lemma FirstDeadlineAhead(c: Clock, now: int, target: int)
    requires InRange(c, now) && c.interval > 0 && TargetFits(c, target)
    ensures FrameStart(c, Msc(c, now) + 1) < 1000 * FirstDeadline(c, now, target)
  {
    NextFrameFits(c, now);
    FrameStartIs(c, Msc(c, now) + 1);
    FrameStartIs(c, target);
    if now < FrameStart(c, target) {
      if target <= Msc(c, now) {
        FrameStartMonotone(c, target, Msc(c, now));
        FrameBrackets(c, now);
        CurrentFrameFits(c, now);
      }
      FrameStartMonotone(c, Msc(c, now) + 1, target);
      DeadlineIsLater(FrameStart(c, target));
    } else {
      DeadlineIsLater(FrameStart(c, Msc(c, now) + 1));
    }
  }

  lemma CurrentFrameFits(c: Clock, now: int)
    requires InRange(c, now) && c.interval > 0
    ensures TargetFits(c, Msc(c, now)) && FrameStart(c, Msc(c, now)) <= now
    ensures UstForMsc(c, Msc(c, now)) == FrameStart(c, Msc(c, now))
  {
    MscIs(c, now);
    DivFrame(now - c.ustBase, c.interval);
    assert Msc(c, now) - c.mscBase == (now - c.ustBase) / c.interval;
    FrameStartIs(c, Msc(c, now));
  }

  lemma AheadStep(s: State, a: Action)
    requires Ahead(s) && Steady(s, a)
    ensures Ahead(Step(s, a).0)
  {
    LiveStep(s, a);
    match a
    case Queue(now, id, target, allocOk, timerOk) =>
      FirstDeadlineAhead(s.clock, now, target);
      NextFrameFits(s.clock, now);
    case Abort(_, id) =>
    case Fire(now, timer) =>
      NextFrameFits(s.clock, now);
      FrameStartIs(s.clock, Msc(s.clock, now) + 1);
      DeadlineIsLater(FrameStart(s.clock, Msc(s.clock, now) + 1));
      FireRearms(s, now, timer);
  }

  lemma FireRearms(s: State, now: int, timer: nat)
    requires Live(s) && timer in s.armed
    ensures var s' := FireStep(s, now, timer).0;
      s'.queue != [] ==>
        && s'.current == s.current && s'.current.Some? && s'.current.value in s'.armed
        && s'.seen == Msc(s.clock, now)
        && s'.armed[s'.current.value] == Deadline(UstForMsc(s.clock, Msc(s.clock, now) + 1))
  {
    if s.queue == [] {
      assert Keep(s.queue, Msc(s.clock, now)) == [];
    }
  }

  /** When the driver's own timer fires the counter has advanced beyond the frame
      seen when it was set. */
  lemma OwnFireAdvances(s: State, a: Action)
    requires Ahead(s) && Steady(s, a) && a.Fire? && s.queue != [] && s.current == Some(a.timer)
    ensures Msc(s.clock, a.now) >= s.seen + 1
  {
    FrameAfter(s.clock, s.seen + 1, a.now);
  }

  /* ---------- how many fires until an event is notified ---------- */

  function After(s: State, run: seq<Action>): State {
    if run == [] then s else Step(After(s, run[..|run| - 1]), run[|run| - 1]).0
  }

  /** How often in a run the driver's own timer fires while events wait. */
  function OwnFires(s: State, run: seq<Action>): nat {
    if run == [] then 0
    else
      var before, a := After(s, run[..|run| - 1]), run[|run| - 1];
      OwnFires(s, run[..|run| - 1]) +
      (if OwnFire(before, a) then 1 else 0)
  }

  ghost predicate SteadySteps(s: State, run: seq<Action>) {
    run == [] ||
    (SteadySteps(s, run[..|run| - 1]) && Steady(After(s, run[..|run| - 1]), run[|run| - 1]))
  }

  /** The actions of the run come in the order of time, from `from` on. */
  ghost predicate InOrder(run: seq<Action>, from: int) {
    && (forall n :: 0 <= n < |run| ==> from <= run[n].now)
    && (forall m, n :: 0 <= m < n < |run| ==> run[m].now <= run[n].now)
  }

  ghost predicate SteadyRun(s: State, run: seq<Action>, from: int) {
    SteadySteps(s, run) && InOrder(run, from)
  }

  /** State `t` is reached from `s` with `fires` own fires, at time `last`: if event `e`
      still waits as many frames have been seen. */
  ghost predicate Waiting(s: State, t: State, fires: nat, e: Entry, last: int) {
    && t.clock == s.clock && e.serial < t.accepted && InRange(t.clock, last)
    && (e in t.queue ==>
          && t.seen >= s.seen + fires
          && t.seen <= Msc(t.clock, last)
          && (fires > 0 ==> t.seen < e.target))
  }

  /** What holds of an event that has waited through a run. */
  ghost predicate Waited(s: State, run: seq<Action>, e: Entry, last: int) {
    Ahead(After(s, run)) && Waiting(s, After(s, run), OwnFires(s, run), e, last)
  }

  predicate OwnFire(t: State, a: Action) {
    a.Fire? && t.queue != [] && t.current == Some(a.timer)
  }

  lemma WaitingStep(s: State, t: State, fires: nat, a: Action, e: Entry, last: int)
    requires Live(t) && CanStep(t, a) && !a.ModeSet? && Waiting(s, t, fires, e, last) && InRange(t.clock, a.now)
    requires Msc(t.clock, last) <= Msc(t.clock, a.now)
    requires e in t.queue || e !in Step(t, a).0.queue
    requires OwnFire(t, a) ==> Msc(t.clock, a.now) >= t.seen + 1
    ensures Waiting(s, Step(t, a).0, fires + (if OwnFire(t, a) then 1 else 0), e, a.now)
  {
    if e in t.queue && a.Fire? {
      KeepDue(t.queue, Msc(t.clock, a.now));
      FireRearms(t, a.now, a.timer);
    }
  }

  lemma WaitedStep(s: State, run: seq<Action>, a: Action, e: Entry, last: int)
    requires Waited(s, run, e, last) && Steady(After(s, run), a) && s.clock.ustBase <= last <= a.now
    requires e in After(s, run).queue || e !in Step(After(s, run), a).0.queue
    ensures Waited(s, run + [a], e, a.now)
  {
    var t := After(s, run);
    assert (run + [a])[..|run|] == run;
    AheadStep(t, a);
    MscMonotone(t.clock, last, a.now);
    if OwnFire(t, a) {
      OwnFireAdvances(t, a);
    }
    WaitingStep(s, t, OwnFires(s, run), a, e, last);
  }

  lemma NoReentry(s: State, a: Action, e: Entry)
    requires e.serial < s.accepted && e !in s.queue
    ensures e !in Step(s, a).0.queue
  {
    match a
    case Queue(_, _, _, _, _) =>
    case Abort(_, _) =>
    case Fire(now, _) => KeepDue(s.queue, Msc(s.clock, now));
    case ModeSet(_, _, _, _) =>
  }

  lemma WaitedStart(s: State, e: Entry, from: int)
    requires Ahead(s) && e.serial < s.accepted && InRange(s.clock, from) && s.seen <= Msc(s.clock, from)
    ensures Waited(s, [], e, from)
  {
  }

  function LastTime(run: seq<Action>, from: int): int {
    if run == [] then from else run[|run| - 1].now
  }

  lemma InOrderPrefix(run: seq<Action>, from: int)
    requires run != [] && InOrder(run, from)
    ensures InOrder(run[..|run| - 1], from) && from <= LastTime(run[..|run| - 1], from) <= run[|run| - 1].now
  {
  }

  lemma {:induction false} WaitedRun(s: State, run: seq<Action>, e: Entry, from: int)
    requires Ahead(s) && e.serial < s.accepted && SteadyRun(s, run, from)
    requires InRange(s.clock, from) && s.clock.interval > 0 && s.seen <= Msc(s.clock, from)
    ensures Waited(s, run, e, LastTime(run, from))
  {
    if run == [] {
      WaitedStart(s, e, from);
    } else {
      var before, a := run[..|run| - 1], run[|run| - 1];
      InOrderPrefix(run, from);
      WaitedRun(s, before, e, from);
      if e !in After(s, before).queue {
        NoReentry(After(s, before), a, e);
      }
      WaitedStep(s, before, a, e, LastTime(before, from));
      assert before + [a] == run;
    }
  }

  /** Progress: without mode sets, once the driver's own timer has fired as many
      times as frames were missing to the target (and at least once), a waiting
      event has been notified or aborted, whatever was queued, aborted or fired
      in between. */
  lemma NotifiedInTime(s: State, run: seq<Action>, e: Entry, from: int)
    requires Ahead(s) && e.serial < s.accepted && SteadyRun(s, run, from)
    requires InRange(s.clock, from) && s.clock.interval > 0 && s.seen <= Msc(s.clock, from)
    requires OwnFires(s, run) >= 1 && OwnFires(s, run) >= e.target - s.seen
    ensures e !in After(s, run).queue
  {
    WaitedRun(s, run, e, from);
  }

  /* ---------- after a mode set ---------- */

  /** Any fire of a steady clock sets the timer ahead again, whatever was so before. */
  lemma FireRestoresAhead(s: State, a: Action)
    requires Live(s) && Steady(s, a) && a.Fire?
    ensures var t := Step(s, a).0;
      Ahead(t) && (t.queue != [] ==> t.seen == Msc(s.clock, a.now))
  {
    LiveStep(s, a);
    NextFrameFits(s.clock, a.now);
    FrameStartIs(s.clock, Msc(s.clock, a.now) + 1);
    DeadlineIsLater(FrameStart(s.clock, Msc(s.clock, a.now) + 1));
    FireRearms(s, a.now, a.timer);
  }

  lemma {:induction false} NoReentryRun(s: State, run: seq<Action>, e: Entry)
    requires e.serial < s.accepted && e !in s.queue
    ensures e.serial < After(s, run).accepted && e !in After(s, run).queue
  {
    if run == [] {
    } else {
      NoReentryRun(s, run[..|run| - 1], e);
      NoReentry(After(s, run[..|run| - 1]), run[|run| - 1], e);
    }
  }

  /** Progress from any live state, in particular after mode sets with events waiting:
      an event is gone after the first fire of any timer and then as many fires of
      the driver's own as frames were missing at that first fire. */
  lemma NotifiedAfterFire(s: State, a: Action, run: seq<Action>, e: Entry)
    requires Live(s) && Steady(s, a) && a.Fire? && e.serial < s.accepted
    requires SteadyRun(Step(s, a).0, run, a.now)
    requires OwnFires(Step(s, a).0, run) >= e.target - Msc(s.clock, a.now)
    ensures e !in After(Step(s, a).0, run).queue
  {
    var t := Step(s, a).0;
    FireRestoresAhead(s, a);
    KeepDue(s.queue, Msc(s.clock, a.now));
    if e in t.queue {
      NotifiedInTime(t, run, e, a.now);
    } else {
      NoReentryRun(t, run, e);
    }
  }
}
