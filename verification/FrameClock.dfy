/** The frame counter of the dummy video driver: a 64-bit count of frames derived
    from a microsecond clock and rebased at every mode set. */
module FrameClock {
  import opened Arithmetic

  const WORD := 0x1_0000_0000_0000_0000

  /** The value of a computation in 64-bit unsigned arithmetic; one that fits is
      left alone. */
  function Wrap(x: int): int {
    if 0 <= x < WORD then x else x % 0x1_0000_0000_0000_0000
  }

  datatype Clock = Clock(ustBase: int, mscBase: int, interval: int)

  predicate ValidClock(c: Clock) {
    0 <= c.ustBase < WORD && 0 <= c.mscBase < WORD && 0 <= c.interval < WORD
  }

  /** The frame counter `dummy_get_ust_msc` reports at time `ust`. */
  function Msc(c: Clock, ust: int): int {
    if c.interval == 0 then c.mscBase else Wrap(c.mscBase + Wrap(ust - c.ustBase) / c.interval)
  }

  /** `dummy_present_ust_for_msc`: when frame `msc` starts. */
  function UstForMsc(c: Clock, msc: int): int {
    Wrap(c.ustBase + c.interval * (msc - c.mscBase))
  }

  /** The frame interval in microseconds for a mode with a pixel clock in kHz. */
  function FrameInterval(hTotal: int, vTotal: int, clock: int): int
    requires clock > 0
  {
    Wrap(Wrap(1000 * hTotal * vTotal) + clock / 2) / clock
  }

  /** `crtc_set_mode_major` at time `ust`: the frames so far are banked. */
  function SetMode(c: Clock, ust: int, hTotal: int, vTotal: int, clock: int): Clock
    requires clock > 0
  {
    var banked := if c.interval == 0 then c.mscBase else Wrap(c.mscBase + Wrap(ust - c.ustBase) / c.interval);
    Clock(ust, banked, FrameInterval(hTotal, vTotal, clock))
  }

  /** The interval is the exact frame time rounded to the nearest microsecond. */
  lemma FrameIntervalRounds(hTotal: int, vTotal: int, clock: int)
    requires clock > 0 && 0 <= 1000 * hTotal * vTotal && 1000 * hTotal * vTotal + clock / 2 < WORD
    ensures var i := FrameInterval(hTotal, vTotal, clock);
      2 * (i * clock) - clock <= 2 * (1000 * hTotal * vTotal) < 2 * (i * clock) + clock + 2
  {
    RoundedDivision(1000 * hTotal * vTotal, clock);
  }

  /** The clock reads no earlier than its base, and neither the frame count nor
      the start of the next frame overflows 64 bits. */
  predicate InRange(c: Clock, ust: int) {
    ValidClock(c) && c.ustBase <= ust && ust + c.interval < WORD && c.mscBase + (ust - c.ustBase) + 1 < WORD
  }

  /** Below the word size the counter is plain division. */
  lemma MscIs(c: Clock, ust: int)
    requires InRange(c, ust) && c.interval > 0
    ensures var q := (ust - c.ustBase) / c.interval;
      && 0 <= q <= ust - c.ustBase && Msc(c, ust) == c.mscBase + q
  {
    DivAtMost(ust - c.ustBase, c.interval);
  }

  lemma UstForMscIs(c: Clock, offset: int)
    requires ValidClock(c) && 0 <= offset && c.ustBase + offset < WORD
    ensures Wrap(c.ustBase + offset) == c.ustBase + offset
  {
  }

  /** Every instant lies within the frame the counter shows. */
  lemma FrameBrackets(c: Clock, ust: int)
    requires InRange(c, ust) && c.interval > 0
    ensures UstForMsc(c, Msc(c, ust)) <= ust < UstForMsc(c, Msc(c, ust) + 1)
    ensures UstForMsc(c, Msc(c, ust) + 1) <= ust + c.interval
  {
    MscIs(c, ust);
    DivFrame(ust - c.ustBase, c.interval);
    var q := (ust - c.ustBase) / c.interval;
    assert Msc(c, ust) - c.mscBase == q;
    MulMonotone(0, q, c.interval);
    UstForMscIs(c, c.interval * q);
    UstForMscIs(c, c.interval * (q + 1));
  }

  /** The counter is monotone in the clock. */
  lemma MscMonotone(c: Clock, t: int, u: int)
    requires InRange(c, u) && c.ustBase <= t <= u
    ensures Msc(c, t) <= Msc(c, u)
  {
    if c.interval > 0 {
      MscIs(c, t);
      MscIs(c, u);
      DivMonotone(t - c.ustBase, u - c.ustBase, c.interval);
    }
  }

  /** At the instant of a mode set the counter does not move. */
  lemma SetModeKeepsCount(c: Clock, ust: int, hTotal: int, vTotal: int, clock: int)
    requires clock > 0 && ValidClock(c)
    ensures Msc(SetMode(c, ust, hTotal, vTotal, clock), ust) == Msc(c, ust)
  {
    var i := FrameInterval(hTotal, vTotal, clock);
    if i != 0 {
      assert Wrap(ust - ust) / i == 0 by {
        if i > 0 {
          DivExact(0, i);
        } else {
          DivExact(0, -i);
        }
      }
    }
  }

  /** The first frame that starts after time `ust`. */
  lemma FrameAfter(c: Clock, msc: int, ust: int)
    requires InRange(c, ust) && c.interval > 0 && c.mscBase <= msc
    requires c.ustBase + c.interval * (msc - c.mscBase) <= ust
    ensures Msc(c, ust) >= msc
  {
    MscIs(c, ust);
    var k := msc - c.mscBase;
    assert c.interval * k == k * c.interval;
    DivExact(k, c.interval);
    DivMonotone(k * c.interval, ust - c.ustBase, c.interval);
  }

  /* ---------- runs ---------- */

  datatype ClockEvent =
    | Reading(ust: int)
    | ModeSet(ust: int, hTotal: int, vTotal: int, clock: int)

  predicate Ordered(events: seq<ClockEvent>, from: int, to: int) {
    && (forall e :: e in events ==> from <= e.ust <= to && (e.ModeSet? ==> e.clock > 0))
    && (forall i, j :: 0 <= i < j < |events| ==> events[i].ust <= events[j].ust)
  }

  /** The counter shown at each event of a run. */
  function Shown(c: Clock, events: seq<ClockEvent>): (ms: seq<int>)
    requires forall e :: e in events && e.ModeSet? ==> e.clock > 0
    ensures |ms| == |events|
    decreases |events|
  {
    if events == [] then []
    else
      var e := events[0];
      var next := if e.ModeSet? then SetMode(c, e.ust, e.hTotal, e.vTotal, e.clock) else c;
      [Msc(c, e.ust)] + Shown(next, events[1..])
  }

  lemma FrameIntervalValid(hTotal: int, vTotal: int, clock: int)
    requires clock > 0
    ensures 0 <= FrameInterval(hTotal, vTotal, clock) < WORD
  {
    var n := Wrap(Wrap(1000 * hTotal * vTotal) + clock / 2);
    DivMonotone(0, n, clock);
    DivExact(0, clock);
    DivBounds(n, clock);
    MulMonotone(1, clock, n / clock);
  }

  /** A mode set keeps the clock valid and within range. */
  lemma SetModeInRange(c: Clock, ust: int, hTotal: int, vTotal: int, clock: int, to: int)
    requires clock > 0 && ValidClock(c) && c.ustBase <= ust <= to < WORD && c.mscBase + (to - c.ustBase) < WORD
    ensures var d := SetMode(c, ust, hTotal, vTotal, clock);
      ValidClock(d) && d.ustBase == ust && d.mscBase == Msc(c, ust) && d.mscBase + (to - d.ustBase) < WORD
    ensures Msc(c, ust) >= c.mscBase
  {
    FrameIntervalValid(hTotal, vTotal, clock);
    CountAboveBase(c, ust, to);
  }

  lemma CountAboveBase(c: Clock, ust: int, to: int)
    requires ValidClock(c) && c.ustBase <= ust <= to < WORD && c.mscBase + (to - c.ustBase) < WORD
    ensures c.mscBase <= Msc(c, ust) <= c.mscBase + (ust - c.ustBase)
  {
    if c.interval > 0 {
      DivAtMost(ust - c.ustBase, c.interval);
    }
  }

  /** Over any run of clock readings and mode sets on a monotone clock the
      counter never decreases. */
  lemma {:induction false} CounterNeverDecreases(c: Clock, events: seq<ClockEvent>, to: int)
    requires ValidClock(c) && to < WORD && c.mscBase + (to - c.ustBase) < WORD && Ordered(events, c.ustBase, to)
    ensures forall i :: 0 <= i < |events| ==> c.mscBase <= Shown(c, events)[i]
    ensures forall i, j :: 0 <= i < j < |events| ==> Shown(c, events)[i] <= Shown(c, events)[j]
    decreases |events|
  {
    if events == [] {
    } else {
      var e, rest := events[0], events[1..];
      assert e in events;
      CountAboveBase(c, e.ust, to);
      if e.ModeSet? {
        SetModeInRange(c, e.ust, e.hTotal, e.vTotal, e.clock, to);
        CounterNeverDecreases(SetMode(c, e.ust, e.hTotal, e.vTotal, e.clock), rest, to);
      } else {
        CounterNeverDecreases(c, rest, to);
        ReadingsMonotone(c, e.ust, rest, to);
      }
    }
  }

  /** What is shown after time `from` is at least what is shown at `from`. */
  lemma {:induction false} ReadingsMonotone(c: Clock, from: int, events: seq<ClockEvent>, to: int)
    requires ValidClock(c) && c.ustBase <= from && to < WORD && c.mscBase + (to - c.ustBase) < WORD
    requires Ordered(events, from, to)
    ensures forall i :: 0 <= i < |events| ==> Msc(c, from) <= Shown(c, events)[i]
    decreases |events|
  {
    if events == [] {
    } else {
      var e, rest := events[0], events[1..];
      assert e in events;
      PlainMonotone(c, from, e.ust, to);
      if e.ModeSet? {
        var d := SetMode(c, e.ust, e.hTotal, e.vTotal, e.clock);
        SetModeInRange(c, e.ust, e.hTotal, e.vTotal, e.clock, to);
        CounterNeverDecreases(d, rest, to);
      } else {
        ReadingsMonotone(c, from, rest, to);
      }
    }
  }

  lemma PlainMonotone(c: Clock, t: int, u: int, to: int)
    requires ValidClock(c) && c.ustBase <= t <= u <= to < WORD && c.mscBase + (to - c.ustBase) < WORD
    ensures Msc(c, t) <= Msc(c, u)
  {
    if c.interval > 0 {
      var a, b := t - c.ustBase, u - c.ustBase;
      DivMonotone(a, b, c.interval);
      DivAtMost(a, c.interval);
      DivAtMost(b, c.interval);
    }
  }

  /* ---------- a mode set installs its interval ---------- */

  /** A wrapped value is the 64-bit one that differs by a multiple of 2^64. */
  lemma WrapIs(x: int)
    ensures 0 <= Wrap(x) < WORD && (x - Wrap(x)) % 0x1_0000_0000_0000_0000 == 0
  {
  }

  /** Without an interval the counter stands still. */
  lemma StoppedClock(c: Clock, ust: int)
    requires c.interval == 0
    ensures Msc(c, ust) == c.mscBase
  {
  }

  /** `i` is the frame time of a mode in microseconds, rounded to the nearest. */
  predicate IsFrameTime(i: int, hTotal: int, vTotal: int, clock: int) {
    i * clock <= 1000 * hTotal * vTotal + clock / 2 < (i + 1) * clock
  }

  predicate ModeFits(hTotal: int, vTotal: int, clock: int) {
    0 < clock && 0 <= 1000 * hTotal * vTotal && 1000 * hTotal * vTotal + clock / 2 < WORD
  }

  /** A mode has one frame time, and the driver computes it. */
  lemma FrameTimeIs(hTotal: int, vTotal: int, clock: int)
    requires ModeFits(hTotal, vTotal, clock)
    ensures IsFrameTime(FrameInterval(hTotal, vTotal, clock), hTotal, vTotal, clock)
    ensures forall i :: IsFrameTime(i, hTotal, vTotal, clock) ==> i == FrameInterval(hTotal, vTotal, clock)
  {
    var n := 1000 * hTotal * vTotal + clock / 2;
    DivBounds(n, clock);
    forall i | IsFrameTime(i, hTotal, vTotal, clock)
      ensures i == FrameInterval(hTotal, vTotal, clock)
    {
      DivUnique(n, clock, i);
    }
  }

  /** From counter `n` at time `t` to counter `m` at time `u` as many frames are counted
      as whole times `i` have gone by; a mode without a frame time counts none. */
  predicate WholeFrames(n: int, m: int, i: int, t: int, u: int) {
    if i > 0 then (m - n) * i <= u - t < (m - n + 1) * i else m == n
  }

  /** After a mode set in range the counter has gone on by the whole frames of the new
      mode; without a frame time it stands still. */
  lemma ModeSetInstalls(c: Clock, ust: int, hTotal: int, vTotal: int, clock: int, i: int, t: int)
    requires ModeFits(hTotal, vTotal, clock) && IsFrameTime(i, hTotal, vTotal, clock)
    requires ValidClock(c) && c.ustBase <= ust <= t < WORD && c.mscBase + (t - c.ustBase) < WORD
    ensures WholeFrames(Msc(c, ust), Msc(SetMode(c, ust, hTotal, vTotal, clock), t), i, ust, t)
  {
    FrameTimeIs(hTotal, vTotal, clock);
    FrameIntervalValid(hTotal, vTotal, clock);
    SetModeInRange(c, ust, hTotal, vTotal, clock, t);
    if i > 0 {
      DivBounds(t - ust, i);
      DivAtMost(t - ust, i);
    }
  }

  lemma {:induction false} ShownPlain(c: Clock, events: seq<ClockEvent>, n: nat)
    requires n < |events| && (forall e :: e in events && e.ModeSet? ==> e.clock > 0)
    requires forall k :: 0 <= k < n ==> !events[k].ModeSet?
    ensures Shown(c, events)[n] == Msc(c, events[n].ust)
    decreases n
  {
    if n == 0 {
    } else {
      ShownPlain(c, events[1..], n - 1);
    }
  }

  lemma CounterAfterFirst(c: Clock, events: seq<ClockEvent>, n: nat, i: int, to: int)
    requires ValidClock(c) && to < WORD && c.mscBase + (to - c.ustBase) < WORD && Ordered(events, c.ustBase, to)
    requires 0 < n < |events| && events[0].ModeSet? && forall k :: 0 < k < n ==> !events[k].ModeSet?
    requires ModeFits(events[0].hTotal, events[0].vTotal, events[0].clock)
    requires IsFrameTime(i, events[0].hTotal, events[0].vTotal, events[0].clock)
    ensures WholeFrames(Shown(c, events)[0], Shown(c, events)[n], i, events[0].ust, events[n].ust)
  {
    var e := events[0];
    assert e in events && events[n] in events;
    var next := SetMode(c, e.ust, e.hTotal, e.vTotal, e.clock);
    ShownPlain(next, events[1..], n - 1);
    ModeSetInstalls(c, e.ust, e.hTotal, e.vTotal, e.clock, i, events[n].ust);
  }

  /** Over any run: between a mode set and an event before the next one the counter
      shown goes on by the whole frames of that mode. */
  lemma {:induction false} CounterFollowsMode(c: Clock, events: seq<ClockEvent>, m: nat, n: nat, i: int, to: int)
    requires ValidClock(c) && to < WORD && c.mscBase + (to - c.ustBase) < WORD && Ordered(events, c.ustBase, to)
    requires m < n < |events| && events[m].ModeSet? && forall k :: m < k < n ==> !events[k].ModeSet?
    requires ModeFits(events[m].hTotal, events[m].vTotal, events[m].clock)
    requires IsFrameTime(i, events[m].hTotal, events[m].vTotal, events[m].clock)
    ensures WholeFrames(Shown(c, events)[m], Shown(c, events)[n], i, events[m].ust, events[n].ust)
    decreases m
  {
    if m == 0 {
      CounterAfterFirst(c, events, n, i, to);
    } else {
      var d, rest := NextClock(c, events[0]), events[1..];
      NextInRange(c, events, to);
      assert rest[m - 1] == events[m] && rest[n - 1] == events[n];
      CounterFollowsMode(d, rest, m - 1, n - 1, i, to);
      ShownRest(c, events, n);
      ShownRest(c, events, m);
    }
  }

  lemma ShownRest(c: Clock, events: seq<ClockEvent>, k: nat)
    requires 0 < k < |events| && (forall e :: e in events && e.ModeSet? ==> e.clock > 0)
    ensures events[0].ModeSet? ==> events[0].clock > 0
    ensures Shown(c, events)[k] == Shown(NextClock(c, events[0]), events[1..])[k - 1]
  {
    assert events[0] in events;
  }

  function NextClock(c: Clock, e: ClockEvent): Clock
    requires e.ModeSet? ==> e.clock > 0
  {
    if e.ModeSet? then SetMode(c, e.ust, e.hTotal, e.vTotal, e.clock) else c
  }

  lemma NextInRange(c: Clock, events: seq<ClockEvent>, to: int)
    requires ValidClock(c) && to < WORD && c.mscBase + (to - c.ustBase) < WORD
    requires events != [] && Ordered(events, c.ustBase, to)
    ensures events[0].ModeSet? ==> events[0].clock > 0
    ensures var d := NextClock(c, events[0]);
      ValidClock(d) && d.mscBase + (to - d.ustBase) < WORD && Ordered(events[1..], d.ustBase, to)
  {
    var e := events[0];
    assert e in events;
    OrderedRest(events, c.ustBase, to);
    if e.ModeSet? {
      SetModeInRange(c, e.ust, e.hTotal, e.vTotal, e.clock, to);
    }
  }

  lemma OrderedRest(events: seq<ClockEvent>, from: int, to: int)
    requires events != [] && Ordered(events, from, to)
    ensures Ordered(events[1..], from, to) && Ordered(events[1..], events[0].ust, to)
  {
    var rest := events[1..];
    forall e | e in rest
      ensures events[0].ust <= e.ust <= to
    {
      var k :| 0 <= k < |rest| && rest[k] == e;
      assert events[0].ust <= events[k + 1].ust;
    }
  }
}
