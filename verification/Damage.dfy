/** Damage events in src/display.c: rectangles are gathered until an event without
    the MORE flag, then handed to the scanner, or a full-screen scan is requested
    instead. */
module Damage {
  import opened Geometry
  import Pending

  datatype Trust = AlwaysTrust | NeverTrust | AutoTrust

  /** A damage event on a `width` by `height` screen. */
  datatype Event = Event(area: Rect, level: bv8, width: int, height: int) {
    predicate More() {
      level & 0x80 != 0
    }

    predicate Full() {
      area.w == width && area.h == height
    }
  }

  /** What is kept between events. */
  datatype State = State(region: set<Point>, count: nat)

  /** Unsigned 32-bit increment. */
  function Increment(count: nat): nat {
    if count + 1 == 0x1_0000_0000 then 0 else count + 1
  }

  predicate Trusted(trust: Trust, count: nat) {
    trust.AlwaysTrust? || (trust.AutoTrust? && count <= 2)
  }

  /** The reports of one event; `rects` are the rectangles pixman keeps the region
      as. */
  function Reports(trust: Trust, count: nat, rects: seq<Rect>): seq<Pending.Report> {
    if Trusted(trust, count) then Damaged(rects)
    else [Pending.Report(Pending.Fullscreen, Rect(0, 0, 0, 0))]
  }

  function Damaged(rects: seq<Rect>): (rs: seq<Pending.Report>)
    ensures |rs| == |rects|
  {
    seq(|rects|, i requires 0 <= i < |rects| => Pending.Report(Pending.Damage, rects[i]))
  }

  function Step(s: State, e: Event): State {
    if e.More() then State(s.region + e.area.Pixels(), s.count)
    else State({}, if e.Full() then Increment(s.count) else 0)
  }

  class DamageHandler {
    const trust: Trust
    var region: set<Point>
    var fullscreenDamageCount: nat

    constructor (trust: Trust)
      ensures this.trust == trust && region == {} && fullscreenDamageCount == 0
    {
      this.trust := trust;
      region, fullscreenDamageCount := {}, 0;
    }

    /** `handle_damage_notify`. */
    method HandleNotify(e: Event, rects: seq<Rect>) returns (pushed: seq<Pending.Report>)
      requires Union(rects) == region + e.area.Pixels()
      modifies this
      ensures State(region, fullscreenDamageCount) == Step(State(old(region), old(fullscreenDamageCount)), e)
      ensures pushed == if e.More() then [] else Reports(trust, fullscreenDamageCount, rects)
    {
      region := region + e.area.Pixels();
      if e.level & 0x80 != 0 {
        return [];
      }
      if e.area.w == e.width && e.area.h == e.height {
        fullscreenDamageCount := Increment(fullscreenDamageCount);
      } else {
        fullscreenDamageCount := 0;
      }
      pushed := [];
      if TrustDamage() {
        for i := 0 to |rects|
          invariant pushed == Damaged(rects[..i])
        {
          pushed := pushed + [Pending.Report(Pending.Damage, rects[i])];
        }
        assert rects[..|rects|] == rects;
      } else {
        pushed := [Pending.Report(Pending.Fullscreen, Rect(0, 0, 0, 0))];
      }
      region := {};
    }

    /** `display_trust_damage`. */
    predicate TrustDamage()
      reads this
    {
      match trust
      case AlwaysTrust => true
      case NeverTrust => false
      case AutoTrust => fullscreenDamageCount <= 2
    }
  }

  /* ---------- whole sequences of events ---------- */

  function After(events: seq<Event>): State {
    if events == [] then State({}, 0) else Step(After(events[..|events| - 1]), events[|events| - 1])
  }

  /** Pixel `p` was damaged by an event since the last flush. */
  ghost predicate DamagedSince(events: seq<Event>, p: Point) {
    exists i :: 0 <= i < |events| && events[i].area.Contains(p) && forall j :: i <= j < |events| ==> events[j].More()
  }

  lemma DamagedEarlier(events: seq<Event>, e: Event, p: Point)
    requires DamagedSince(events, p) && e.More()
    ensures DamagedSince(events + [e], p)
  {
    var i :| 0 <= i < |events| && events[i].area.Contains(p) && forall j :: i <= j < |events| ==> events[j].More();
    assert (events + [e])[i] == events[i];
  }

  lemma DamagedNow(events: seq<Event>, e: Event, p: Point)
    requires e.area.Contains(p) && e.More()
    ensures DamagedSince(events + [e], p)
  {
    assert (events + [e])[|events|] == e;
  }

  lemma DamagedBefore(events: seq<Event>, e: Event, p: Point)
    requires DamagedSince(events + [e], p)
    ensures e.More() && (e.area.Contains(p) || DamagedSince(events, p))
  {
    var more, n := events + [e], |events|;
    var i :| 0 <= i <= n && more[i].area.Contains(p) && forall j :: i <= j <= n ==> more[j].More();
    assert more[n] == e;
    if i < n {
      assert events[i] == more[i];
      assert forall j :: i <= j < n ==> events[j] == more[j];
    }
  }

  /** The region is exactly what was damaged since the last flush. */
  lemma {:induction false} RegionIsDamage(events: seq<Event>, p: Point)
    ensures p in After(events).region <==> DamagedSince(events, p)
  {
    if events == [] {
    } else {
      var before, e := events[..|events| - 1], events[|events| - 1];
      assert events == before + [e];
      RegionIsDamage(before, p);
      if p in After(events).region {
        if e.area.Contains(p) {
          DamagedNow(before, e, p);
        } else {
          DamagedEarlier(before, e, p);
        }
      }
      if DamagedSince(events, p) {
        DamagedBefore(before, e, p);
      }
    }
  }

  /** The pixels of the damage reports. */
  ghost predicate Reported(reports: seq<Pending.Report>, p: Point) {
    exists k :: 0 <= k < |reports| && reports[k].kind == Pending.Damage && reports[k].rect.Contains(p)
  }

  /** At every event without the MORE flag either a full-screen scan is requested, or
      a pixel is reported exactly when this event or one since the last flush
      damaged it. */
  lemma FlushIsUnion(trust: Trust, events: seq<Event>, e: Event, rects: seq<Rect>, p: Point)
    requires !e.More() && Union(rects) == After(events).region + e.area.Pixels()
    ensures var reports := Reports(trust, After(events + [e]).count, rects);
      if Trusted(trust, After(events + [e]).count)
      then Reported(reports, p) <==> e.area.Contains(p) || DamagedSince(events, p)
      else reports == [Pending.Report(Pending.Fullscreen, Rect(0, 0, 0, 0))]
  {
    RegionIsDamage(events, p);
    if Trusted(trust, After(events + [e]).count) {
      var reports := Damaged(rects);
      if p in Union(rects) {
        var k :| 0 <= k < |rects| && rects[k].Contains(p);
        assert reports[k].rect.Contains(p);
      }
      if Reported(reports, p) {
        var k :| 0 <= k < |reports| && reports[k].rect.Contains(p);
        assert rects[k].Contains(p);
      }
    }
  }

  /** How many of the last events without the MORE flag were full-screen, in a row. */
  function Trailing(events: seq<Event>): nat {
    if events == [] then 0
    else
      var before, e := Trailing(events[..|events| - 1]), events[|events| - 1];
      if e.More() then before else if e.Full() then before + 1 else 0
  }

  /** In auto mode distrust holds exactly when the number of full-screen flushes in a
      row, counted in 32 bits, is three or more. */
  lemma {:induction false} DistrustIff(events: seq<Event>)
    ensures After(events).count == Trailing(events) % 0x1_0000_0000
    ensures !Trusted(AutoTrust, After(events).count) <==> Trailing(events) % 0x1_0000_0000 >= 3
  {
    if events == [] {
    } else {
      DistrustIff(events[..|events| - 1]);
    }
  }

  /** The events without the MORE flag. */
  function Finals(events: seq<Event>): seq<Event> {
    if events == [] then []
    else
      var e := events[|events| - 1];
      Finals(events[..|events| - 1]) + (if e.More() then [] else [e])
  }

  ghost predicate LastFull(finals: seq<Event>, k: nat) {
    |finals| >= k && forall j :: |finals| - k <= j < |finals| ==> finals[j].Full()
  }

  lemma LastFullAppend(finals: seq<Event>, e: Event, k: nat)
    ensures LastFull(finals + [e], k + 1) <==> e.Full() && LastFull(finals, k)
  {
    var more := finals + [e];
    assert more[|finals|] == e;
    if LastFull(more, k + 1) {
      forall j | |finals| - k <= j < |finals|
        ensures finals[j].Full()
      {
        assert more[j].Full();
      }
    }
  }

  lemma {:induction false} TrailingFinals(events: seq<Event>, k: nat)
    ensures Trailing(events) >= k <==> LastFull(Finals(events), k)
  {
    if events == [] || k == 0 {
    } else {
      var before, e := events[..|events| - 1], events[|events| - 1];
      if e.More() {
        TrailingFinals(before, k);
        assert Finals(events) == Finals(before);
      } else {
        TrailingFinals(before, k - 1);
        LastFullAppend(Finals(before), e, k - 1);
      }
    }
  }

  /** Short of a wrap-around, auto mode distrusts damage exactly when the last three
      flushing events were full-screen. */
  lemma LastThreeFull(events: seq<Event>)
    requires |events| < 0x1_0000_0000
    ensures var finals := Finals(events); var n := |finals|;
      !Trusted(AutoTrust, After(events).count) <==>
        n >= 3 && finals[n - 1].Full() && finals[n - 2].Full() && finals[n - 3].Full()
  {
    DistrustIff(events);
    TrailingFinals(events, 3);
    TrailingBound(events);
  }

  lemma {:induction false} TrailingBound(events: seq<Event>)
    ensures Trailing(events) <= |events|
  {
    if events == [] {
    } else {
      TrailingBound(events[..|events| - 1]);
    }
  }

  /** The MORE flag is the top bit of the level. */
  lemma MoreIs(e: Event)
    ensures e.More() <==> e.level >= 0x80
  {
  }

  /** Whether damage is full-screen depends on its size, not on its place. */
  lemma FullIgnoresPlace(e: Event, x: int, y: int)
    ensures Event(Rect(x, y, e.width, e.height), e.level, e.width, e.height).Full()
    ensures e.Full() ==> e.area == Rect(e.area.x, e.area.y, e.width, e.height)
  {
  }

  /** What a flush does, by the option: damage is never trusted, always trusted, or trusted
      unless three or more flushes in a row, counted in 32 bits, were full-screen. */
  lemma FlushByOption(trust: Trust, events: seq<Event>, e: Event, rects: seq<Rect>, p: Point)
    requires !e.More() && Union(rects) == After(events).region + e.area.Pixels()
    ensures var reports := Reports(trust, After(events + [e]).count, rects);
      var scan := trust.NeverTrust? || (trust.AutoTrust? && Trailing(events + [e]) % 0x1_0000_0000 >= 3);
      && (scan ==> reports == [Pending.Report(Pending.Fullscreen, Rect(0, 0, 0, 0))])
      && (!scan ==> |reports| == |rects| && (Reported(reports, p) <==> e.area.Contains(p) || DamagedSince(events, p)))
  {
    FlushIsUnion(trust, events, e, rects, p);
    DistrustIff(events + [e]);
  }
}
