/** Mouse buttons in src/session.c: a new button state is turned into press and
    release events for the X server. */
module Buttons {
  const BUTTONS := 5

  /** A fake input event for button 1 to 5. */
  datatype Event = Event(button: nat, press: bool)

  predicate Bit(state: bv32, i: nat)
    requires i < 32
  {
    state & (1 << i) != 0
  }

  /* ---------- conversion ---------- */

  /** The second and third button change places, and the wheel counts as button 5 up
      and button 4 down. */
  function Converted(up: bool, down: bool, state: bv32): bv32 {
    (state & 1) | ((state & 2) << 1) | ((state & 4) >> 1) | (state & !7)
    | (if up then 1 << 4 else 0) | (if down then 1 << 3 else 0)
  }

  /** `convert_spice_buttons`. */
  function Convert(wheel: int, state: bv32): bv32 {
    Converted(wheel > 0, wheel < 0, state)
  }

  /** Without the wheel the conversion undoes itself, on every state. */
  lemma ConvertTwice(state: bv32)
    ensures Convert(0, Convert(0, state)) == state
  {
    BitwiseTwice(state);
  }

  lemma BitwiseTwice(s: bv32)
    ensures var c := (s & 1) | ((s & 2) << 1) | ((s & 4) >> 1) | (s & !7);
      (c & 1) | ((c & 2) << 1) | ((c & 4) >> 1) | (c & !7) == s
  {
  }

  /** What the conversion does to each of the five buttons. */
  lemma ConvertedBits(wheel: int, state: bv32)
    ensures var c := Convert(wheel, state);
      && Bit(c, 0) == Bit(state, 0) && Bit(c, 1) == Bit(state, 2) && Bit(c, 2) == Bit(state, 1)
      && Bit(c, 3) == (Bit(state, 3) || wheel < 0) && Bit(c, 4) == (Bit(state, 4) || wheel > 0)
  {
  }

  /* ---------- the events of one change ---------- */

  /** The low five bits, one for each button. */
  function Low(state: bv32): (bits: seq<bool>)
    ensures |bits| == BUTTONS && forall i :: 0 <= i < BUTTONS ==> bits[i] == Bit(state, i)
  {
    seq(5, i requires 0 <= i < 5 => Bit(state, i))
  }

  /** The events for the first `n` buttons, in order. */
  function Changes(was: seq<bool>, now: seq<bool>, n: nat): seq<Event>
    requires n <= |was| == |now|
  {
    if n == 0 then []
    else Changes(was, now, n - 1) + (if was[n - 1] != now[n - 1] then [Event(n, now[n - 1])] else [])
  }

  /** `stored` is what is kept of client state `state` after wheel motion `motion`: the
      second and third button change places, and the wheel is button 4 or 5. */
  predicate Keeps(stored: bv32, motion: int, state: bv32) {
    && Bit(stored, 0) == Bit(state, 0) && Bit(stored, 1) == Bit(state, 2) && Bit(stored, 2) == Bit(state, 1)
    && Bit(stored, 3) == (Bit(state, 3) || motion < 0) && Bit(stored, 4) == (Bit(state, 4) || motion > 0)
  }

  lemma XorBit(a: bv32, b: bv32, i: nat)
    requires i < BUTTONS
    ensures Bit(a ^ b, i) <==> Bit(a, i) != Bit(b, i)
  {
    match i
    case 0 =>
    case 1 =>
    case 2 =>
    case 3 =>
    case 4 =>
  }

  class Pointer {
    const allowControl: bool
    var buttonsState: bv32
    var events: seq<Event>

    constructor (allowControl: bool)
      ensures this.allowControl == allowControl && buttonsState == 0 && events == []
    {
      this.allowControl := allowControl;
      buttonsState, events := 0, [];
    }

    /** `session_handle_button_change`. */
    method HandleButtonChange(state: bv32)
      modifies this
      ensures buttonsState == if allowControl then state else old(buttonsState)
      ensures events ==
        if allowControl then old(events) + Changes(Low(old(buttonsState)), Low(state), BUTTONS) else old(events)
    {
      if !allowControl {
        return;
      }
      for i := 0 to BUTTONS
        invariant buttonsState == old(buttonsState)
        invariant events == old(events) + Changes(Low(buttonsState), Low(state), i)
      {
        XorBit(state, buttonsState, i);
        if (state ^ buttonsState) & (1 << i) != 0 {
          var action := state & (1 << i);
          events := events + [Event(i + 1, action != 0)];
        }
      }
      buttonsState := state;
    }

    /** `session_handle_mouse_wheel`. */
    method HandleMouseWheel(motion: int, state: bv32)
      modifies this
      ensures (buttonsState, events) == Handle(allowControl, old(buttonsState), old(events), motion, state)
      ensures allowControl ==> Keeps(buttonsState, motion, state)
      ensures !allowControl ==> buttonsState == old(buttonsState) && events == old(events)
    {
      ConvertedBits(motion, state);
      HandleButtonChange(Convert(motion, state));
    }

    /** `session_handle_mouse_buttons`. */
    method HandleMouseButtons(state: bv32)
      modifies this
      ensures (buttonsState, events) == Handle(allowControl, old(buttonsState), old(events), 0, state)
      ensures allowControl ==> Keeps(buttonsState, 0, state)
      ensures !allowControl ==> buttonsState == old(buttonsState) && events == old(events)
    {
      ConvertedBits(0, state);
      HandleButtonChange(Convert(0, state));
    }
  }

  /** One call, with a wheel motion of 0 for a button call. */
  function Handle(allowed: bool, was: bv32, events: seq<Event>, motion: int, state: bv32): (bv32, seq<Event>) {
    if allowed then (Convert(motion, state), events + Changes(Low(was), Low(Convert(motion, state)), BUTTONS))
    else (was, events)
  }

  /* ---------- what the X server sees ---------- */

  /** Whether a button is down after the events. */
  function Pressed(events: seq<Event>, button: nat): bool {
    if events == [] then false
    else if events[|events| - 1].button == button then events[|events| - 1].press
    else Pressed(events[..|events| - 1], button)
  }

  /** Every event changes its button: presses and releases of each button strictly
      alternate, beginning with a press. */
  ghost predicate Alternating(events: seq<Event>) {
    forall k :: 0 <= k < |events| ==>
      1 <= events[k].button <= BUTTONS && events[k].press == !Pressed(events[..k], events[k].button)
  }

  ghost predicate Shows(events: seq<Event>, bits: seq<bool>)
    requires |bits| == BUTTONS
  {
    forall b :: 1 <= b <= BUTTONS ==> Pressed(events, b) == bits[b - 1]
  }

  /** The buttons that are down are the low five bits of the state. */
  ghost predicate Tracks(events: seq<Event>, state: bv32) {
    Alternating(events) && Shows(events, Low(state))
  }

  lemma OneMore(events: seq<Event>, bits: seq<bool>, b: nat)
    requires Alternating(events) && |bits| == BUTTONS && Shows(events, bits) && 1 <= b <= BUTTONS
    ensures var more := events + [Event(b, !bits[b - 1])];
      Alternating(more) && Shows(more, bits[b - 1 := !bits[b - 1]])
  {
    var more := events + [Event(b, !bits[b - 1])];
    assert more[..|events|] == events;
    forall k | 0 <= k < |more|
      ensures 1 <= more[k].button <= BUTTONS && more[k].press == !Pressed(more[..k], more[k].button)
    {
      if k < |events| {
        assert more[..k] == events[..k];
      }
    }
  }

  /** The bits after the first `n` have changed. */
  function Mixed(was: seq<bool>, now: seq<bool>, n: nat): (bits: seq<bool>)
    requires n <= |was| == |now|
    ensures |bits| == |was|
  {
    now[..n] + was[n..]
  }

  lemma {:induction false} PartlyChanged(events: seq<Event>, was: seq<bool>, now: seq<bool>, n: nat)
    requires n <= |was| == |now| == BUTTONS && Alternating(events) && Shows(events, was)
    ensures Alternating(events + Changes(was, now, n)) && Shows(events + Changes(was, now, n), Mixed(was, now, n))
  {
    if n == 0 {
      assert events + Changes(was, now, 0) == events && Mixed(was, now, 0) == was;
    } else {
      PartlyChanged(events, was, now, n - 1);
      var before, bits := events + Changes(was, now, n - 1), Mixed(was, now, n - 1);
      MixedStep(was, now, n);
      if was[n - 1] != now[n - 1] {
        OneMore(before, bits, n);
        Regroup(events, Changes(was, now, n - 1), Event(n, now[n - 1]));
      }
    }
  }

  lemma MixedStep(was: seq<bool>, now: seq<bool>, n: nat)
    requires 0 < n <= |was| == |now|
    ensures Mixed(was, now, n - 1)[n - 1] == was[n - 1]
    ensures Mixed(was, now, n) == Mixed(was, now, n - 1)[n - 1 := now[n - 1]]
    ensures Changes(was, now, n) ==
      Changes(was, now, n - 1) + if was[n - 1] != now[n - 1] then [Event(n, now[n - 1])] else []
    ensures was[n - 1] == now[n - 1] ==>
      Mixed(was, now, n) == Mixed(was, now, n - 1) && Changes(was, now, n) == Changes(was, now, n - 1)
  {
  }

  lemma Regroup(a: seq<Event>, b: seq<Event>, e: Event)
    ensures a + (b + [e]) == (a + b) + [e]
  {
  }

  /** A run of calls, each a wheel motion and a button state. */
  function After(allowed: bool, calls: seq<(int, bv32)>): (bv32, seq<Event>) {
    if calls == [] then (0, [])
    else
      var (was, events) := After(allowed, calls[..|calls| - 1]);
      Handle(allowed, was, events, calls[|calls| - 1].0, calls[|calls| - 1].1)
  }

  /** Over every run of button and wheel calls the X server's pressed buttons are the
      low five bits of the stored state, and each button's events alternate. */
  lemma {:induction false} StreamTracksState(allowed: bool, calls: seq<(int, bv32)>)
    ensures var (state, events) := After(allowed, calls); Tracks(events, state)
  {
    if calls == [] {
      assert forall i :: 0 <= i < BUTTONS ==> !Low(0)[i];
    } else {
      StreamTracksState(allowed, calls[..|calls| - 1]);
      var (was, events) := After(allowed, calls[..|calls| - 1]);
      var call := calls[|calls| - 1];
      var now := Low(Convert(call.0, call.1));
      PartlyChanged(events, Low(was), now, BUTTONS);
      assert Mixed(Low(was), now, BUTTONS) == now;
    }
  }

  lemma {:induction false} UnchangedIsSilent(bits: seq<bool>, n: nat)
    requires n <= |bits|
    ensures Changes(bits, bits, n) == []
  {
    if n == 0 {
    } else {
      UnchangedIsSilent(bits, n - 1);
    }
  }

  /** An event of button `b` is among those for the first `n` buttons exactly when the
      button is one of them, its bit changes, and the event shows the new bit. */
  lemma {:induction false} ChangesHas(was: seq<bool>, now: seq<bool>, n: nat, b: nat, press: bool)
    requires n <= |was| == |now|
    ensures Event(b, press) in Changes(was, now, n) <==>
      1 <= b <= n && was[b - 1] != now[b - 1] && now[b - 1] == press
  {
    if n == 0 {
    } else {
      ChangesHas(was, now, n - 1, b, press);
    }
  }

  /** They come in the order of the buttons. */
  lemma {:induction false} ChangesRise(was: seq<bool>, now: seq<bool>, n: nat)
    requires n <= |was| == |now|
    ensures var es := Changes(was, now, n);
      && (forall e :: e in es ==> 1 <= e.button <= n)
      && forall i, j :: 0 <= i < j < |es| ==> es[i].button < es[j].button
  {
    if n == 0 {
    } else {
      ChangesRise(was, now, n - 1);
      var before, es := Changes(was, now, n - 1), Changes(was, now, n);
      assert forall i :: 0 <= i < |before| ==> es[i] == before[i] && before[i] in before;
    }
  }

  /** A wheel motion is seen, as a press of its button, exactly when the stored state
      does not hold that button down. */
  lemma WheelSeenIff(was: bv32, motion: int, state: bv32)
    requires motion != 0
    ensures var b := if motion > 0 then 5 else 4;
      Event(b, true) in Changes(Low(was), Low(Convert(motion, state)), BUTTONS) <==> !Bit(was, b - 1)
  {
    var b := if motion > 0 then 5 else 4;
    ConvertedBits(motion, state);
    ChangesHas(Low(was), Low(Convert(motion, state)), BUTTONS, b, true);
  }

  predicate SameDirection(first: int, second: int) {
    (first > 0 && second > 0) || (first < 0 && second < 0)
  }

  /** A second wheel motion in the same direction, with no other call between, does not
      press the wheel's button, whatever the other buttons do. */
  lemma SecondMotionUnseen(first: int, state: bv32, second: int, later: bv32)
    requires SameDirection(first, second)
    ensures var b := if first > 0 then 5 else 4;
      Event(b, true) !in Changes(Low(Convert(first, state)), Low(Convert(second, later)), BUTTONS)
  {
    ConvertedBits(first, state);
    WheelSeenIff(Convert(first, state), second, later);
  }

  /** If the buttons are the same too it changes nothing and emits no event. */
  lemma SecondMotionSilent(was: bv32, events: seq<Event>, first: int, second: int, state: bv32)
    requires SameDirection(first, second)
    ensures var (stored, seen) := Handle(true, was, events, first, state);
      Handle(true, stored, seen, second, state) == (stored, seen)
  {
    SameConversion(first, second, state);
    var (stored, seen) := Handle(true, was, events, first, state);
    UnchangedIsSilent(Low(stored), BUTTONS);
    assert seen + [] == seen;
  }

  lemma SameConversion(first: int, second: int, state: bv32)
    requires SameDirection(first, second)
    ensures Convert(first, state) == Convert(second, state)
  {
  }

  /** A wheel motion and then a button call with the same buttons press and release
      the wheel's button. */
  lemma WheelClicks(motion: int, state: bv32)
    requires motion != 0 && !Bit(state, 3) && !Bit(state, 4)
    ensures var wheel := if motion > 0 then 5 else 4;
      && Changes(Low(Convert(0, state)), Low(Convert(motion, state)), BUTTONS) == [Event(wheel, true)]
      && Changes(Low(Convert(motion, state)), Low(Convert(0, state)), BUTTONS) == [Event(wheel, false)]
  {
    var plain, rolled := Low(Convert(0, state)), Low(Convert(motion, state));
    var k := if motion > 0 then 4 else 3;
    ConvertedBits(0, state);
    ConvertedBits(motion, state);
    assert forall i :: 0 <= i < BUTTONS ==> (plain[i] != rolled[i] <==> i == k);
    OneChange(plain, rolled, k, BUTTONS);
    OneChange(rolled, plain, k, BUTTONS);
  }

  lemma {:induction false} OneChange(was: seq<bool>, now: seq<bool>, k: nat, n: nat)
    requires n <= |was| == |now| && forall i :: 0 <= i < |was| ==> (was[i] != now[i] <==> i == k)
    ensures Changes(was, now, n) == if k < n then [Event(k + 1, now[k])] else []
  {
    if n == 0 {
    } else {
      OneChange(was, now, k, n - 1);
    }
  }

  /* ---------- over runs of calls ---------- */

  lemma AfterSnoc(calls: seq<(int, bv32)>, motion: int, state: bv32)
    ensures var (was, events) := After(true, calls);
      After(true, calls + [(motion, state)]) ==
        (Convert(motion, state), events + Changes(Low(was), Low(Convert(motion, state)), BUTTONS))
  {
    assert (calls + [(motion, state)])[..|calls|] == calls;
  }

  /** Without control nothing is emitted and nothing stored, whatever the calls. */
  lemma {:induction false} NoControl(calls: seq<(int, bv32)>)
    ensures After(false, calls) == (0, [])
  {
    if calls == [] {
    } else {
      NoControl(calls[..|calls| - 1]);
    }
  }

  /** After any run that ends with a call the X server's buttons are down as that call
      says: the second and third are exchanged, and the wheel holds button 4 or 5. */
  lemma DownAfterCall(calls: seq<(int, bv32)>, motion: int, state: bv32)
    ensures var events := After(true, calls + [(motion, state)]).1;
      && Pressed(events, 1) == Bit(state, 0) && Pressed(events, 2) == Bit(state, 2)
      && Pressed(events, 3) == Bit(state, 1) && Pressed(events, 4) == (Bit(state, 3) || motion < 0)
      && Pressed(events, 5) == (Bit(state, 4) || motion > 0)
  {
    var (stored, events) := After(true, calls + [(motion, state)]);
    StreamTracksState(true, calls + [(motion, state)]);
    AfterSnoc(calls, motion, state);
    ConvertedBits(motion, state);
    ShownBits(events, stored);
  }

  lemma ShownBits(events: seq<Event>, stored: bv32)
    requires Shows(events, Low(stored))
    ensures Pressed(events, 1) == Bit(stored, 0) && Pressed(events, 2) == Bit(stored, 1)
    ensures Pressed(events, 3) == Bit(stored, 2) && Pressed(events, 4) == Bit(stored, 3)
    ensures Pressed(events, 5) == Bit(stored, 4)
  {
    var bits := Low(stored);
    assert Pressed(events, 1) == bits[0] && Pressed(events, 2) == bits[1] && Pressed(events, 3) == bits[2];
    assert Pressed(events, 4) == bits[3] && Pressed(events, 5) == bits[4];
  }

  /** The events that the last call of a run emits. */
  function LastEvents(calls: seq<(int, bv32)>, motion: int, state: bv32): seq<Event> {
    var before, after := After(true, calls).1, After(true, calls + [(motion, state)]).1;
    if |before| <= |after| then after[|before|..] else after
  }

  lemma LastEventsAre(calls: seq<(int, bv32)>, motion: int, state: bv32)
    ensures LastEvents(calls, motion, state) == Changes(Low(After(true, calls).0), Low(Convert(motion, state)), BUTTONS)
    ensures After(true, calls + [(motion, state)]).1 == After(true, calls).1 + LastEvents(calls, motion, state)
  {
    AfterSnoc(calls, motion, state);
  }

  /** After any run a wheel motion presses its button exactly when it is not down. */
  lemma WheelSeenInRun(calls: seq<(int, bv32)>, motion: int, state: bv32)
    requires motion != 0
    ensures var b := if motion > 0 then 5 else 4;
      Event(b, true) in LastEvents(calls, motion, state) <==> !Pressed(After(true, calls).1, b)
  {
    var (was, events) := After(true, calls);
    LastEventsAre(calls, motion, state);
    WheelSeenIff(was, motion, state);
    StreamTracksState(true, calls);
    ShownBits(events, was);
  }

  /** After any run the second of two motions in the same direction does not press the
      wheel's button, and with the same buttons it emits nothing. */
  lemma SecondMotionInRun(calls: seq<(int, bv32)>, first: int, state: bv32, second: int, later: bv32)
    requires SameDirection(first, second)
    ensures var b := if first > 0 then 5 else 4;
      Event(b, true) !in LastEvents(calls + [(first, state)], second, later)
    ensures state == later ==> LastEvents(calls + [(first, state)], second, later) == []
  {
    AfterSnoc(calls, first, state);
    LastEventsAre(calls + [(first, state)], second, later);
    SecondMotionUnseen(first, state, second, later);
    if state == later {
      SameConversion(first, second, state);
      UnchangedIsSilent(Low(Convert(first, state)), BUTTONS);
    }
  }

  /** After any run that ends with a button call, a motion with the same buttons and
      then that button call again press and release exactly the wheel's button. */
  lemma WheelClicksInRun(calls: seq<(int, bv32)>, motion: int, state: bv32)
    requires motion != 0 && !Bit(state, 3) && !Bit(state, 4)
    ensures var wheel := if motion > 0 then 5 else 4;
      && LastEvents(calls + [(0, state)], motion, state) == [Event(wheel, true)]
      && LastEvents(calls + [(0, state)] + [(motion, state)], 0, state) == [Event(wheel, false)]
  {
    AfterSnoc(calls, 0, state);
    AfterSnoc(calls + [(0, state)], motion, state);
    LastEventsAre(calls + [(0, state)], motion, state);
    LastEventsAre(calls + [(0, state)] + [(motion, state)], 0, state);
    WheelClicks(motion, state);
  }
}
