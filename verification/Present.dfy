/** The linked lists of spice-video-dummy/src/present.c: list nodes move between
    the waiting queue and the free list, and their fields are overwritten when a
    node is reused. */
module Present {
  import opened FrameClock
  import opened Geometry
  import opened Sequences
  import opened Vblank

  class VblankNode {
    var eventId: int
    var targetMsc: int

    constructor () {
      eventId, targetMsc := 0, 0;
    }
  }

  /** Node `n` holds what the waiting event `e` was queued with. */
  ghost predicate Holds(n: VblankNode, e: Entry)
    reads n
  {
    n.eventId == e.id && n.targetMsc == e.target
  }

  ghost predicate HoldAll(nodes: seq<VblankNode>, es: seq<Entry>)
    reads nodes
  {
    |nodes| == |es| && forall i :: 0 <= i < |nodes| ==> Holds(nodes[i], es[i])
  }

  /** What `present_event_notify` is called with. */
  datatype Notice = Notice(id: int, ust: int, msc: int)

  function Notices(es: seq<Entry>, ust: int, msc: int): (ns: seq<Notice>)
    ensures |ns| == |es|
    ensures forall k :: 0 <= k < |es| ==> ns[k].id == es[k].id && ns[k].ust == ust && ns[k].msc == msc
  {
    seq(|es|, i requires 0 <= i < |es| => Notice(es[i].id, ust, msc))
  }

  /* ---------- the walk over the queue, on values ---------- */

  /** The lists while `dummy_do_timer` walks: nodes and their events, the free
      list, and the events notified so far. */
  datatype Walk<T> = Walk(nodes: seq<T>, es: seq<Entry>, free: seq<T>, due: seq<Entry>)

  /** The walk from position `i` on. */
  function WalkFrom<T>(w: Walk<T>, i: nat, msc: int): (r: Walk<T>)
    requires |w.nodes| == |w.es|
    ensures |r.nodes| == |r.es|
    decreases |w.nodes| - i
  {
    if i >= |w.nodes| then w
    else if msc < w.es[i].target then WalkFrom(w, i + 1, msc)
    else WalkFrom(Drop(w, i), i, msc)
  }

  /** The node at `i` goes to the front of the free list. */
  function Drop<T>(w: Walk<T>, i: nat): (r: Walk<T>)
    requires i < |w.nodes| == |w.es|
    ensures |r.nodes| == |r.es| == |w.nodes| - 1
  {
    Walk(Without(w.nodes, i), Without(w.es, i), [w.nodes[i]] + w.free, w.due + [w.es[i]])
  }

  /** No node is lost or doubled. */
  lemma {:induction false} WalkKeepsNodes<T>(w: Walk<T>, i: nat, msc: int)
    requires |w.nodes| == |w.es|
    ensures var r := WalkFrom(w, i, msc);
      Both(r.nodes, r.free) == Both(w.nodes, w.free)
    decreases |w.nodes| - i
  {
    if i >= |w.nodes| {
    } else {
      if msc < w.es[i].target {
        WalkKeepsNodes(w, i + 1, msc);
      } else {
        WalkKeepsNodes(Drop(w, i), i, msc);
        assert w.nodes == w.nodes[..i] + [w.nodes[i]] + w.nodes[i + 1..];
      }
    }
  }

  /** The walk splits the events into those kept and those due, in order. */
  lemma {:induction false} WalkSplits<T>(w: Walk<T>, i: nat, msc: int)
    requires i <= |w.nodes| == |w.es| && forall j :: 0 <= j < i ==> msc < w.es[j].target
    ensures var r := WalkFrom(w, i, msc);
      r.es == Keep(w.es, msc) && r.due == w.due + DueAfter(w.es[i..], msc)
    decreases |w.nodes| - i
  {
    if i == |w.nodes| {
      AllKept(w.es, msc);
    } else if msc < w.es[i].target {
      DueNext(w.es, i, msc);
      WalkSplits(w, i + 1, msc);
    } else {
      DropSplits(w, i, msc);
      WalkSplits(Drop(w, i), i, msc);
    }
  }

  lemma {:induction false} AllKept(es: seq<Entry>, msc: int)
    requires forall j :: 0 <= j < |es| ==> msc < es[j].target
    ensures Keep(es, msc) == es
  {
    if es == [] {
    } else {
      AllKept(es[..|es| - 1], msc);
    }
  }

  lemma DueNext(es: seq<Entry>, i: nat, msc: int)
    requires i < |es| && msc < es[i].target
    ensures DueAfter(es[i..], msc) == DueAfter(es[i + 1..], msc)
  {
    assert es[i..][1..] == es[i + 1..];
  }

  lemma DropSplits<T>(w: Walk<T>, i: nat, msc: int)
    requires i < |w.nodes| == |w.es| && w.es[i].target <= msc
    ensures var d := Drop(w, i);
      && (forall j :: 0 <= j < i ==> d.es[j] == w.es[j]) && Keep(d.es, msc) == Keep(w.es, msc)
      && d.due + DueAfter(d.es[i..], msc) == w.due + DueAfter(w.es[i..], msc)
  {
    var d := Drop(w, i);
    KeepWithout(w.es, i, msc);
    assert d.es[i..] == w.es[i..][1..];
  }

  /** The due events, taken from the front. */
  function DueAfter(es: seq<Entry>, msc: int): seq<Entry> {
    if es == [] then []
    else if msc < es[0].target then DueAfter(es[1..], msc)
    else [es[0]] + DueAfter(es[1..], msc)
  }

  lemma {:induction false} DueAfterAppend(es: seq<Entry>, e: Entry, msc: int)
    ensures DueAfter(es + [e], msc) == DueAfter(es, msc) + (if msc < e.target then [] else [e])
  {
    if es == [] {
    } else {
      DueAfterAppend(es[1..], e, msc);
      assert (es + [e])[1..] == es[1..] + [e];
    }
  }

  lemma {:induction false} DueIsDueAfter(es: seq<Entry>, msc: int)
    ensures DueAfter(es, msc) == Due(es, msc)
  {
    if es == [] {
    } else {
      var n := |es| - 1;
      DueIsDueAfter(es[..n], msc);
      DueAfterAppend(es[..n], es[n], msc);
      assert es[..n] + [es[n]] == es;
    }
  }

  /** Dropping a due event does not change what is kept. */
  lemma {:induction false} KeepWithout(es: seq<Entry>, i: nat, msc: int)
    requires i < |es| && es[i].target <= msc
    ensures Keep(Without(es, i), msc) == Keep(es, msc)
  {
    var n := |es| - 1;
    if i < n {
      KeepWithout(es[..n], i, msc);
      assert Without(es, i)[..n - 1] == Without(es[..n], i);
      assert Without(es, i)[n - 1] == es[n];
    } else {
      assert Without(es, i) == es[..n];
    }
  }

  /** What the whole walk leaves. */
  lemma Walked<T>(w: Walk<T>, msc: int)
    requires |w.nodes| == |w.es| && w.due == []
    ensures var r := WalkFrom(w, 0, msc);
      r.es == Keep(w.es, msc) && r.due == Due(w.es, msc) && Both(r.nodes, r.free) == Both(w.nodes, w.free)
  {
    assert w.es[..0] == [] && w.es[0..] == w.es;
    WalkKeepsNodes(w, 0, msc);
    WalkSplits(w, 0, msc);
    DueIsDueAfter(w.es, msc);
  }

  /* ---------- the driver ---------- */

  /** The nodes of both lists. */
  function Both<T>(queue: seq<T>, free: seq<T>): multiset<T> {
    multiset(queue) + multiset(free)
  }

  /** No node stands on both lists, or twice on one. */
  ghost predicate OnceOnly<T>(queue: seq<T>, free: seq<T>) {
    forall n :: n in Both(queue, free) ==> Both(queue, free)[n] <= 1
  }

  lemma BothConcat<T>(queue: seq<T>, free: seq<T>)
    requires OnceOnly(queue, free)
    ensures OnceOnly(queue + free, [])
  {
    assert Both(queue + free, []) == Both(queue, free);
  }

  lemma StillOnce<T>(q0: seq<T>, f0: seq<T>, queue: seq<T>, free: seq<T>)
    requires OnceOnly(q0, f0) && Both(queue, free) <= Both(q0, f0)
    ensures OnceOnly(queue, free)
  {
    forall n | n in Both(queue, free)
      ensures Both(queue, free)[n] <= 1
    {
      assert n in Both(q0, f0);
    }
  }

  lemma NotOnQueue<T>(queue: seq<T>, free: seq<T>, n: T)
    requires OnceOnly(queue, free) && n in free
    ensures n !in queue
  {
    assert n in multiset(free) && n in Both(queue, free);
    assert n in queue ==> multiset(queue)[n] >= 1;
  }

  lemma Requeued<T>(queue: seq<T>, free: seq<T>)
    requires OnceOnly(queue, free) && free != []
    ensures OnceOnly(queue + [free[0]], free[1..])
  {
    assert free == [free[0]] + free[1..];
    assert Both(queue + [free[0]], free[1..]) == Both(queue, free);
  }

  lemma Abandoned<T>(queue: seq<T>, free: seq<T>, i: nat)
    requires OnceOnly(queue, free) && i < |queue|
    ensures OnceOnly(Without(queue, i), free)
  {
    assert queue == queue[..i] + [queue[i]] + queue[i + 1..];
    assert Both(queue, free) == Both(Without(queue, i), free) + multiset{queue[i]};
    StillOnce(queue, free, Without(queue, i), free);
  }

  /** A new node is on neither list. */
  lemma Enqueued<T>(queue: seq<T>, free: seq<T>, n: T)
    requires OnceOnly(queue, free) && n !in queue && n !in free
    ensures OnceOnly(queue + [n], free)
  {
    assert Both(queue + [n], free) == Both(queue, free) + multiset{n};
  }

  lemma FirstWithIs(q: seq<Entry>, id: int, k: nat)
    requires k <= |q| && (k < |q| ==> q[k].id == id) && forall j :: 0 <= j < k ==> q[j].id != id
    ensures FirstWith(q, id) == k
  {
    var f := FirstWith(q, id);
    var here := if f < |q| then q[f].id else id;
    assert f < k ==> here != id;
  }

  class Crtc {
    var ustBase: int
    var mscBase: int
    var interval: int
    var vblankQueue: seq<VblankNode>
    var vblankFree: seq<VblankNode>
    var vblankTimer: Option<nat>

    /** The timers of the X server. */
    var armed: map<nat, int>
    var timers: nat

    /** The events the queued nodes stand for. */
    ghost var waiting: seq<Entry>
    ghost var accepted: nat
    ghost var seen: int

    ghost predicate Valid()
      reads this, vblankQueue
    {
      OnceOnly(vblankQueue, vblankFree) && HoldAll(vblankQueue, waiting)
    }

    ghost function Now(): State
      reads this
    {
      State(Clock(ustBase, mscBase, interval), waiting, armed, vblankTimer, timers, accepted, seen)
    }

    constructor ()
      ensures Valid() && Now() == Begin(Clock(0, 0, 0)).s
    {
      ustBase, mscBase, interval := 0, 0, 0;
      vblankQueue, vblankFree, vblankTimer := [], [], None;
      armed, timers, waiting, accepted, seen := map[], 0, [], 0, 0;
    }

    /** The loop over the queue: due events are notified and their nodes go to the
        front of the free list. */
    method Expire(now: int, msc: int) returns (notices: seq<Notice>)
      requires HoldAll(vblankQueue, waiting)
      modifies `vblankQueue, `vblankFree, `waiting
      ensures HoldAll(vblankQueue, waiting) && waiting == Keep(old(waiting), msc)
      ensures Both(vblankQueue, vblankFree) == Both(old(vblankQueue), old(vblankFree))
      ensures notices == Notices(Due(old(waiting), msc), now, msc)
    {
      notices := [];
      ghost var due: seq<Entry> := [];
      Walked(Walk(vblankQueue, waiting, vblankFree, []), msc);
      var i := 0;
      while i < |vblankQueue|
        invariant HoldAll(vblankQueue, waiting)
        invariant WalkFrom(Walk(vblankQueue, waiting, vblankFree, due), i, msc)
               == WalkFrom(Walk(old(vblankQueue), old(waiting), old(vblankFree), []), 0, msc)
        invariant notices == Notices(due, now, msc)
        decreases |vblankQueue| - i
      {
        if msc < vblankQueue[i].targetMsc {
          i := i + 1;
        } else {
          var vblank := vblankQueue[i];
          notices := notices + [Notice(vblank.eventId, now, msc)];
          due := due + [waiting[i]];
          vblankQueue := vblankQueue[..i] + vblankQueue[i + 1..];
          waiting := waiting[..i] + waiting[i + 1..];
          vblankFree := [vblank] + vblankFree;
        }
      }
    }

    /** `dummy_do_timer`, called when `timer` fires at time `now`. */
    method DoTimer(now: int, timer: nat) returns (notices: seq<Notice>)
      requires Valid() && CanStep(Now(), Fire(now, timer))
      modifies this
      ensures Valid()
      ensures Both(vblankQueue, vblankFree) == old(Both(vblankQueue, vblankFree))
      ensures Now() == FireStep(old(Now()), now, timer).0
      ensures var e := FireStep(old(Now()), now, timer).1; notices == Notices(e.notified, now, e.msc)
      ensures forall k :: 0 <= k < |notices| ==>
        notices[k].ust == now && notices[k].msc == Msc(Clock(ustBase, mscBase, interval), now)
    {
      ghost var s := Now();
      var msc := Msc(Clock(ustBase, mscBase, interval), now);
      armed := armed - {timer};
      notices := Expire(now, msc);
      StillOnce(old(vblankQueue), old(vblankFree), vblankQueue, vblankFree);
      assert Now() == s.(queue := Keep(s.queue, msc), armed := s.armed - {timer});
      RearmTimer(msc);
    }

    method RearmTimer(msc: int)
      requires |waiting| == |vblankQueue|
      modifies `armed, `seen
      ensures Now() == Rearm(old(Now()), msc)
    {
      if |vblankQueue| > 0 && vblankTimer.Some? {
        var nextUst := UstForMsc(Clock(ustBase, mscBase, interval), msc + 1);
        SetTimer(vblankTimer.value, nextUst, msc);
      }
    }

    /** `TimerSet`, with the deadline in milliseconds. */
    method SetTimer(timer: nat, ust: int, msc: int)
      modifies `armed, `seen
      ensures armed == old(armed)[timer := Deadline(ust)] && seen == msc
    {
      armed := armed[timer := ust / 1000 + 1];
      seen := msc;
    }

    /** Takes a node from the free list, or a new one, and fills it in. */
    method TakeNode(id: int, target: int, allocOk: bool) returns (vblank: Option<VblankNode>)
      requires Valid()
      modifies `vblankFree, vblankFree
      ensures Valid() && vblank.Some? == (allocOk || old(vblankFree) != [])
      ensures vblank.Some? ==>
        && Holds(vblank.value, Entry(accepted, id, target)) && OnceOnly(vblankQueue + [vblank.value], vblankFree)
        && (vblank.value in old(vblankFree) || fresh(vblank.value))
      ensures vblank.None? ==> vblankFree == old(vblankFree)
    {
      var node;
      if |vblankFree| > 0 {
        node := vblankFree[0];
        NotOnQueue(vblankQueue, vblankFree, node);
        Requeued(vblankQueue, vblankFree);
        vblankFree := vblankFree[1..];
      } else if allocOk {
        node := new VblankNode();
        Enqueued(vblankQueue, vblankFree, node);
      } else {
        return None;
      }
      node.eventId := id;
      node.targetMsc := target;
      assert Both(vblankQueue, vblankFree) <= Both(vblankQueue + [node], vblankFree);
      StillOnce(vblankQueue + [node], vblankFree, vblankQueue, vblankFree);
      return Some(node);
    }

    /** The frame now, and when the timer for a first event is to fire. */
    method FirstUst(now: int, target: int) returns (msc: int, targetUst: int)
      ensures var c := Clock(ustBase, mscBase, interval);
        msc == Msc(c, now) && Deadline(targetUst) == FirstDeadline(c, now, target)
    {
      var c := Clock(ustBase, mscBase, interval);
      msc := Msc(c, now);
      targetUst := UstForMsc(c, target);
      if targetUst <= now {
        targetUst := UstForMsc(c, msc + 1);
      }
    }

    /** `dummy_present_queue_vblank`; `allocOk` and `timerOk` tell whether the
        allocation of a node and of a timer would succeed. */
    method QueueVblank(now: int, id: int, target: int, allocOk: bool, timerOk: bool) returns (ok: bool)
      requires Valid()
      modifies this, vblankFree
      ensures Valid()
      ensures var (s, e) := QueueStep(old(Now()), now, id, target, allocOk || old(vblankFree) != [], timerOk);
        Now() == s && ok == e.ok
      ensures ok <==> (allocOk || old(vblankFree) != []) && (old(vblankQueue) != [] || timerOk)
      ensures !ok ==> waiting == old(waiting) && armed == old(armed) && accepted == old(accepted)
      ensures ok ==>
        waiting == old(waiting) + [Entry(old(accepted), id, target)] && |vblankQueue| == |old(vblankQueue)| + 1
      ensures ok && old(vblankQueue) != [] ==>
        armed == old(armed) && vblankTimer == old(vblankTimer) && seen == old(seen)
    {
      ghost var s := Now();
      var msc, targetUst := FirstUst(now, target);
      var vblank := TakeNode(id, target, allocOk);
      assert Now() == s;
      if vblank.None? {
        return false;
      }
      if |vblankQueue| == 0 {
        if !timerOk {
          vblankTimer := None;
          assert Now() == s.(current := None);
          return false;
        }
        SetTimer(timers, targetUst, msc);
        vblankTimer := Some(timers);
        timers := timers + 1;
      }
      Append(vblank.value, id, target);
      return true;
    }

    /** The filled node goes to the end of the queue. */
    method Append(vblank: VblankNode, id: int, target: int)
      requires Valid() && Holds(vblank, Entry(accepted, id, target)) && OnceOnly(vblankQueue + [vblank], vblankFree)
      modifies `vblankQueue, `waiting, `accepted
      ensures Valid()
      ensures Now() ==
        old(Now()).(queue := old(waiting) + [Entry(old(accepted), id, target)], accepted := old(accepted) + 1)
    {
      vblankQueue := vblankQueue + [vblank];
      waiting := waiting + [Entry(accepted, id, target)];
      accepted := accepted + 1;
    }

    /** `dummy_present_abort_vblank`: frees the first event with this id. */
    method AbortVblank(id: int)
      requires Valid()
      modifies `vblankQueue, `waiting
      ensures Valid()
      ensures Now() == AbortStep(old(Now()), id).0
      ensures vblankQueue == Without(old(vblankQueue), FirstWith(old(waiting), id))
    {
      var i := 0;
      while i < |vblankQueue|
        invariant 0 <= i <= |vblankQueue| && vblankQueue == old(vblankQueue) && waiting == old(waiting)
        invariant forall j :: 0 <= j < i ==> waiting[j].id != id
      {
        if vblankQueue[i].eventId == id {
          FirstWithIs(waiting, id, i);
          Free(i);
          return;
        }
        i := i + 1;
      }
      FirstWithIs(waiting, id, i);
    }

    /** The node at `i` is unlinked and freed. */
    method Free(i: nat)
      requires Valid() && i < |vblankQueue|
      modifies `vblankQueue, `waiting
      ensures Valid() && vblankQueue == Without(old(vblankQueue), i) && waiting == Without(old(waiting), i)
    {
      Abandoned(vblankQueue, vblankFree, i);
      vblankQueue := vblankQueue[..i] + vblankQueue[i + 1..];
      waiting := waiting[..i] + waiting[i + 1..];
    }

    /** `crtc_set_mode_major`. */
    method SetModeMajor(now: int, hTotal: int, vTotal: int, pixelClock: int)
      requires Valid() && pixelClock > 0
      modifies `ustBase, `mscBase, `interval
      ensures Valid() && Now() == Step(old(Now()), Action.ModeSet(now, hTotal, vTotal, pixelClock)).0
      ensures ustBase == now
      ensures ModeFits(hTotal, vTotal, pixelClock) ==> IsFrameTime(interval, hTotal, vTotal, pixelClock)
    {
      if ModeFits(hTotal, vTotal, pixelClock) {
        FrameTimeIs(hTotal, vTotal, pixelClock);
      }
      if interval != 0 {
        mscBase := Wrap(mscBase + Wrap(now - ustBase) / interval);
      }
      ustBase := now;
      interval := Wrap(Wrap(1000 * hTotal * vTotal) + pixelClock / 2) / pixelClock;
    }

    /** `dummy_present_free_vblanks`: both lists are emptied node by node, and every
        node is freed once. */
    method FreeVblanks() returns (freed: seq<VblankNode>)
      requires Valid()
      modifies `vblankQueue, `vblankFree, `waiting
      ensures Valid() && vblankQueue == [] && vblankFree == []
      ensures freed == old(vblankQueue) + old(vblankFree) && OnceOnly(freed, [])
    {
      freed := [];
      while |vblankQueue| > 0
        invariant freed + vblankQueue == old(vblankQueue) && vblankFree == old(vblankFree)
      {
        freed := freed + [vblankQueue[0]];
        vblankQueue := vblankQueue[1..];
      }
      while |vblankFree| > 0
        invariant vblankQueue == [] && freed + vblankFree == old(vblankQueue) + old(vblankFree)
      {
        freed := freed + [vblankFree[0]];
        vblankFree := vblankFree[1..];
      }
      waiting := [];
      assert vblankFree == [] && freed + [] == freed;
      BothConcat(old(vblankQueue), old(vblankFree));
    }
  }
}
