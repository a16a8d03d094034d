/** The scanner alone: does the shadow come to equal an unchanging screen? */
module Convergence {
  import opened Geometry
  import opened Tiles
  import opened Display
  import opened Pending
  import opened Scanner
  import opened Coverage
  import opened ScanLoop

  /* ---------- runs ---------- */

  ghost function Iterate(f: ScanState -> ScanState, s: ScanState, n: nat): ScanState
    decreases n
  {
    if n == 0 then s else Iterate(f, f(s), n - 1)
  }

  lemma {:induction false} IterateAdd(f: ScanState -> ScanState, s: ScanState, m: nat, n: nat)
    ensures Iterate(f, s, m + n) == Iterate(f, Iterate(f, s, m), n)
    decreases m
  {
    if m == 0 {
    } else {
      IterateAdd(f, f(s), m - 1, n);
    }
  }

  /** How many of the first `n` iterations are periodic scans: those that find the
      queue empty. */
  ghost function Scans(f: ScanState -> ScanState, s: ScanState, n: nat): nat
    decreases n
  {
    if n == 0 then 0 else (if s.pending.queue == [] then 1 else 0) + Scans(f, f(s), n - 1)
  }

  lemma {:induction false} ScansAdd(f: ScanState -> ScanState, s: ScanState, m: nat, n: nat)
    ensures Scans(f, s, m + n) == Scans(f, s, m) + Scans(f, Iterate(f, s, m), n)
    decreases m
  {
    if m == 0 {
    } else {
      ScansAdd(f, f(s), m - 1, n);
    }
  }

  /** The loop of the scanner thread while the screen shows `screen`. */
  ghost function Loop(screen: Frame, w: int, h: int): ScanState -> ScanState {
    s => if Fits(s, screen, w, h) then Tick(s, screen, w, h) else s
  }

  /** Every iteration of `f` makes progress. */
  ghost predicate Drives(f: ScanState -> ScanState, pattern: seq<int>, screen: Frame, w: int, h: int)
    requires |pattern| == NUM_SCANLINES
  {
    forall s :: Fits(s, screen, w, h) ==> Progress(pattern, s, f(s), screen, w, h)
  }

  lemma LoopDrives(screen: Frame, w: int, h: int)
    ensures Drives(Loop(screen, w, h), SCANLINES, screen, w, h)
  {
    forall s | Fits(s, screen, w, h)
      ensures Progress(SCANLINES, s, Loop(screen, w, h)(s), screen, w, h)
    {
      TickProgress(s, screen, w, h);
    }
  }

  ghost predicate Keeps(f: ScanState -> ScanState, screen: Frame, w: int, h: int) {
    forall s :: Fits(s, screen, w, h) ==> Fits(f(s), screen, w, h) && KeepsSame(s, f(s), screen, w, h)
  }

  lemma DrivesKeeps(f: ScanState -> ScanState, pattern: seq<int>, screen: Frame, w: int, h: int)
    requires |pattern| == NUM_SCANLINES && Drives(f, pattern, screen, w, h)
    ensures Keeps(f, screen, w, h)
  {
    forall s | Fits(s, screen, w, h)
      ensures Fits(f(s), screen, w, h) && KeepsSame(s, f(s), screen, w, h)
    {
      assert Progress(pattern, s, f(s), screen, w, h);
    }
  }

  lemma {:induction false} IterateKeepsSame(f: ScanState -> ScanState, s: ScanState, screen: Frame, w: int,
    h: int, n: nat)
    requires Keeps(f, screen, w, h) && Fits(s, screen, w, h)
    ensures Fits(Iterate(f, s, n), screen, w, h)
    ensures KeepsSame(s, Iterate(f, s, n), screen, w, h)
    decreases n
  {
    if n == 0 {
    } else {
      IterateKeepsSame(f, f(s), screen, w, h, n - 1);
      KeepsSameTrans(s, f(s), Iterate(f, s, n), screen, w, h);
    }
  }

  /** After one iteration per queued report the queue and the region are empty
      and every rectangle that was queued shows the screen. */
  lemma {:induction false} Drain(f: ScanState -> ScanState, pattern: seq<int>, s: ScanState, screen: Frame,
    w: int, h: int, n: nat)
    requires |pattern| == NUM_SCANLINES && Drives(f, pattern, screen, w, h) && Fits(s, screen, w, h)
    requires AreasPending(s.pending) && n == |s.pending.queue|
    ensures var t := Iterate(f, s, n);
      && Fits(t, screen, w, h) && t.pending == NOTHING && t.current == s.current && Scans(f, s, n) == 0
      && forall k :: 0 <= k < n && s.pending.queue[k].rect.Within(w, h) ==>
        AreaSame(t, screen, w, h, s.pending.queue[k].rect)
    decreases n
  {
    var queue := s.pending.queue;
    if n > 0 {
      var u := f(s);
      assert Progress(pattern, s, u, screen, w, h);
      DisjointTail(queue);
      Drain(f, pattern, u, screen, w, h, n - 1);
      DrivesKeeps(f, pattern, screen, w, h);
      IterateKeepsSame(f, u, screen, w, h, n - 1);
      var t := Iterate(f, s, n);
      forall k | 0 <= k < n && queue[k].rect.Within(w, h)
        ensures AreaSame(t, screen, w, h, queue[k].rect)
      {
        if k > 0 {
          assert queue[k] == u.pending.queue[k - 1];
        } else {
          assert AreaSame(u, screen, w, h, queue[0].rect);
        }
      }
    } else {
      assert queue == [];
    }
  }

  /* ---------- rounds ---------- */

  ghost predicate LineSame(s: ScanState, screen: Frame, w: int, h: int, y: int)
    requires Fits(s, screen, w, h) && 0 <= y < h
  {
    forall x :: 0 <= x < w ==> Same(s, screen, x, y)
  }

  /** Every line at `offset` within its row of tiles shows the screen. */
  ghost predicate OffsetSame(s: ScanState, screen: Frame, w: int, h: int, offset: int)
    requires Fits(s, screen, w, h)
  {
    forall y :: 0 <= y < h && y % 32 == offset ==> LineSame(s, screen, w, h, y)
  }

  ghost predicate OffsetsSame(s: ScanState, screen: Frame, w: int, h: int, done: set<int>)
    requires Fits(s, screen, w, h)
  {
    forall y :: 0 <= y < h && y % 32 in done ==> LineSame(s, screen, w, h, y)
  }

  lemma OffsetsSameStep(s: ScanState, t: ScanState, screen: Frame, w: int, h: int, done: set<int>, offset: int)
    requires Fits(s, screen, w, h) && Fits(t, screen, w, h) && KeepsSame(s, t, screen, w, h)
    requires OffsetsSame(s, screen, w, h, done) && OffsetSame(t, screen, w, h, offset)
    ensures OffsetsSame(t, screen, w, h, done + {offset})
  {
    forall y | 0 <= y < h && y % 32 in done
      ensures LineSame(t, screen, w, h, y)
    {
      assert LineSame(s, screen, w, h, y);
      assert forall x :: 0 <= x < w ==> Same(s, screen, x, y) && Same(t, screen, x, y);
    }
  }

  /** A round: one periodic scan from an idle state, and the draining of what it
      pushed. Afterwards every line of the scanned offset shows the screen. */
  ghost predicate RoundDone(pattern: seq<int>, s: ScanState, t: ScanState, screen: Frame, w: int, h: int)
    requires |pattern| == NUM_SCANLINES && Fits(s, screen, w, h)
  {
    && Fits(t, screen, w, h) && KeepsSame(s, t, screen, w, h)
    && t.pending == NOTHING && t.current == NextEntry(s.current)
    && OffsetSame(t, screen, w, h, pattern[s.current])
  }

  ghost predicate HasRound(f: ScanState -> ScanState, pattern: seq<int>, s: ScanState, screen: Frame, w: int, h: int)
    requires |pattern| == NUM_SCANLINES && Fits(s, screen, w, h)
  {
    exists n: nat :: RoundDone(pattern, s, Iterate(f, s, n), screen, w, h) && Scans(f, s, n) == 1
  }

  lemma Round(f: ScanState -> ScanState, pattern: seq<int>, s: ScanState, screen: Frame, w: int, h: int)
    requires |pattern| == NUM_SCANLINES && Drives(f, pattern, screen, w, h) && w % 32 <= 1
    requires Fits(s, screen, w, h) && s.pending == NOTHING
    ensures HasRound(f, pattern, s, screen, w, h)
  {
    var u := f(s);
    assert Progress(pattern, s, u, screen, w, h);
    var l := |u.pending.queue|;
    Drain(f, pattern, u, screen, w, h, l);
    DrivesKeeps(f, pattern, screen, w, h);
    IterateKeepsSame(f, u, screen, w, h, l);
    var t := Iterate(f, u, l);
    KeepsSameTrans(s, u, t, screen, w, h);
    forall x, y | 0 <= x < w && 0 <= y < h && y % 32 == pattern[s.current]
      ensures Same(t, screen, x, y)
    {
      if Same(s, screen, x, y) {
        assert Same(u, screen, x, y);
      } else {
        assert Queued(u.pending, w, h, x, y);
        var k :| 0 <= k < l && u.pending.queue[k].rect.Within(w, h) && u.pending.queue[k].rect.Contains(Point(x, y));
        assert AreaSame(t, screen, w, h, u.pending.queue[k].rect);
      }
    }
    assert Iterate(f, s, 1 + l) == t;
    assert Scans(f, s, 1 + l) == 1 + Scans(f, u, l);
    assert RoundDone(pattern, s, Iterate(f, s, 1 + l), screen, w, h);
  }

  /** From every idle state `f` completes a round. */
  ghost predicate Cycles(f: ScanState -> ScanState, pattern: seq<int>, screen: Frame, w: int, h: int)
    requires |pattern| == NUM_SCANLINES
  {
    forall s {:trigger HasRound(f, pattern, s, screen, w, h)} ::
      Fits(s, screen, w, h) && s.pending == NOTHING ==> HasRound(f, pattern, s, screen, w, h)
  }

  /** Where each offset stands in the scan line pattern. */
  const VISITED_AT: seq<int> := [
    0, 16, 11, 25, 4, 30, 13, 20,
    2, 18, 8, 27, 6, 29, 15, 22,
    1, 17, 10, 24, 5, 31, 12, 21,
    3, 19, 9, 26, 7, 28, 14, 23
  ]

  /** `visitedAt` inverts the pattern, so the pattern visits every offset. */
  ghost predicate VisitsAll(pattern: seq<int>, visitedAt: seq<int>) {
    && |pattern| == |visitedAt| == NUM_SCANLINES
    && forall m :: 0 <= m < NUM_SCANLINES ==> 0 <= visitedAt[m] < NUM_SCANLINES && pattern[visitedAt[m]] == m
  }

  /** The scan line pattern is a permutation of 0..31. */
  lemma PatternVisitsAll()
    ensures VisitsAll(SCANLINES, VISITED_AT)
  {
    forall m | 0 <= m < NUM_SCANLINES
      ensures 0 <= VISITED_AT[m] < NUM_SCANLINES && SCANLINES[VISITED_AT[m]] == m
    {
    }
  }

  /** Where the pattern stands after `k` more rounds. */
  function Later(current: int, k: nat): (next: int)
    requires 0 <= current < NUM_SCANLINES
    ensures 0 <= next < NUM_SCANLINES
  {
    if k == 0 then current else NextEntry(Later(current, k - 1))
  }

  lemma {:induction false} LaterIsSum(current: int, k: nat)
    requires 0 <= current < NUM_SCANLINES && k <= NUM_SCANLINES
    ensures Later(current, k) == if current + k < NUM_SCANLINES then current + k else current + k - NUM_SCANLINES
  {
    if k == 0 {
    } else {
      LaterIsSum(current, k - 1);
    }
  }

  /** The offsets scanned in the first `k` rounds after the pattern stood at `current`. */
  function Visited(pattern: seq<int>, current: int, k: nat): set<int>
    requires |pattern| == NUM_SCANLINES && 0 <= current < NUM_SCANLINES
  {
    if k == 0 then {} else Visited(pattern, current, k - 1) + {pattern[Later(current, k - 1)]}
  }

  lemma {:induction false} VisitedHas(pattern: seq<int>, current: int, k: nat, j: nat)
    requires |pattern| == NUM_SCANLINES && 0 <= current < NUM_SCANLINES && j < k
    ensures pattern[Later(current, j)] in Visited(pattern, current, k)
  {
    if j == k - 1 {
    } else {
      VisitedHas(pattern, current, k - 1, j);
    }
  }

  /** Thirty-two rounds from anywhere in the pattern visit every offset. */
  lemma VisitedAll(pattern: seq<int>, visitedAt: seq<int>, current: int, m: int)
    requires VisitsAll(pattern, visitedAt) && 0 <= current < NUM_SCANLINES && 0 <= m < NUM_SCANLINES
    ensures m in Visited(pattern, current, NUM_SCANLINES)
  {
    var k := visitedAt[m];
    var j := if current <= k then k - current else k - current + NUM_SCANLINES;
    LaterIsSum(current, j);
    VisitedHas(pattern, current, NUM_SCANLINES, j);
  }

  /** `k` rounds visit the next `k` entries of the scan line pattern. */
  lemma {:induction false} Rounds(f: ScanState -> ScanState, pattern: seq<int>, s: ScanState, screen: Frame,
    w: int, h: int, k: nat) returns (n: nat)
    requires |pattern| == NUM_SCANLINES && Cycles(f, pattern, screen, w, h)
    requires Fits(s, screen, w, h) && s.pending == NOTHING
    ensures var t := Iterate(f, s, n);
      && Fits(t, screen, w, h) && t.pending == NOTHING && t.current == Later(s.current, k) && Scans(f, s, n) == k
      && OffsetsSame(t, screen, w, h, Visited(pattern, s.current, k))
  {
    if k == 0 {
      n := 0;
    } else {
      var m := Rounds(f, pattern, s, screen, w, h, k - 1);
      var u := Iterate(f, s, m);
      assert HasRound(f, pattern, u, screen, w, h);
      var l: nat :| RoundDone(pattern, u, Iterate(f, u, l), screen, w, h) && Scans(f, u, l) == 1;
      n := m + l;
      IterateAdd(f, s, m, l);
      ScansAdd(f, s, m, l);
      OffsetsSameStep(u, Iterate(f, u, l), screen, w, h, Visited(pattern, s.current, k - 1), pattern[u.current]);
    }
  }

  /** A state whose shadow shows the whole screen keeps showing it. */
  lemma StaysSame(f: ScanState -> ScanState, s: ScanState, screen: Frame, w: int, h: int, n: nat)
    requires Keeps(f, screen, w, h) && Fits(s, screen, w, h) && s.shadow == screen
    ensures Iterate(f, s, n).shadow == screen
  {
    IterateKeepsSame(f, s, screen, w, h, n);
    var t := Iterate(f, s, n);
    forall y | 0 <= y < h
      ensures t.shadow[y] == screen[y]
    {
      assert forall x :: 0 <= x < w ==> Same(s, screen, x, y);
      LineEqual(t, screen, w, h, y);
    }
  }

  lemma AllOffsetsSame(t: ScanState, screen: Frame, w: int, h: int, done: set<int>)
    requires Fits(t, screen, w, h) && OffsetsSame(t, screen, w, h, done)
    requires forall m :: 0 <= m < NUM_SCANLINES ==> m in done
    ensures t.shadow == screen
  {
    forall y | 0 <= y < h
      ensures t.shadow[y] == screen[y]
    {
      assert y % 32 in done;
      LineEqual(t, screen, w, h, y);
    }
  }

  lemma LineEqual(t: ScanState, screen: Frame, w: int, h: int, y: int)
    requires Fits(t, screen, w, h) && 0 <= y < h && LineSame(t, screen, w, h, y)
    ensures t.shadow[y] == screen[y]
  {
    assert |t.shadow[y]| == |screen[y]| == w;
    forall x | 0 <= x < w
      ensures t.shadow[y][x] == screen[y][x]
    {
      assert Same(t, screen, x, y);
    }
  }

  /** Convergence: when the width leaves a remainder of at most one, whatever the
      shadow holds, wherever the pattern stands and whatever areas are pending,
      draining and 32 periodic scans, each drained, make the shadow equal the
      screen, and it stays equal. */
  lemma Converges(s: ScanState, screen: Frame, w: int, h: int) returns (n: nat)
    requires Fits(s, screen, w, h) && AreasPending(s.pending) && w % 32 <= 1
    ensures forall m: nat :: m >= n ==> Iterate(Loop(screen, w, h), s, m).shadow == screen
    ensures Iterate(Loop(screen, w, h), s, n).pending == NOTHING
    ensures Iterate(Loop(screen, w, h), s, n).current == s.current
    ensures Scans(Loop(screen, w, h), s, n) == NUM_SCANLINES
  {
    LoopDrives(screen, w, h);
    PatternVisitsAll();
    DrivesKeeps(Loop(screen, w, h), SCANLINES, screen, w, h);
    n := ConvergesUnder(Loop(screen, w, h), SCANLINES, VISITED_AT, s, screen, w, h);
    forall m: nat | m >= n
      ensures Iterate(Loop(screen, w, h), s, m).shadow == screen
    {
      StaysConverged(Loop(screen, w, h), s, screen, w, h, n, m);
    }
  }

  lemma ConvergesUnder(f: ScanState -> ScanState, pattern: seq<int>, visitedAt: seq<int>, s: ScanState, screen: Frame,
    w: int, h: int) returns (n: nat)
    requires VisitsAll(pattern, visitedAt) && Drives(f, pattern, screen, w, h) && w % 32 <= 1
    requires Fits(s, screen, w, h) && AreasPending(s.pending)
    ensures Iterate(f, s, n).shadow == screen && Fits(Iterate(f, s, n), screen, w, h)
    ensures Iterate(f, s, n).pending == NOTHING && Iterate(f, s, n).current == s.current
    ensures Scans(f, s, n) == NUM_SCANLINES
  {
    var d := |s.pending.queue|;
    Drain(f, pattern, s, screen, w, h, d);
    DrivesCycles(f, pattern, screen, w, h);
    n := DrainedConverges(f, pattern, visitedAt, s, screen, w, h, d);
  }

  lemma DrivesCycles(f: ScanState -> ScanState, pattern: seq<int>, screen: Frame, w: int, h: int)
    requires |pattern| == NUM_SCANLINES && Drives(f, pattern, screen, w, h) && w % 32 <= 1
    ensures Cycles(f, pattern, screen, w, h)
  {
    forall u | Fits(u, screen, w, h) && u.pending == NOTHING
      ensures HasRound(f, pattern, u, screen, w, h)
    {
      Round(f, pattern, u, screen, w, h);
    }
  }

  lemma DrainedConverges(f: ScanState -> ScanState, pattern: seq<int>, visitedAt: seq<int>, s: ScanState, screen: Frame,
    w: int, h: int, d: nat) returns (n: nat)
    requires VisitsAll(pattern, visitedAt) && Cycles(f, pattern, screen, w, h)
    requires var t := Iterate(f, s, d); Fits(t, screen, w, h) && t.pending == NOTHING && t.current == s.current
    requires Scans(f, s, d) == 0
    ensures Iterate(f, s, n).shadow == screen && Fits(Iterate(f, s, n), screen, w, h)
    ensures Iterate(f, s, n).pending == NOTHING && Iterate(f, s, n).current == s.current
    ensures Scans(f, s, n) == NUM_SCANLINES
  {
    var l := AllRounds(f, pattern, visitedAt, Iterate(f, s, d), screen, w, h);
    n := d + l;
    IterateAdd(f, s, d, l);
    ScansAdd(f, s, d, l);
  }

  lemma AllRounds(f: ScanState -> ScanState, pattern: seq<int>, visitedAt: seq<int>, s: ScanState, screen: Frame,
    w: int, h: int) returns (n: nat)
    requires VisitsAll(pattern, visitedAt) && Cycles(f, pattern, screen, w, h)
    requires Fits(s, screen, w, h) && s.pending == NOTHING
    ensures var t := Iterate(f, s, n);
      Fits(t, screen, w, h) && t.shadow == screen && t.pending == NOTHING && t.current == s.current &&
      Scans(f, s, n) == NUM_SCANLINES
  {
    n := Rounds(f, pattern, s, screen, w, h, NUM_SCANLINES);
    LaterIsSum(s.current, NUM_SCANLINES);
    forall m | 0 <= m < NUM_SCANLINES
      ensures m in Visited(pattern, s.current, NUM_SCANLINES)
    {
      VisitedAll(pattern, visitedAt, s.current, m);
    }
    AllOffsetsSame(Iterate(f, s, n), screen, w, h, Visited(pattern, s.current, NUM_SCANLINES));
  }

  lemma StaysConverged(f: ScanState -> ScanState, s: ScanState, screen: Frame, w: int, h: int, n: nat, m: nat)
    requires Keeps(f, screen, w, h) && n <= m
    requires Fits(Iterate(f, s, n), screen, w, h) && Iterate(f, s, n).shadow == screen
    ensures Iterate(f, s, m).shadow == screen
  {
    IterateAdd(f, s, n, m - n);
    StaysSame(f, Iterate(f, s, n), screen, w, h, m - n);
  }

  /* ---------- the widths that never converge ---------- */

  lemma {:induction false} StuckForever(f: ScanState -> ScanState, s: ScanState, screen: Frame, w: int, h: int,
    p: Point, n: nat)
    requires forall u :: Fits(u, screen, w, h) && Stuck(u, screen, w, h, p) ==>
      Fits(f(u), screen, w, h) && Stuck(f(u), screen, w, h, p)
    requires Fits(s, screen, w, h) && Stuck(s, screen, w, h, p)
    ensures Fits(Iterate(f, s, n), screen, w, h) && Stuck(Iterate(f, s, n), screen, w, h, p)
    decreases n
  {
    if n == 0 {
    } else {
      StuckForever(f, f(s), screen, w, h, p, n - 1);
    }
  }

  ghost predicate EventuallySame(s: ScanState, screen: Frame, w: int, h: int) {
    exists n: nat :: Iterate(Loop(screen, w, h), s, n).shadow == screen
  }

  /** The scanner brings every shadow to every screen of this size exactly when
      the width leaves a remainder of at most one modulo 32. */
  lemma ConvergesIff(w: int, h: int)
    requires 0 < w && 0 < h
    ensures (forall s: ScanState, screen: Frame ::
        Fits(s, screen, w, h) && s.pending == NOTHING ==> EventuallySame(s, screen, w, h))
      <==> w % 32 <= 1
  {
    if w % 32 <= 1 {
      forall s: ScanState, screen: Frame | Fits(s, screen, w, h) && s.pending == NOTHING
        ensures EventuallySame(s, screen, w, h)
      {
        var n := Converges(s, screen, w, h);
        assert Iterate(Loop(screen, w, h), s, n).shadow == screen;
      }
    } else {
      NeverSame(w, h);
    }
  }

  lemma NeverSame(w: int, h: int)
    requires 0 < w && 0 < h && w % 32 >= 2
    ensures exists s: ScanState, screen: Frame ::
      Fits(s, screen, w, h) && s.pending == NOTHING && !EventuallySame(s, screen, w, h)
  {
    LastShareIsLate(w);
    var p := Point(DiffCut(w, 31), 0);
    var s, screen := ScanState(Black(w, h), 0, NOTHING), Dot(w, h, p);
    var f := Loop(screen, w, h);
    forall u | Fits(u, screen, w, h) && Stuck(u, screen, w, h, p)
      ensures Fits(f(u), screen, w, h) && Stuck(f(u), screen, w, h, p)
    {
      StuckTick(u, screen, w, h);
    }
    forall n: nat
      ensures Iterate(f, s, n).shadow != screen
    {
      StuckForever(f, s, screen, w, h, p, n);
      assert Iterate(f, s, n).shadow[p.y][p.x] != screen[p.y][p.x];
    }
    assert !EventuallySame(s, screen, w, h);
  }
}
