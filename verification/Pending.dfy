/** The queue of scan reports and the region of pending pixels, shared by the X
    event thread and the scanner thread: who may push, pop, remove and read when,
    and which notices are never lost. */
module Pending {
  import opened Geometry
  import opened Sequences

  datatype Kind = Damage | Scanline | Exit | Fullscreen

  datatype Report = Report(kind: Kind, rect: Rect) {
    predicate IsArea() {
      kind.Damage? || kind.Scanline?
    }

    function Area(): set<Point> {
      if IsArea() then rect.Pixels() else {}
    }
  }

  function Areas(queue: seq<Report>): (s: set<Point>)
    ensures forall p :: p in s <==> exists k :: 0 <= k < |queue| && p in queue[k].Area()
  {
    if queue == [] then {} else Areas(queue[..|queue| - 1]) + queue[|queue| - 1].Area()
  }

  lemma AreasHeadTail(queue: seq<Report>)
    requires queue != []
    ensures Areas(queue) == queue[0].Area() + Areas(queue[1..])
  {
    forall p | p in Areas(queue)
      ensures p in queue[0].Area() + Areas(queue[1..])
    {
      var k :| 0 <= k < |queue| && p in queue[k].Area();
      assert k > 0 ==> queue[1..][k - 1] == queue[k];
    }
    forall p | p in Areas(queue[1..])
      ensures p in Areas(queue)
    {
      var k :| 0 <= k < |queue[1..]| && p in queue[1..][k].Area();
      assert queue[1..][k] == queue[k + 1];
    }
  }

  /** `NonZero` is the test as written, which discards on any overlap;
      `Contained` is the test its comment describes. */
  datatype DiscardTest = NonZero | Contained

  predicate Discards(t: DiscardTest, o: Overlap) {
    match t
    case NonZero => o != OUT
    case Contained => o == IN
  }

  datatype Pending = Pending(queue: seq<Report>, region: set<Point>)

  const NOTHING := Pending([], {})

  predicate Accepts(t: DiscardTest, p: Pending, r: Report) {
    !r.IsArea() || !Discards(t, ContainsRectangle(p.region, r.rect))
  }

  /** `scanner_push`. */
  function Push(t: DiscardTest, p: Pending, r: Report): Pending {
    if Accepts(t, p, r) then Pending(p.queue + [r], p.region + r.Area()) else p
  }

  /* ---------- the protocol ---------- */

  /** What the scanner thread is doing with the report it popped last. */
  datatype Hand = Empty | Holding(r: Report, removed: bool, read: bool)

  datatype State = State(p: Pending, hand: Hand)

  datatype Action = Notify(r: Report) | Pop | Remove | Read

  /** The order of `scanner_remove_region` and the read of the screen:
      `RemoveFirst` is the order of `scanner_run`. */
  datatype Order = RemoveFirst | ReadFirst

  function Held(s: State): set<Point> {
    if s.hand.Holding? then s.hand.r.Area() else {}
  }

  function Step(t: DiscardTest, o: Order, s: State, a: Action): Option<State> {
    match a
    case Notify(r) => Some(s.(p := Push(t, s.p, r)))
    case Pop =>
      if s.hand.Holding? || s.p.queue == [] then None
      else
        var r := s.p.queue[0];
        Some(State(s.p.(queue := s.p.queue[1..]), if r.IsArea() then Holding(r, false, false) else Empty))
    case Remove =>
      if !s.hand.Holding? || s.hand.removed || (o == ReadFirst && !s.hand.read) then None
      else
        Some(State(s.p.(region := s.p.region - Held(s)), if s.hand.read then Empty else s.hand.(removed := true)))
    case Read =>
      if !s.hand.Holding? || s.hand.read || (o == RemoveFirst && !s.hand.removed) then None
      else Some(s.(hand := if s.hand.removed then Empty else s.hand.(read := true)))
  }

  /** The state after a run, if each of its actions was possible. */
  function After(t: DiscardTest, o: Order, s: State, run: seq<Action>): Option<State> {
    if run == [] then Some(s)
    else
      var before := After(t, o, s, run[..|run| - 1]);
      if before.None? then None else Step(t, o, before.value, run[|run| - 1])
  }

  ghost predicate IsRun(t: DiscardTest, o: Order, s: State, run: seq<Action>) {
    forall n :: 0 <= n <= |run| ==> After(t, o, s, run[..n]).Some?
  }

  ghost function At(t: DiscardTest, o: Order, s: State, run: seq<Action>, n: nat): State
    requires n <= |run| && IsRun(t, o, s, run)
  {
    After(t, o, s, run[..n]).value
  }

  lemma AtStep(t: DiscardTest, o: Order, s: State, run: seq<Action>, n: nat)
    requires n < |run| && IsRun(t, o, s, run)
    ensures Step(t, o, At(t, o, s, run, n), run[n]) == Some(At(t, o, s, run, n + 1))
  {
    assert run[..n + 1][..n] == run[..n];
    assert After(t, o, s, run[..n + 1]).Some?;
  }

  /** Step `n` of the run reads pixel `p` from the screen. */
  ghost predicate ReadsAt(t: DiscardTest, o: Order, s: State, run: seq<Action>, n: nat, p: Point)
    requires n < |run| && IsRun(t, o, s, run)
  {
    run[n].Read? && p in Held(At(t, o, s, run, n))
  }

  ghost predicate ReadBetween(t: DiscardTest, o: Order, s: State, run: seq<Action>, i: int, n: int, p: Point)
    requires n <= |run| && IsRun(t, o, s, run)
  {
    exists j: nat :: i <= j < n && ReadsAt(t, o, s, run, j, p)
  }

  predicate Idle(s: State) {
    s.p.queue == [] && s.hand.Empty?
  }

  const START := State(NOTHING, Empty)

  /* ---------- invariants ---------- */

  /** What a queued or popped report still promises to read. */
  function Owed(s: State): set<Point> {
    Areas(s.p.queue) + (if s.hand.Holding? && !s.hand.read then s.hand.r.Area() else {})
  }

  /** The reports queued, or popped and not yet removed from the region. */
  function Unremoved(s: State): seq<Report> {
    (if s.hand.Holding? && !s.hand.removed then [s.hand.r] else []) + s.p.queue
  }

  ghost predicate DisjointReports(rs: seq<Report>) {
    forall i, j :: 0 <= i < j < |rs| ==> rs[i].Area() !! rs[j].Area()
  }

  lemma UnremovedAreas(s: State)
    ensures Areas(Unremoved(s)) ==
      Areas(s.p.queue) + (if s.hand.Holding? && !s.hand.removed then s.hand.r.Area() else {})
  {
    if s.hand.Holding? && !s.hand.removed {
      AreasHeadTail(Unremoved(s));
      assert Unremoved(s)[1..] == s.p.queue;
    } else {
      assert Unremoved(s) == s.p.queue;
    }
  }

  /** Under the code's order: the region never claims a pixel that is not about
      to be read, and a report is removed before it is read. */
  ghost predicate Sound(s: State) {
    && s.p.region <= Areas(Unremoved(s))
    && (s.hand.Holding? ==> !s.hand.read && s.hand.r.IsArea())
  }

  /** With the test as written the region is exact and pending reports are disjoint. */
  ghost predicate Exact(s: State) {
    && Sound(s)
    && s.p.region == Areas(Unremoved(s))
    && DisjointReports(Unremoved(s))
  }

  lemma SoundStep(t: DiscardTest, s: State, a: Action)
    requires Sound(s) && Step(t, RemoveFirst, s, a).Some?
    ensures Sound(Step(t, RemoveFirst, s, a).value)
  {
    var s' := Step(t, RemoveFirst, s, a).value;
    UnremovedAreas(s);
    UnremovedAreas(s');
    match a
    case Notify(r) => assert (s.p.queue + [r])[..|s.p.queue|] == s.p.queue;
    case Pop => AreasHeadTail(s.p.queue);
    case Remove =>
    case Read =>
  }

  lemma DisjointAppend(rs: seq<Report>, r: Report)
    requires DisjointReports(rs) && Areas(rs) !! r.Area()
    ensures DisjointReports(rs + [r])
  {
    assert forall i :: 0 <= i < |rs| ==> rs[i].Area() <= Areas(rs);
  }

  lemma DisjointTail(rs: seq<Report>)
    requires rs != [] && DisjointReports(rs)
    ensures DisjointReports(rs[1..]) && Areas(rs[1..]) == Areas(rs) - rs[0].Area()
  {
    AreasHeadTail(rs);
    forall p | p in Areas(rs[1..])
      ensures p !in rs[0].Area()
    {
      var k :| 0 <= k < |rs[1..]| && p in rs[1..][k].Area();
      assert rs[0].Area() !! rs[k + 1].Area();
    }
  }

  lemma AreasAppend(rs: seq<Report>, r: Report)
    ensures Areas(rs + [r]) == Areas(rs) + r.Area()
  {
    assert (rs + [r])[..|rs|] == rs;
  }

  lemma AcceptExact(rs: seq<Report>, p: Pending, r: Report)
    requires p.region == Areas(rs) && DisjointReports(rs) && Accepts(NonZero, p, r)
    ensures Push(NonZero, p, r).region == Areas(rs + [r]) && DisjointReports(rs + [r])
  {
    AreasAppend(rs, r);
    forall q | q in r.Area()
      ensures q !in p.region
    {
      assert q in p.region ==> q in p.region * r.rect.Pixels();
    }
    DisjointAppend(rs, r);
  }

  /** How a step changes the reports that are queued or popped and not removed. */
  lemma UnremovedStep(s: State, a: Action)
    requires Step(NonZero, RemoveFirst, s, a).Some?
    ensures var rs, rs' := Unremoved(s), Unremoved(Step(NonZero, RemoveFirst, s, a).value);
      match a
      case Notify(r) => rs' == if Accepts(NonZero, s.p, r) then rs + [r] else rs
      case Pop => rs == s.p.queue && rs' == if rs[0].IsArea() then rs else rs[1..]
      case Remove => rs != [] && s.hand.r == rs[0] && (!s.hand.read ==> rs' == rs[1..])
      case Read => rs' == rs
  {
    var s' := Step(NonZero, RemoveFirst, s, a).value;
    match a
    case Notify(r) =>
      if Accepts(NonZero, s.p, r) {
        assert Unremoved(s') == Unremoved(s) + [r];
      }
    case Pop =>
      assert Unremoved(s) == s.p.queue;
      assert [s.p.queue[0]] + s.p.queue[1..] == s.p.queue;
      assert [] + s.p.queue[1..] == s.p.queue[1..];
    case Remove =>
      assert Unremoved(s) == [s.hand.r] + s.p.queue;
      assert Unremoved(s)[1..] == s.p.queue;
    case Read =>
  }

  lemma ExactStep(s: State, a: Action)
    requires Exact(s) && Step(NonZero, RemoveFirst, s, a).Some?
    ensures Exact(Step(NonZero, RemoveFirst, s, a).value)
  {
    SoundStep(NonZero, s, a);
    UnremovedStep(s, a);
    var rs := Unremoved(s);
    match a
    case Notify(r) =>
      if Accepts(NonZero, s.p, r) {
        AcceptExact(rs, s.p, r);
      }
    case Pop =>
      DisjointTail(rs);
    case Remove =>
      DisjointTail(rs);
    case Read =>
  }

  /** In every reachable state the region lies within the reports queued or
      popped but not yet removed, and with the test as written those reports are
      pairwise disjoint and the region is exactly their union. */
  lemma {:induction false} RegionInvariant(t: DiscardTest, run: seq<Action>)
    requires After(t, RemoveFirst, START, run).Some?
    ensures var s := After(t, RemoveFirst, START, run).value;
      && s.p.region <= Areas(Unremoved(s))
      && Sound(s)
      && (t == NonZero ==> Exact(s))
  {
    if run == [] {
      assert Unremoved(START) == [];
    } else {
      RegionInvariant(t, run[..|run| - 1]);
      var s, a := After(t, RemoveFirst, START, run[..|run| - 1]).value, run[|run| - 1];
      SoundStep(t, s, a);
      if t == NonZero {
        ExactStep(s, a);
      }
    }
  }

  /* ---------- no notice is lost ---------- */

  /** A step keeps every owed pixel owed, unless it reads it. */
  lemma OwedStep(t: DiscardTest, o: Order, s: State, a: Action, p: Point)
    requires p in Owed(s) && Step(t, o, s, a).Some?
    requires s.hand.Holding? ==> s.hand.r.IsArea()
    ensures (a.Read? && p in Held(s)) || p in Owed(Step(t, o, s, a).value)
  {
    match a
    case Notify(r) => assert (s.p.queue + [r])[..|s.p.queue|] == s.p.queue;
    case Pop => AreasHeadTail(s.p.queue);
    case Remove =>
    case Read =>
  }

  lemma {:induction false} OwedUntilRead(t: DiscardTest, run: seq<Action>, i: nat, n: nat, p: Point)
    requires i <= n <= |run| && IsRun(t, RemoveFirst, START, run)
    requires p in Owed(At(t, RemoveFirst, START, run, i))
    ensures p in Owed(At(t, RemoveFirst, START, run, n)) || ReadBetween(t, RemoveFirst, START, run, i, n, p)
  {
    if i == n {
    } else {
      var m := n - 1;
      OwedUntilRead(t, run, i, m, p);
      ReadBetweenStep(t, RemoveFirst, START, run, i, m, p);
      assert ReadBetween(t, RemoveFirst, START, run, i, n, p) <==>
        ReadBetween(t, RemoveFirst, START, run, i, m, p) || ReadsAt(t, RemoveFirst, START, run, m, p);
      if p in Owed(At(t, RemoveFirst, START, run, m)) {
        OwedOrRead(t, run, m, p);
        assert p in Owed(At(t, RemoveFirst, START, run, n)) || ReadsAt(t, RemoveFirst, START, run, m, p);
      }
    }
  }

  lemma ReadBetweenStep(t: DiscardTest, o: Order, s: State, run: seq<Action>, i: nat, n: nat, p: Point)
    requires i <= n < |run| && IsRun(t, o, s, run)
    ensures ReadBetween(t, o, s, run, i, n + 1, p) <==>
      ReadBetween(t, o, s, run, i, n, p) || ReadsAt(t, o, s, run, n, p)
  {
    if ReadBetween(t, o, s, run, i, n, p) {
      var j: nat :| i <= j < n && ReadsAt(t, o, s, run, j, p);
      assert j < n + 1;
    }
  }

  lemma OwedOrRead(t: DiscardTest, run: seq<Action>, n: nat, p: Point)
    requires n < |run| && IsRun(t, RemoveFirst, START, run)
    requires p in Owed(At(t, RemoveFirst, START, run, n))
    ensures p in Owed(At(t, RemoveFirst, START, run, n + 1)) || ReadsAt(t, RemoveFirst, START, run, n, p)
  {
    AtStep(t, RemoveFirst, START, run, n);
    RegionInvariant(t, run[..n]);
    OwedStep(t, RemoveFirst, At(t, RemoveFirst, START, run, n), run[n], p);
  }

  /** Right after a notice its pixels are owed, if it was accepted or they lay in the
      region. */
  lemma NoticeIsOwed(t: DiscardTest, s: State, r: Report, p: Point)
    requires Sound(s) && p in r.Area() && (t == Contained || Accepts(t, s.p, r) || p in s.p.region)
    ensures p in Owed(s.(p := Push(t, s.p, r)))
  {
    UnremovedAreas(s);
    if Accepts(t, s.p, r) {
      AreasAppend(s.p.queue, r);
    }
  }

  /** No lost notice: in every interleaving that ends idle, each pixel of an
      accepted notice, and each pixel of a discarded one that lay in the pending
      region, is read from the screen after that notice. With the intended
      containment test this is every pixel of every notice. */
  lemma NoLostNotice(t: DiscardTest, run: seq<Action>, i: nat, p: Point)
    requires i < |run| && IsRun(t, RemoveFirst, START, run)
    requires Idle(At(t, RemoveFirst, START, run, |run|))
    requires run[i].Notify? && p in run[i].r.Area()
    requires var before := At(t, RemoveFirst, START, run, i).p;
      t == Contained || Accepts(t, before, run[i].r) || p in before.region
    ensures ReadBetween(t, RemoveFirst, START, run, i + 1, |run|, p)
  {
    AtStep(t, RemoveFirst, START, run, i);
    RegionInvariant(t, run[..i]);
    NoticeIsOwed(t, At(t, RemoveFirst, START, run, i), run[i].r, p);
    OwedUntilRead(t, run, i + 1, |run|, p);
  }

  /** The guarantee rests on removing the region before reading: in the other
      order a notice that arrives between the two is discarded and its pixel is
      never read again. */
  lemma ReadFirstLosesNotice()
    ensures exists run: seq<Action>, i: nat, p: Point ::
      && i < |run| && IsRun(Contained, ReadFirst, START, run)
      && Idle(At(Contained, ReadFirst, START, run, |run|))
      && run[i].Notify? && p in run[i].r.Area()
      && !ReadBetween(Contained, ReadFirst, START, run, i + 1, |run|, p)
  {
    var r, p := Report(Damage, Rect(0, 0, 1, 1)), Point(0, 0);
    var run := [Notify(r), Pop, Read, Notify(r), Remove];
    var s1 := State(Pending([r], r.Area()), Empty);
    var s2 := State(Pending([], r.Area()), Holding(r, false, false));
    var s3 := State(Pending([], r.Area()), Holding(r, false, true));
    assert p in r.Area();
    assert {} + r.Area() == r.Area() && r.Area() - r.Area() == {};
    assert Push(Contained, NOTHING, r) == s1.p && [r][1..] == [];
    RunOf5(Contained, ReadFirst, START, run, s1, s2, s3, s3, START);
    assert Idle(At(Contained, ReadFirst, START, run, |run|));
    assert !ReadBetween(Contained, ReadFirst, START, run, 3 + 1, |run|, p);
  }

  lemma RunOf5(t: DiscardTest, o: Order, s0: State, run: seq<Action>,
    s1: State, s2: State, s3: State, s4: State, s5: State)
    requires |run| == 5
    requires Step(t, o, s0, run[0]) == Some(s1) && Step(t, o, s1, run[1]) == Some(s2)
    requires Step(t, o, s2, run[2]) == Some(s3) && Step(t, o, s3, run[3]) == Some(s4)
    requires Step(t, o, s4, run[4]) == Some(s5)
    ensures IsRun(t, o, s0, run)
    ensures At(t, o, s0, run, 1) == s1 && At(t, o, s0, run, 2) == s2 && At(t, o, s0, run, 3) == s3
    ensures At(t, o, s0, run, 4) == s4 && At(t, o, s0, run, 5) == s5
  {
    assert run[..1][..0] == run[..0] && After(t, o, s0, run[..1]) == Some(s1);
    assert run[..2][..1] == run[..1] && After(t, o, s0, run[..2]) == Some(s2);
    assert run[..3][..2] == run[..2] && After(t, o, s0, run[..3]) == Some(s3);
    assert run[..4][..3] == run[..3] && After(t, o, s0, run[..4]) == Some(s4);
    assert run[..5][..4] == run[..4] && After(t, o, s0, run[..5]) == Some(s5);
  }

  /* ---------- exactly which notices survive ---------- */

  ghost predicate NoNotices(run: seq<Action>) {
    forall i :: 0 <= i < |run| ==> !run[i].Notify?
  }

  /** Without further notices the scanner thread reads exactly the owed pixels. */
  lemma {:induction false} DrainReadsOwed(t: DiscardTest, s: State, run: seq<Action>, n: nat, p: Point)
    requires n <= |run| && IsRun(t, RemoveFirst, s, run) && NoNotices(run)
    requires s.hand.Holding? ==> s.hand.r.IsArea() && !s.hand.read
    ensures var last := At(t, RemoveFirst, s, run, n);
      && (last.hand.Holding? ==> last.hand.r.IsArea() && !last.hand.read)
      && (p in Owed(s) <==> p in Owed(last) || ReadBetween(t, RemoveFirst, s, run, 0, n, p))
  {
    if n == 0 {
      assert run[..0] == [];
    } else {
      DrainReadsOwed(t, s, run, n - 1, p);
      AtStep(t, RemoveFirst, s, run, n - 1);
      DrainStep(t, At(t, RemoveFirst, s, run, n - 1), run[n - 1], p);
      ReadBetweenStep(t, RemoveFirst, s, run, 0, n - 1, p);
    }
  }

  lemma DrainStep(t: DiscardTest, s: State, a: Action, p: Point)
    requires !a.Notify? && Step(t, RemoveFirst, s, a).Some?
    requires s.hand.Holding? ==> s.hand.r.IsArea() && !s.hand.read
    ensures var s' := Step(t, RemoveFirst, s, a).value;
      && (s'.hand.Holding? ==> s'.hand.r.IsArea() && !s'.hand.read)
      && (p in Owed(s) <==> p in Owed(s') || (a.Read? && p in Held(s)))
  {
    if a.Pop? {
      AreasHeadTail(s.p.queue);
    }
  }

  /** With the test as written, a notice is read in full by the drain that
      follows it exactly when it does not overlap the pending region, or lies
      within that region and the report now being read. */
  lemma NoticeKeptIff(s: State, r: Report, run: seq<Action>)
    requires Exact(s) && r.IsArea()
    requires var s' := s.(p := Push(NonZero, s.p, r));
      && IsRun(NonZero, RemoveFirst, s', run) && NoNotices(run)
      && Idle(At(NonZero, RemoveFirst, s', run, |run|))
    ensures var s' := s.(p := Push(NonZero, s.p, r));
      (forall p :: p in r.Area() ==> ReadBetween(NonZero, RemoveFirst, s', run, 0, |run|, p))
      <==> (ContainsRectangle(s.p.region, r.rect) == OUT || r.Area() <= s.p.region + Held(s))
  {
    var s' := s.(p := Push(NonZero, s.p, r));
    UnremovedAreas(s);
    forall p | p in r.Area()
      ensures ReadBetween(NonZero, RemoveFirst, s', run, 0, |run|, p) <==> p in Owed(s')
    {
      DrainReadsOwed(NonZero, s', run, |run|, p);
    }
    assert (s.p.queue + [r])[..|s.p.queue|] == s.p.queue;
    assert Owed(s) == s.p.region + Held(s);
  }

  /** Step `n` is a notice of `p` that is accepted. */
  ghost predicate AcceptsAt(t: DiscardTest, run: seq<Action>, n: nat, p: Point)
    requires n < |run| && IsRun(t, RemoveFirst, START, run)
  {
    run[n].Notify? && p in run[n].r.Area() && Accepts(t, At(t, RemoveFirst, START, run, n).p, run[n].r)
  }

  ghost predicate AcceptedBetween(t: DiscardTest, run: seq<Action>, i: int, n: nat, p: Point)
    requires n <= |run| && IsRun(t, RemoveFirst, START, run)
  {
    exists j: nat :: i <= j < n && AcceptsAt(t, run, j, p)
  }

  lemma AcceptedBetweenStep(t: DiscardTest, run: seq<Action>, i: nat, n: nat, p: Point)
    requires i <= n < |run| && IsRun(t, RemoveFirst, START, run)
    ensures AcceptedBetween(t, run, i, n + 1, p) <==> AcceptedBetween(t, run, i, n, p) || AcceptsAt(t, run, n, p)
  {
    if AcceptedBetween(t, run, i, n, p) {
      var j: nat :| i <= j < n && AcceptsAt(t, run, j, p);
      assert j < n + 1;
    }
  }

  /** A pixel is owed after a step, or read by it, exactly when it was owed before or
      the step is a notice of it that is accepted. */
  lemma OwedExactStep(t: DiscardTest, s: State, a: Action, p: Point)
    requires Sound(s) && Step(t, RemoveFirst, s, a).Some?
    ensures p in Owed(Step(t, RemoveFirst, s, a).value) || (a.Read? && p in Held(s)) <==>
      p in Owed(s) || (a.Notify? && p in a.r.Area() && Accepts(t, s.p, a.r))
  {
    if a.Notify? {
      if Accepts(t, s.p, a.r) {
        AreasAppend(s.p.queue, a.r);
      }
    } else {
      DrainStep(t, s, a, p);
    }
  }

  lemma OwedExactAt(t: DiscardTest, run: seq<Action>, n: nat, p: Point)
    requires n < |run| && IsRun(t, RemoveFirst, START, run)
    ensures p in Owed(At(t, RemoveFirst, START, run, n + 1)) || ReadsAt(t, RemoveFirst, START, run, n, p) <==>
      p in Owed(At(t, RemoveFirst, START, run, n)) || AcceptsAt(t, run, n, p)
  {
    AtStep(t, RemoveFirst, START, run, n);
    RegionInvariant(t, run[..n]);
    OwedExactStep(t, At(t, RemoveFirst, START, run, n), run[n], p);
  }

  lemma {:induction false} OwedExactly(t: DiscardTest, run: seq<Action>, i: nat, n: nat, p: Point)
    requires i <= n <= |run| && IsRun(t, RemoveFirst, START, run)
    ensures p in Owed(At(t, RemoveFirst, START, run, n)) || ReadBetween(t, RemoveFirst, START, run, i, n, p) <==>
      p in Owed(At(t, RemoveFirst, START, run, i)) || AcceptedBetween(t, run, i, n, p)
  {
    if i == n {
    } else {
      var m := n - 1;
      OwedExactly(t, run, i, m, p);
      OwedExactAt(t, run, m, p);
      ReadBetweenStep(t, RemoveFirst, START, run, i, m, p);
      AcceptedBetweenStep(t, run, i, m, p);
      assert ReadBetween(t, RemoveFirst, START, run, i, n, p) <==>
        ReadBetween(t, RemoveFirst, START, run, i, m, p) || ReadsAt(t, RemoveFirst, START, run, m, p);
      assert AcceptedBetween(t, run, i, n, p) <==> AcceptedBetween(t, run, i, m, p) || AcceptsAt(t, run, m, p);
      assert p in Owed(At(t, RemoveFirst, START, run, n)) || ReadsAt(t, RemoveFirst, START, run, m, p) <==>
        p in Owed(At(t, RemoveFirst, START, run, m)) || AcceptsAt(t, run, m, p);
    }
  }

  /** With the test as written the owed pixels after a notice are those of the region
      and of the report in hand, and those of the notice if it was accepted. */
  lemma OwedAfterNotice(s: State, r: Report, p: Point)
    requires Exact(s) && p in r.Area()
    ensures p in Owed(s.(p := Push(NonZero, s.p, r))) <==>
      Accepts(NonZero, s.p, r) || p in s.p.region + Held(s)
  {
    UnremovedAreas(s);
    assert Owed(s) == s.p.region + Held(s);
    if Accepts(NonZero, s.p, r) {
      AreasAppend(s.p.queue, r);
    }
  }

  /** Exactly which notified pixels are read: in a run that ends idle, with any notices
      before and after, a pixel of a notice is read after it exactly when the notice
      is accepted, or the pixel lies in the region or in the report in hand, or a
      later notice of the pixel is accepted. */
  lemma PixelReadIff(run: seq<Action>, i: nat, p: Point)
    requires i < |run| && IsRun(NonZero, RemoveFirst, START, run)
    requires Idle(At(NonZero, RemoveFirst, START, run, |run|))
    requires run[i].Notify? && p in run[i].r.Area()
    ensures var before := At(NonZero, RemoveFirst, START, run, i);
      ReadBetween(NonZero, RemoveFirst, START, run, i + 1, |run|, p) <==>
        Accepts(NonZero, before.p, run[i].r) || p in before.p.region + Held(before) ||
        AcceptedBetween(NonZero, run, i + 1, |run|, p)
  {
    var before := At(NonZero, RemoveFirst, START, run, i);
    AtStep(NonZero, RemoveFirst, START, run, i);
    RegionInvariant(NonZero, run[..i]);
    OwedAfterNotice(before, run[i].r, p);
    OwedExactly(NonZero, run, i + 1, |run|, p);
    assert Owed(At(NonZero, RemoveFirst, START, run, |run|)) == {};
  }

  /** Partial overlap really loses pixels: two overlapping notices, and the part
      of the second outside the first is never read. */
  lemma PartialOverlapLosesPixels()
    ensures exists run: seq<Action>, i: nat, p: Point ::
      && i < |run| && IsRun(NonZero, RemoveFirst, START, run)
      && Idle(At(NonZero, RemoveFirst, START, run, |run|))
      && run[i].Notify? && p in run[i].r.Area()
      && !ReadBetween(NonZero, RemoveFirst, START, run, 0, |run|, p)
  {
    var r, q := Report(Damage, Rect(0, 0, 2, 1)), Report(Damage, Rect(1, 0, 2, 1));
    var lost, shared := Point(2, 0), Point(1, 0);
    var run := [Notify(r), Notify(q), Pop, Remove, Read];
    var s1 := State(Pending([r], r.Area()), Empty);
    var s3 := State(Pending([], r.Area()), Holding(r, false, false));
    var s4 := State(Pending([], {}), Holding(r, true, false));
    assert shared in s1.p.region * q.rect.Pixels() && lost !in s1.p.region && lost in q.Area();
    assert {} + r.Area() == r.Area() && r.Area() - r.Area() == {};
    assert Push(NonZero, NOTHING, r) == s1.p && Push(NonZero, s1.p, q) == s1.p && [r][1..] == [];
    RunOf5(NonZero, RemoveFirst, START, run, s1, s1, s3, s4, START);
    assert Idle(At(NonZero, RemoveFirst, START, run, |run|));
    assert !ReadBetween(NonZero, RemoveFirst, START, run, 0, |run|, lost);
    assert run[1].Notify?;
  }

  /* ---------- which notices are queued, and in which order ---------- */

  /** The test as written queues every report without an area, and one with an area
      exactly when no pixel of it is pending; the containment test, exactly when some
      pixel of it is not, or it has none. */
  lemma AcceptsIff(p: Pending, r: Report)
    ensures Accepts(NonZero, p, r) <==> r.IsArea() ==> forall q :: q in r.rect.Pixels() ==> q !in p.region
    ensures Accepts(Contained, p, r) <==>
      (r.IsArea() && r.rect.Pixels() != {} ==> exists q :: q in r.rect.Pixels() && q !in p.region)
  {
    var both := p.region * r.rect.Pixels();
    if both == {} {
      forall q | q in r.rect.Pixels()
        ensures q !in p.region
      {
        assert q in p.region ==> q in both;
      }
      if r.rect.Pixels() != {} {
        var q :| q in r.rect.Pixels();
      }
    } else {
      var q :| q in both;
    }
  }

  /** What a step adds to the queue, and what it takes from it. */
  function Added(t: DiscardTest, s: State, a: Action): seq<Report> {
    if a.Notify? && Accepts(t, s.p, a.r) then [a.r] else []
  }

  function Taken(s: State, a: Action): seq<Report> {
    if a.Pop? && s.p.queue != [] then [s.p.queue[0]] else []
  }

  function AddedReports(t: DiscardTest, s: State, run: seq<Action>): seq<Report> {
    if run == [] then []
    else
      var before := After(t, RemoveFirst, s, run[..|run| - 1]);
      AddedReports(t, s, run[..|run| - 1]) + (if before.Some? then Added(t, before.value, run[|run| - 1]) else [])
  }

  function TakenReports(t: DiscardTest, s: State, run: seq<Action>): seq<Report> {
    if run == [] then []
    else
      var before := After(t, RemoveFirst, s, run[..|run| - 1]);
      TakenReports(t, s, run[..|run| - 1]) + (if before.Some? then Taken(before.value, run[|run| - 1]) else [])
  }

  /** Reports are popped in the order in which their notices came, and none is skipped. */
  lemma {:induction false} FirstInFirstOut(t: DiscardTest, s: State, run: seq<Action>)
    requires After(t, RemoveFirst, s, run).Some?
    ensures TakenReports(t, s, run) + After(t, RemoveFirst, s, run).value.p.queue ==
      s.p.queue + AddedReports(t, s, run)
  {
    if run == [] {
      assert [] + s.p.queue == s.p.queue + [];
    } else {
      var before, a := run[..|run| - 1], run[|run| - 1];
      var u := After(t, RemoveFirst, s, before).value;
      FirstInFirstOut(t, s, before);
      QueueStep(t, u, a);
      QueueKeepsOrder(TakenReports(t, s, before), u.p.queue, s.p.queue, AddedReports(t, s, before),
        Taken(u, a), Step(t, RemoveFirst, u, a).value.p.queue, Added(t, u, a));
    }
  }

  lemma QueueStep(t: DiscardTest, s: State, a: Action)
    requires Step(t, RemoveFirst, s, a).Some?
    ensures s.p.queue + Added(t, s, a) == Taken(s, a) + Step(t, RemoveFirst, s, a).value.p.queue
  {
  }

  /** The scanner thread's turn: with an area report first it can only pop it, then only
      take it out of the region, and then only read it. */
  lemma ScannerTurn(t: DiscardTest, s: State)
    requires s.hand == Empty && s.p.queue != [] && s.p.queue[0].IsArea()
    ensures var r := s.p.queue[0]; var o := RemoveFirst;
      var s1 := State(s.p.(queue := s.p.queue[1..]), Holding(r, false, false));
      var s2 := State(Pending(s.p.queue[1..], s.p.region - r.rect.Pixels()), Holding(r, true, false));
      && Step(t, o, s, Pop) == Some(s1) && Step(t, o, s, Remove) == None && Step(t, o, s, Read) == None
      && Step(t, o, s1, Remove) == Some(s2) && Step(t, o, s1, Pop) == None && Step(t, o, s1, Read) == None
      && Step(t, o, s2, Read) == Some(State(s2.p, Empty)) && Step(t, o, s2, Pop) == None
      && Step(t, o, s2, Remove) == None
  {
  }
}
