/** One iteration of the scanner loop against an unchanging screen. */
module ScanLoop {
  import opened Arithmetic
  import opened Geometry
  import opened Tiles
  import opened Reports
  import opened Display
  import opened Pending
  import opened Scanner
  import opened Coverage

  ghost predicate Fits(s: ScanState, screen: Frame, w: int, h: int) {
    && 0 < w && 0 < h && Sized(s.shadow, w, h) && Sized(screen, w, h)
    && 0 <= s.current < NUM_SCANLINES
  }

  /* ---------- runs against an unchanging screen ---------- */

  function LineAnswers(screen: Frame, offset: int, w: int, h: int): (lines: seq<Option<seq<Pixel>>>)
    requires 0 < h && Sized(screen, w, h) && 0 <= offset
    ensures LinesFit(lines, w, h) && LinesRead(lines, offset, h)
  {
    seq(VerticalTiles(h), i requires 0 <= i < VerticalTiles(h) =>
      if ExaminedLine(offset, i) < h then Some(screen[ExaminedLine(offset, i)]) else None)
  }

  /** The answers of the X server when every read succeeds; a rectangle that is
      not on the screen cannot be read. */
  function Seen(s: ScanState, screen: Frame, w: int, h: int): World
    requires 0 < h && Sized(screen, w, h) && 0 <= s.current < NUM_SCANLINES
  {
    var queue := s.pending.queue;
    World(LineAnswers(screen, SCANLINES[s.current], w, h), Whole(screen),
      if queue != [] && queue[0].rect.Within(w, h) then Some(Crop(screen, queue[0].rect, w, h)) else None)
  }

  /** One iteration of the scanner loop while the screen shows `screen`. */
  ghost function Tick(s: ScanState, screen: Frame, w: int, h: int): (t: ScanState)
    requires Fits(s, screen, w, h)
    ensures Fits(t, screen, w, h)
  {
    var queue := s.pending.queue;
    if queue == [] then PeriodicStep(s, LineAnswers(screen, SCANLINES[s.current], w, h), w, h)
    else
      var popped := s.(pending := s.pending.(queue := queue[1..]));
      match queue[0].kind
      case Exit => popped
      case Fullscreen => WholeStep(popped, Whole(screen), w, h)
      case _ =>
        ScanState(if queue[0].rect.Within(w, h) then Refreshed(s.shadow, queue[0].rect, screen, w, h) else s.shadow,
          s.current, Pending(queue[1..], s.pending.region - queue[0].Area()))
  }

  /** It is the scanner's iteration on the answers seen. */
  lemma TickIsRunStep(s: ScanState, screen: Frame, w: int, h: int)
    requires Fits(s, screen, w, h)
    ensures WorldFits(Seen(s, screen, w, h), s, w, h)
    ensures Tick(s, screen, w, h) == RunStep(s, Seen(s, screen, w, h), w, h)
  {
    var queue := s.pending.queue;
    if queue != [] && queue[0].rect.Within(w, h) {
      PastedCrop(s.shadow, queue[0].rect, screen, w, h);
    }
  }

  /** With a fixed rate, where every idle iteration reads the whole screen, one that
      succeeds makes the shadow equal the screen, for every size. */
  lemma ScreenPushed(s: ScanState, screen: Frame, w: int, h: int)
    requires Fits(s, screen, w, h)
    ensures var r := Rect(0, 0, w, h);
      HandleStep(s, r, Some(Crop(screen, r, w, h)), w, h) == s.(shadow := screen)
  {
    var r := Rect(0, 0, w, h);
    PastedCrop(s.shadow, r, screen, w, h);
    forall y | 0 <= y < h
      ensures Refreshed(s.shadow, r, screen, w, h)[y] == screen[y]
    {
      assert RefreshedLine(s.shadow[y], y, r, screen[y]) == screen[y];
    }
    assert Refreshed(s.shadow, r, screen, w, h) == screen;
  }

  /** The shadow shows the screen at pixel (x, y). */
  predicate Same(s: ScanState, screen: Frame, x: int, y: int)
    requires |s.shadow| == |screen| && 0 <= y < |screen| && |s.shadow[y]| == |screen[y]| && 0 <= x < |screen[y]|
  {
    s.shadow[y][x] == screen[y][x]
  }

  ghost predicate KeepsSame(s: ScanState, t: ScanState, screen: Frame, w: int, h: int)
    requires Fits(s, screen, w, h) && Fits(t, screen, w, h)
  {
    forall x, y :: 0 <= x < w && 0 <= y < h && Same(s, screen, x, y) ==> Same(t, screen, x, y)
  }

  /** A pixel that shows the screen keeps showing it, whatever is queued. */
  lemma TickKeepsSame(s: ScanState, screen: Frame, w: int, h: int)
    requires Fits(s, screen, w, h)
    ensures KeepsSame(s, Tick(s, screen, w, h), screen, w, h)
  {
  }

  /** Only area reports are queued, they are disjoint, and the region is their union. */
  ghost predicate AreasPending(p: Pending) {
    && (forall k :: 0 <= k < |p.queue| ==> p.queue[k].IsArea())
    && DisjointReports(p.queue) && p.region == Areas(p.queue)
  }

  lemma KeepsSameTrans(s: ScanState, u: ScanState, t: ScanState, screen: Frame, w: int, h: int)
    requires Fits(s, screen, w, h) && Fits(u, screen, w, h) && Fits(t, screen, w, h)
    requires KeepsSame(s, u, screen, w, h) && KeepsSame(u, t, screen, w, h)
    ensures KeepsSame(s, t, screen, w, h)
  {
  }

  ghost predicate AreaSame(s: ScanState, screen: Frame, w: int, h: int, r: Rect)
    requires Fits(s, screen, w, h)
  {
    forall x, y :: 0 <= x < w && 0 <= y < h && r.Contains(Point(x, y)) ==> Same(s, screen, x, y)
  }

  /* ---------- what a periodic scan pushes ---------- */

  /** Two blocks that are apart have disjoint rectangles, unless the screen is so
      narrow that tiles have no width of their own. */
  lemma RectsDisjoint(a: Span, b: Span, w: int, h: int)
    requires 0 < w && 0 < h && OnGrid(a, h) && OnGrid(b, h) && Apart(a, b)
    requires w >= 32 || (a.c1 == 31 && b.c1 == 31)
    ensures TileRect(a, w, h).Pixels() !! TileRect(b, w, h).Pixels()
  {
    TileRectBounds(a, w, h);
    TileRectBounds(b, w, h);
    if a.r0 == a.r1 == b.r0 == b.r1 {
      var l, r := if a.c1 < b.c0 then a else b, if a.c1 < b.c0 then b else a;
      if l.c1 + 1 < r.c0 {
        ShareGap(l.c1 + 1, w);
        ShareMonotone(l.c1 + 2, r.c0, w);
      }
    }
  }

  lemma ShareGap(k: int, w: int)
    requires w >= 32
    ensures Share(k, w) + 1 <= Share(k + 1, w)
  {
    assert (k + 1) * w == k * w + w;
  }

  ghost function TileReports(bs: seq<Span>, w: int, h: int): seq<Report> {
    seq(|bs|, k requires 0 <= k < |bs| => TileReport(bs[k], w, h))
  }

  ghost predicate DisjointRects(bs: seq<Span>, w: int, h: int) {
    forall i, j :: 0 <= i < j < |bs| ==> TileRect(bs[i], w, h).Pixels() !! TileRect(bs[j], w, h).Pixels()
  }

  lemma {:induction false} TileReportsAreas(bs: seq<Span>, w: int, h: int, r: Rect)
    requires forall b :: b in bs ==> TileRect(b, w, h).Pixels() !! r.Pixels()
    ensures Areas(TileReports(bs, w, h)) !! r.Pixels()
  {
    var rs := TileReports(bs, w, h);
    forall q | q in Areas(rs)
      ensures q !in r.Pixels()
    {
      var k :| 0 <= k < |rs| && q in rs[k].Area();
      assert bs[k] in bs;
    }
  }

  lemma DisjointPrefix(bs: seq<Span>, w: int, h: int)
    requires bs != [] && DisjointRects(bs, w, h)
    ensures var n := |bs| - 1;
      DisjointRects(bs[..n], w, h) &&
      forall b :: b in bs[..n] ==> TileRect(b, w, h).Pixels() !! TileRect(bs[n], w, h).Pixels()
  {
  }

  /** Disjoint rectangles pushed on an empty queue are all accepted. */
  lemma {:induction false} AllAccepted(bs: seq<Span>, w: int, h: int)
    requires DisjointRects(bs, w, h)
    ensures PushSpans(NOTHING, bs, w, h) == Pending(TileReports(bs, w, h), Areas(TileReports(bs, w, h)))
    ensures DisjointReports(TileReports(bs, w, h))
  {
    if bs == [] {
      assert TileReports(bs, w, h) == [];
    } else {
      var n := |bs| - 1;
      var before := bs[..n];
      DisjointPrefix(bs, w, h);
      AllAccepted(before, w, h);
      TileReportsAreas(before, w, h, TileRect(bs[n], w, h));
      AcceptedLast(PushSpans(NOTHING, before, w, h), TileReport(bs[n], w, h));
      assert TileReports(bs, w, h) == TileReports(before, w, h) + [TileReport(bs[n], w, h)];
    }
  }

  lemma AcceptedLast(p: Pending, r: Report)
    requires p.region == Areas(p.queue) && DisjointReports(p.queue) && r.IsArea() && p.region !! r.rect.Pixels()
    ensures Push(NonZero, p, r) == Pending(p.queue + [r], Areas(p.queue + [r]))
    ensures DisjointReports(p.queue + [r])
  {
    assert p.region * r.rect.Pixels() == {};
    AcceptExact(p.queue, p, r);
  }

  lemma NarrowScan(shadow: Frame, lines: seq<Option<seq<Pixel>>>, offset: int, w: int, h: int)
    requires 0 < w < 32 && 0 < h && Sized(shadow, w, h) && LinesFit(lines, w, h) && 0 <= offset
    ensures forall b :: b in PeriodicSpans(shadow, lines, offset, w, h) ==> b.c1 == 31
  {
    var rows := PeriodicRows(shadow, lines, offset, w, h);
    var counts := SetCounts(rows);
    var gc, gr := GrownCounts(counts, rows), GrownRows(counts, rows);
    forall i, j | 0 <= i < |rows| && 0 <= j < 31
      ensures !rows[i][j]
    {
      if ExaminedLine(offset, i) < h && lines[i].Some? {
        DiffExact(shadow[ExaminedLine(offset, i)], lines[i].value, j);
      }
    }
    TileSpansExact(gc, gr);
    forall b | b in TileSpans(gc, gr)
      ensures b.c1 == 31
    {
      assert IsMaximalSpan(gc, gr, b);
      assert 0 <= b.r0 < |gr| && 0 <= b.c1 <= 31;
      var last := gr[b.r0][b.c1];
      assert b.c1 < 31 ==> !last;
    }
  }

  lemma PeriodicDisjoint(shadow: Frame, lines: seq<Option<seq<Pixel>>>, offset: int, w: int, h: int)
    requires 0 < w && 0 < h && Sized(shadow, w, h) && LinesFit(lines, w, h) && 0 <= offset
    ensures DisjointRects(PeriodicSpans(shadow, lines, offset, w, h), w, h)
    ensures forall b :: b in PeriodicSpans(shadow, lines, offset, w, h) ==> TileRect(b, w, h).Within(w, h)
  {
    var bs := PeriodicSpans(shadow, lines, offset, w, h);
    var rows := PeriodicRows(shadow, lines, offset, w, h);
    SpansOnGrid(SetCounts(rows), rows, h);
    if w < 32 {
      NarrowScan(shadow, lines, offset, w, h);
    }
    forall i, j | 0 <= i < j < |bs|
      ensures TileRect(bs[i], w, h).Pixels() !! TileRect(bs[j], w, h).Pixels()
    {
      assert bs[i] in bs && bs[j] in bs;
      RectsDisjoint(bs[i], bs[j], w, h);
    }
    forall b | b in bs
      ensures TileRect(b, w, h).Within(w, h)
    {
      TileRectBounds(b, w, h);
    }
  }

  /* ---------- progress of one iteration ---------- */

  /** The entry of the scan line pattern after `current`. */
  function NextEntry(current: int): int {
    if current == NUM_SCANLINES - 1 then 0 else current + 1
  }

  /** What every iteration achieves: pixels that show the screen keep showing it;
      a queued area is taken off and shown; an idle scanner queues disjoint areas
      that hold every wrong pixel of the lines it examines, those at the current
      entry of the scan line pattern. */
  ghost predicate Progress(pattern: seq<int>, s: ScanState, t: ScanState, screen: Frame, w: int, h: int)
    requires Fits(s, screen, w, h) && |pattern| == NUM_SCANLINES
  {
    && Fits(t, screen, w, h)
    && KeepsSame(s, t, screen, w, h)
    && TakesArea(s, t, screen, w, h)
    && (s.pending == NOTHING ==> QueuesWrong(pattern[s.current], s, t, screen, w, h))
  }

  ghost predicate TakesArea(s: ScanState, t: ScanState, screen: Frame, w: int, h: int)
    requires Fits(s, screen, w, h) && Fits(t, screen, w, h)
  {
    var queue := s.pending.queue;
    queue != [] && queue[0].IsArea() ==>
      && t.current == s.current
      && t.pending == Pending(queue[1..], s.pending.region - queue[0].Area())
      && (queue[0].rect.Within(w, h) ==> AreaSame(t, screen, w, h, queue[0].rect))
  }

  ghost predicate Queued(p: Pending, w: int, h: int, x: int, y: int) {
    exists k :: 0 <= k < |p.queue| && p.queue[k].rect.Within(w, h) && p.queue[k].rect.Contains(Point(x, y))
  }

  ghost predicate QueuesWrong(offset: int, s: ScanState, t: ScanState, screen: Frame, w: int, h: int)
    requires Fits(s, screen, w, h)
  {
    && t.current == NextEntry(s.current)
    && AreasPending(t.pending)
    && (w % 32 <= 1 ==> DifferencesQueued(t.pending, s.shadow, screen, offset, w, h))
  }

  /** Every pixel of a line at `offset` that differs is queued. */
  ghost predicate DifferencesQueued(p: Pending, shadow: Frame, screen: Frame, offset: int, w: int, h: int)
    requires Sized(shadow, w, h) && Sized(screen, w, h)
  {
    forall x, y :: 0 <= x < w && 0 <= y < h && y % 32 == offset && shadow[y][x] != screen[y][x] ==>
      Queued(p, w, h, x, y)
  }

  ghost function IdleSpans(s: ScanState, screen: Frame, w: int, h: int): seq<Span>
    requires Fits(s, screen, w, h)
  {
    var offset := SCANLINES[s.current];
    PeriodicSpans(s.shadow, LineAnswers(screen, offset, w, h), offset, w, h)
  }

  lemma IdleTick(s: ScanState, screen: Frame, w: int, h: int)
    requires Fits(s, screen, w, h) && s.pending == NOTHING
    ensures Tick(s, screen, w, h).pending == PushSpans(NOTHING, IdleSpans(s, screen, w, h), w, h)
    ensures Tick(s, screen, w, h).current == NextEntry(s.current)
  {
    var t := PeriodicStep(s, LineAnswers(screen, SCANLINES[s.current], w, h), w, h);
    assert Tick(s, screen, w, h) == t;
    NextModulo32(s.current);
  }

  lemma IdleAccepted(s: ScanState, screen: Frame, w: int, h: int)
    requires Fits(s, screen, w, h)
    ensures var p := PushSpans(NOTHING, IdleSpans(s, screen, w, h), w, h);
      p.queue == TileReports(IdleSpans(s, screen, w, h), w, h) && AreasPending(p)
    ensures forall b :: b in IdleSpans(s, screen, w, h) ==> TileRect(b, w, h).Within(w, h)
  {
    var offset := SCANLINES[s.current];
    PeriodicDisjoint(s.shadow, LineAnswers(screen, offset, w, h), offset, w, h);
    AllAccepted(IdleSpans(s, screen, w, h), w, h);
  }

  lemma IdleQueued(s: ScanState, screen: Frame, w: int, h: int)
    requires Fits(s, screen, w, h) && w % 32 <= 1
    ensures DifferencesQueued(PushSpans(NOTHING, IdleSpans(s, screen, w, h), w, h), s.shadow, screen,
      SCANLINES[s.current], w, h)
  {
    var offset, bs := SCANLINES[s.current], IdleSpans(s, screen, w, h);
    IdleAccepted(s, screen, w, h);
    forall x, y | 0 <= x < w && 0 <= y < h && y % 32 == offset && s.shadow[y][x] != screen[y][x]
      ensures Queued(PushSpans(NOTHING, bs, w, h), w, h, x, y)
    {
      IdleReported(s.shadow, screen, offset, w, h, x, y);
      ReportedIsQueued(bs, PushSpans(NOTHING, bs, w, h), w, h, x, y);
    }
  }

  lemma IdleReported(shadow: Frame, screen: Frame, offset: int, w: int, h: int, x: int, y: int)
    requires 0 < w && 0 < h && Sized(shadow, w, h) && Sized(screen, w, h) && w % 32 <= 1
    requires 0 <= x < w && 0 <= y < h && y % 32 == offset && shadow[y][x] != screen[y][x]
    ensures PixelReported(PeriodicSpans(shadow, LineAnswers(screen, offset, w, h), offset, w, h), w, h, Point(x, y))
  {
    PeriodicCoverage(shadow, LineAnswers(screen, offset, w, h), offset, w, h, y / 32, x);
  }

  lemma ReportedIsQueued(bs: seq<Span>, p: Pending, w: int, h: int, x: int, y: int)
    requires p.queue == TileReports(bs, w, h)
    requires forall b :: b in bs ==> TileRect(b, w, h).Within(w, h)
    requires PixelReported(bs, w, h, Point(x, y))
    ensures Queued(p, w, h, x, y)
  {
    var b :| b in bs && TileRect(b, w, h).Contains(Point(x, y));
    var k :| 0 <= k < |bs| && bs[k] == b;
    assert p.queue[k].rect == TileRect(b, w, h);
  }

  lemma TickTakesArea(s: ScanState, screen: Frame, w: int, h: int)
    requires Fits(s, screen, w, h)
    ensures TakesArea(s, Tick(s, screen, w, h), screen, w, h)
  {
  }

  lemma TickQueuesWrong(s: ScanState, screen: Frame, w: int, h: int)
    requires Fits(s, screen, w, h) && s.pending == NOTHING
    ensures QueuesWrong(SCANLINES[s.current], s, Tick(s, screen, w, h), screen, w, h)
  {
    IdleTick(s, screen, w, h);
    IdleAccepted(s, screen, w, h);
    if w % 32 <= 1 {
      IdleQueued(s, screen, w, h);
    }
  }

  lemma TickProgress(s: ScanState, screen: Frame, w: int, h: int)
    requires Fits(s, screen, w, h)
    ensures Progress(SCANLINES, s, Tick(s, screen, w, h), screen, w, h)
  {
    TickKeepsSame(s, screen, w, h);
    TickTakesArea(s, screen, w, h);
    if s.pending == NOTHING {
      TickQueuesWrong(s, screen, w, h);
    }
  }

  /* ---------- widths where one pixel is never repaired ---------- */

  /** Only pixel `p` is wrong and nothing queued contains it. */
  ghost predicate Stuck(s: ScanState, screen: Frame, w: int, h: int, p: Point)
    requires Fits(s, screen, w, h)
  {
    && DifferOnlyAt(s.shadow, screen, w, h, p)
    && Avoids(s.pending.queue, p)
  }

  ghost predicate Avoids(queue: seq<Report>, p: Point) {
    forall k :: 0 <= k < |queue| ==> queue[k].IsArea() && !queue[k].rect.Contains(p)
  }

  lemma {:induction false} PushedAvoid(q: Pending, bs: seq<Span>, w: int, h: int, p: Point)
    requires Avoids(q.queue, p)
    requires forall b :: b in bs ==> !TileRect(b, w, h).Contains(p)
    ensures Avoids(PushSpans(q, bs, w, h).queue, p)
  {
    if bs == [] {
    } else {
      var before := bs[..|bs| - 1];
      assert forall b :: b in before ==> b in bs;
      PushedAvoid(q, before, w, h, p);
      assert bs[|bs| - 1] in bs;
      PushAvoids(PushSpans(q, before, w, h), TileReport(bs[|bs| - 1], w, h), p);
    }
  }

  lemma PushAvoids(q: Pending, r: Report, p: Point)
    requires Avoids(q.queue, p) && r.IsArea() && !r.rect.Contains(p)
    ensures Avoids(Push(NonZero, q, r).queue, p)
  {
  }

  lemma StuckIdle(s: ScanState, screen: Frame, w: int, h: int)
    requires Fits(s, screen, w, h) && w % 32 >= 2 && Stuck(s, screen, w, h, Point(DiffCut(w, 31), 0))
    requires s.pending.queue == []
    ensures var offset := SCANLINES[s.current];
      var bs := PeriodicSpans(s.shadow, LineAnswers(screen, offset, w, h), offset, w, h);
      Avoids(PushSpans(s.pending, bs, w, h).queue, Point(DiffCut(w, 31), 0))
  {
    var offset := SCANLINES[s.current];
    NeverReported(s.shadow, screen, offset, w, h);
    PushedAvoid(s.pending, PeriodicSpans(s.shadow, LineAnswers(screen, offset, w, h), offset, w, h), w, h,
      Point(DiffCut(w, 31), 0));
  }

  lemma OnePixelCounts(f: Frame, screen: Frame, offset: int, w: int, h: int, p: Point)
    requires 0 < w && 0 < h && Sized(f, w, h) && Sized(screen, w, h) && 0 <= offset < NUM_SCANLINES
    requires 0 <= p.x < w && p.y == 0 && DifferOnlyAt(f, screen, w, h, p)
    ensures var rows := PeriodicRows(f, LineAnswers(screen, offset, w, h), offset, w, h);
      forall i :: 0 <= i < |rows| ==> SetCount(rows[i]) == if offset == 0 && i == 0 then 1 else 0
  {
    var lines := LineAnswers(screen, offset, w, h);
    SetCountZero(NO_TILES);
    forall i | 0 <= i < VerticalTiles(h)
      ensures SetCount(PeriodicRow(f, lines, offset, w, h, i)) == if offset == 0 && i == 0 then 1 else 0
    {
      if ExaminedLine(offset, i) < h {
        OnePixelLine(f, screen, w, h, p, ExaminedLine(offset, i));
      }
    }
  }

  /** If only the first pixel of the last tile column of the top line changed,
      no periodic scan reports it. */
  lemma NeverReported(f: Frame, screen: Frame, offset: int, w: int, h: int)
    requires 0 < w && 0 < h && w % 32 >= 2 && Sized(f, w, h) && Sized(screen, w, h) && 0 <= offset < NUM_SCANLINES
    requires DifferOnlyAt(f, screen, w, h, Point(DiffCut(w, 31), 0))
    ensures !PixelReported(PeriodicSpans(f, LineAnswers(screen, offset, w, h), offset, w, h), w, h,
      Point(DiffCut(w, 31), 0))
  {
    var p := Point(DiffCut(w, 31), 0);
    LastShareIsLate(w);
    OnePixelCounts(f, screen, offset, w, h, p);
    var rows := PeriodicRows(f, LineAnswers(screen, offset, w, h), offset, w, h);
    if offset == 0 {
      OnePixelLine(f, screen, w, h, p, 0);
      assert rows[0] == Diff(f[0], screen[0]);
      SingleTileReport(SetCounts(rows), rows, 0, 31);
      TileRectBounds(Span(0, 31, 0, 31), w, h);
    } else {
      NothingToPush(SetCounts(rows), rows);
    }
  }

  lemma StuckTick(s: ScanState, screen: Frame, w: int, h: int)
    requires Fits(s, screen, w, h) && w % 32 >= 2 && Stuck(s, screen, w, h, Point(DiffCut(w, 31), 0))
    ensures Stuck(Tick(s, screen, w, h), screen, w, h, Point(DiffCut(w, 31), 0))
  {
    if s.pending.queue == [] {
      StuckIdle(s, screen, w, h);
    } else {
      StuckArea(s, screen, w, h, Point(DiffCut(w, 31), 0));
    }
  }

  lemma StuckArea(s: ScanState, screen: Frame, w: int, h: int, p: Point)
    requires Fits(s, screen, w, h) && Stuck(s, screen, w, h, p) && s.pending.queue != []
    ensures Stuck(Tick(s, screen, w, h), screen, w, h, p)
  {
    var queue, t := s.pending.queue, Tick(s, screen, w, h);
    forall k | 0 <= k < |t.pending.queue|
      ensures t.pending.queue[k] == queue[k + 1]
    {
    }
  }
}
