/** What one iteration of the scanner loop does, in each of its cases, in terms of pixels,
    tiles and reports. */
module ScanMeaning {
  import opened Geometry
  import opened Tiles
  import opened Reports
  import opened Display
  import opened Pending
  import opened Scanner
  import opened Coverage
  import opened ScanLoop
  import opened TileMeaning

  ghost predicate Runs(s: ScanState, world: World, w: int, h: int) {
    0 < w && 0 < h && Sized(s.shadow, w, h) && 0 <= s.current < NUM_SCANLINES && WorldFits(world, s, w, h)
  }

  ghost predicate TileReported(bs: seq<Span>, i: int, j: int) {
    exists b :: b in bs && b.Covers(i, j)
  }

  /** The blocks lie on the grid and are apart. */
  ghost predicate GoodBlocks(bs: seq<Span>, h: int) {
    AllApart(bs) && forall b :: b in bs ==> OnGrid(b, h)
  }

  /* ---------- the idle iteration ---------- */

  /** Which line of each row of tiles the next periodic scan examines. */
  function Offset(current: int): (offset: int)
    requires 0 <= current < NUM_SCANLINES
    ensures 0 <= offset < 32
  {
    SCANLINES[current]
  }

  /** Tile `j` of row `i` differs between the shadow and the line read. */
  ghost predicate LineDiffers(s: ScanState, world: World, w: int, h: int, i: int, j: int)
    requires Runs(s, world, w, h) && 0 <= i < VerticalTiles(h) && 0 <= j < NUM_HORIZONTAL_TILES
  {
    var y := Offset(s.current) + 32 * i;
    y < h && world.lines[i].Some? &&
    exists x :: 0 <= DiffCut(w, j) <= x < DiffCut(w, j + 1) <= w && s.shadow[y][x] != world.lines[i].value[x]
  }

  /** `m` are the tiles of row `i` in which the examined line differs. */
  ghost predicate LineMarks(m: TileRow, s: ScanState, world: World, w: int, h: int, i: int)
    requires Runs(s, world, w, h) && 0 <= i < VerticalTiles(h)
  {
    forall j :: 0 <= j < NUM_HORIZONTAL_TILES ==> (m[j] <==> LineDiffers(s, world, w, h, i, j))
  }

  lemma LineMarksIs(m: TileRow, s: ScanState, world: World, w: int, h: int, i: int)
    requires Runs(s, world, w, h) && 0 <= i < VerticalTiles(h) && LineMarks(m, s, world, w, h, i)
    ensures m == PeriodicRow(s.shadow, world.lines, Offset(s.current), w, h, i)
  {
    var offset := Offset(s.current);
    var row := PeriodicRow(s.shadow, world.lines, offset, w, h, i);
    forall j | 0 <= j < NUM_HORIZONTAL_TILES
      ensures m[j] == row[j]
    {
      DiffCutStep(w, j);
      if offset + 32 * i < h && world.lines[i].Some? {
        DiffExact(s.shadow[offset + 32 * i], world.lines[i].value, j);
      }
    }
  }

  /** Every examined line on the screen could be read. */
  predicate AllRead(s: ScanState, world: World, h: int)
    requires 0 <= s.current < NUM_SCANLINES && |world.lines| == VerticalTiles(h)
  {
    forall i :: 0 <= i < VerticalTiles(h) && Offset(s.current) + 32 * i < h ==> world.lines[i].Some?
  }

  /** With nothing queued the pattern advances, and if every examined line could be read
      the blocks found are pushed. */
  lemma IdleIteration(s: ScanState, world: World, w: int, h: int)
    requires Runs(s, world, w, h) && s.pending.queue == [] && AllRead(s, world, h)
    ensures var t := RunStep(s, world, w, h);
      var bs := PeriodicSpans(s.shadow, world.lines, Offset(s.current), w, h);
      && t.shadow == s.shadow && t.current == (s.current + 1) % 32 && t.pending == PushSpans(s.pending, bs, w, h)
      && GoodBlocks(bs, h)
  {
    PeriodicIteration(s, world.lines, Offset(s.current), w, h);
    PeriodicGoodBlocks(s.shadow, world.lines, Offset(s.current), w, h);
  }

  lemma PeriodicIteration(s: ScanState, lines: seq<Option<seq<Pixel>>>, offset: int, w: int, h: int)
    requires Sized(s.shadow, w, h) && LinesFit(lines, w, h) && 0 <= s.current < NUM_SCANLINES
    requires offset == Offset(s.current) && LinesRead(lines, offset, h)
    ensures PeriodicStep(s, lines, w, h)
      == ScanState(s.shadow, (s.current + 1) % 32,
                   PushSpans(s.pending, PeriodicSpans(s.shadow, lines, offset, w, h), w, h))
  {
  }

  lemma PeriodicGoodBlocks(shadow: Frame, lines: seq<Option<seq<Pixel>>>, offset: int, w: int, h: int)
    requires Sized(shadow, w, h) && LinesFit(lines, w, h) && 0 <= offset
    ensures GoodBlocks(PeriodicSpans(shadow, lines, offset, w, h), h)
  {
    var rows := PeriodicRows(shadow, lines, offset, w, h);
    SpansOnGrid(SetCounts(rows), rows, h);
  }

  /** If one could not be read the pattern advances and nothing else happens. */
  lemma IdleFailure(s: ScanState, world: World, w: int, h: int)
    requires Runs(s, world, w, h) && s.pending.queue == [] && !AllRead(s, world, h)
    ensures RunStep(s, world, w, h) == s.(current := (s.current + 1) % 32)
  {
    assert !LinesRead(world.lines, Offset(s.current), h);
  }

  /** These blocks cover exactly the tiles in the closure of the differing tiles of their
      row, and all tiles of a row whose closure is above the threshold. */
  lemma PeriodicSpansAre(s: ScanState, world: World, w: int, h: int, i: int, j: int, m: TileRow, c: TileRow)
    requires Runs(s, world, w, h) && 0 <= i < VerticalTiles(h) && 0 <= j < NUM_HORIZONTAL_TILES
    requires LineMarks(m, s, world, w, h, i) && IsClosure(m, c)
    ensures TileReported(PeriodicSpans(s.shadow, world.lines, Offset(s.current), w, h), i, j)
      <==> c[j] || SetCount(c) > 16
  {
    var rows := PeriodicRows(s.shadow, world.lines, Offset(s.current), w, h);
    PeriodicCounts(s.shadow, world.lines, Offset(s.current), w, h);
    LineMarksIs(m, s, world, w, h, i);
    ReportedTiles(SetCounts(rows), rows, i, j, c);
  }

  /* ---------- a full-screen request ---------- */

  /** Tile `j` of row `v` differs in some line that is compared in it. */
  ghost predicate AreaDiffers(f: Frame, g: Frame, w: int, h: int, v: int, j: int)
    requires Sized(f, w, h) && Sized(g, w, h) && 0 <= j < NUM_HORIZONTAL_TILES
  {
    exists x, y :: 0 <= y < h && Compared(v, h, y) && 0 <= DiffCut(w, j) <= x < DiffCut(w, j + 1) <= w &&
      f[y][x] != g[y][x]
  }

  ghost predicate AreaMarks(m: TileRow, f: Frame, g: Frame, w: int, h: int, v: int)
    requires Sized(f, w, h) && Sized(g, w, h)
  {
    forall j :: 0 <= j < NUM_HORIZONTAL_TILES ==> (m[j] <==> AreaDiffers(f, g, w, h, v, j))
  }

  lemma AreaMarksIs(m: TileRow, f: Frame, g: Frame, w: int, h: int, v: int)
    requires Sized(f, w, h) && Sized(g, w, h) && 0 <= w && 0 < h && 0 <= v < VerticalTiles(h)
    requires AreaMarks(m, f, g, w, h, v)
    ensures m == WholeRow(f, g, w, h, v)
  {
    var row := WholeRow(f, g, w, h, v);
    forall j | 0 <= j < NUM_HORIZONTAL_TILES
      ensures m[j] == row[j]
    {
      AreaDiffersIff(f, g, w, h, v, j);
    }
  }

  lemma AreaDiffersIff(f: Frame, g: Frame, w: int, h: int, v: int, j: int)
    requires Sized(f, w, h) && Sized(g, w, h) && 0 <= w && 0 < h && 0 <= v < VerticalTiles(h)
    requires 0 <= j < NUM_HORIZONTAL_TILES
    ensures AreaDiffers(f, g, w, h, v, j) <==> WholeRow(f, g, w, h, v)[j]
  {
    WholeRowMarks(f, g, w, h, v, j);
    DiffCutStep(w, j);
    if AreaDiffers(f, g, w, h, v, j) {
      var x, y :| 0 <= y < h && Compared(v, h, y) && DiffCut(w, j) <= x < DiffCut(w, j + 1) && f[y][x] != g[y][x];
      DiffExact(f[y], g[y], j);
      assert Diff(f[y], g[y])[j];
    }
    if WholeRow(f, g, w, h, v)[j] {
      var y :| 0 <= y < h && Compared(v, h, y) && Diff(f[y], g[y])[j];
      DiffExact(f[y], g[y], j);
      var x :| DiffCut(w, j) <= x < DiffCut(w, j + 1) && f[y][x] != g[y][x];
      assert f[y][x] != g[y][x];
    }
  }

  ghost predicate Requested(s: ScanState) {
    s.pending.queue != [] && s.pending.queue[0].kind == Fullscreen
  }

  /** A full-screen request comes off and shadow and pattern stay. If the screen cannot be
      used nothing is pushed; else blocks are pushed that cover exactly the tiles in the
      closure of the differing tiles of their row, and all tiles of a row where the
      number of differing (line, tile) pairs, with the tiles that the closure adds, is
      above the threshold. */
  lemma RequestIteration(s: ScanState, world: World, w: int, h: int) returns (bs: seq<Span>)
    requires Runs(s, world, w, h) && Requested(s)
    ensures var t := RunStep(s, world, w, h);
      && t.shadow == s.shadow && t.current == s.current
      && t.pending == PushSpans(Pending(s.pending.queue[1..], s.pending.region), bs, w, h)
    ensures GoodBlocks(bs, h) && (!world.whole.Whole? ==> bs == [])
    ensures world.whole.Whole? ==> bs == WholeSpans(s.shadow, world.whole.f, w, h)
  {
    if world.whole.Whole? {
      bs := WholeSpans(s.shadow, world.whole.f, w, h);
      SpansOnGrid(WholeCounts(s.shadow, world.whole.f, w, h), WholeRows(s.shadow, world.whole.f, w, h), h);
    } else {
      bs := [];
    }
  }

  lemma WholeSpansAre(f: Frame, g: Frame, w: int, h: int, v: int, j: int, m: TileRow, c: TileRow)
    requires Sized(f, w, h) && Sized(g, w, h) && 0 <= w && 0 < h && 0 <= v < VerticalTiles(h)
    requires 0 <= j < NUM_HORIZONTAL_TILES && AreaMarks(m, f, g, w, h, v) && IsClosure(m, c)
    ensures TileReported(WholeSpans(f, g, w, h), v, j) <==>
      c[j] || |RowPairs(f, g, w, h, v)| + (SetCount(c) - SetCount(m)) > 16
  {
    var counts, rows := WholeCounts(f, g, w, h), WholeRows(f, g, w, h);
    WholeBounds(f, g, w, h);
    AreaMarksIs(m, f, g, w, h, v);
    WholeCountIs(f, g, w, h, v);
    ReportedTiles(counts, rows, v, j, c);
  }

  /** With nothing else pending the reports of a full-screen request are disjoint and on
      the screen; they are the region; and there are none exactly when the screen cannot
      be used or equals the shadow. */
  lemma RequestAlone(s: ScanState, world: World, w: int, h: int)
    requires Runs(s, world, w, h) && Requested(s) && |s.pending.queue| == 1 && s.pending.region == {}
    ensures var p := RunStep(s, world, w, h).pending;
      && DisjointReports(p.queue) && p.region == Areas(p.queue)
      && (forall k :: 0 <= k < |p.queue| ==> p.queue[k].kind == Scanline && p.queue[k].rect.Within(w, h))
      && (p.queue == [] <==> !world.whole.Whole? || world.whole.f == s.shadow)
  {
    var bs := RequestIteration(s, world, w, h);
    assert Pending(s.pending.queue[1..], s.pending.region) == NOTHING;
    if world.whole.Whole? {
      WholeDisjoint(s.shadow, world.whole.f, w, h);
      AllAccepted(bs, w, h);
      WholeSpansEmpty(s.shadow, world.whole.f, w, h);
    }
  }

  /** For sizes that the differ and the reports cut alike every pixel that differs lies in
      one of them. */
  lemma RequestCovers(s: ScanState, world: World, w: int, h: int, x: int, y: int)
    requires Runs(s, world, w, h) && Requested(s) && |s.pending.queue| == 1 && s.pending.region == {}
    requires w % 32 <= 1 && RowsAgree(h) && world.whole.Whole?
    requires 0 <= x < w && 0 <= y < h && s.shadow[y][x] != world.whole.f[y][x]
    ensures var q := RunStep(s, world, w, h).pending.queue;
      exists k :: 0 <= k < |q| && q[k].rect.Contains(Point(x, y))
  {
    var bs := RequestIteration(s, world, w, h);
    assert Pending(s.pending.queue[1..], s.pending.region) == NOTHING;
    WholeDisjoint(s.shadow, world.whole.f, w, h);
    AllAccepted(bs, w, h);
    WholeCoverage(s.shadow, world.whole.f, w, h);
    assert PixelReported(WholeSpans(s.shadow, world.whole.f, w, h), w, h, Point(x, y));
    var b :| b in bs && TileRect(b, w, h).Contains(Point(x, y));
    var k :| 0 <= k < |bs| && bs[k] == b;
    assert TileReports(bs, w, h)[k].rect.Contains(Point(x, y));
  }

  /** On a narrow screen only tiles of the last column differ. */
  lemma NarrowWhole(f: Frame, g: Frame, w: int, h: int)
    requires 0 < w < 32 && 0 < h && Sized(f, w, h) && Sized(g, w, h)
    ensures forall b :: b in WholeSpans(f, g, w, h) ==> b.c1 == 31
  {
    var counts, rows := WholeCounts(f, g, w, h), WholeRows(f, g, w, h);
    var gc, gr := GrownCounts(counts, rows), GrownRows(counts, rows);
    forall i, j | 0 <= i < |rows| && 0 <= j < 31
      ensures !rows[i][j]
    {
      NarrowRow(f, g, w, h, i, j);
    }
    TileSpansExact(gc, gr);
    forall b | b in TileSpans(gc, gr)
      ensures b.c1 == 31
    {
      assert IsMaximalSpan(gc, gr, b);
      assert 0 <= b.r0 < |gr| && 0 <= b.c1 <= 31;
      var last := gr[b.r0][b.c1];
      assert b.c1 < 31 ==> !last;
    }
  }

  lemma NarrowRow(f: Frame, g: Frame, w: int, h: int, v: int, j: int)
    requires 0 < w < 32 && 0 < h && Sized(f, w, h) && Sized(g, w, h)
    requires 0 <= v < VerticalTiles(h) && 0 <= j < 31
    ensures !WholeRow(f, g, w, h, v)[j]
  {
    WholeRowMarks(f, g, w, h, v, j);
    DiffCutIs(w, j);
    DiffCutStep(w, j);
    forall y | 0 <= y < h
      ensures !Diff(f[y], g[y])[j]
    {
      DiffExact(f[y], g[y], j);
    }
  }

  lemma WholeDisjoint(f: Frame, g: Frame, w: int, h: int)
    requires 0 < w && 0 < h && Sized(f, w, h) && Sized(g, w, h)
    ensures DisjointRects(WholeSpans(f, g, w, h), w, h)
    ensures forall b :: b in WholeSpans(f, g, w, h) ==> TileRect(b, w, h).Within(w, h)
  {
    var bs := WholeSpans(f, g, w, h);
    SpansOnGrid(WholeCounts(f, g, w, h), WholeRows(f, g, w, h), h);
    if w < 32 {
      NarrowWhole(f, g, w, h);
    }
    forall i, j | 0 <= i < j < |bs|
      ensures TileRect(bs[i], w, h).Pixels() !! TileRect(bs[j], w, h).Pixels()
    {
      assert bs[i] in bs && bs[j] in bs;
      RectsDisjoint(bs[i], bs[j], w, h);
    }
    forall b | b in bs
      ensures TileRect(b, w, h).Within(w, h)
    {
      TileRectBounds(b, w, h);
    }
  }

  lemma WholeSpansEmpty(f: Frame, g: Frame, w: int, h: int)
    requires 0 < w && 0 < h && Sized(f, w, h) && Sized(g, w, h)
    ensures WholeSpans(f, g, w, h) == [] <==> f == g
  {
    var counts, rows := WholeCounts(f, g, w, h), WholeRows(f, g, w, h);
    if f == g {
      forall v | 0 <= v < VerticalTiles(h)
        ensures counts[v] == 0
      {
        WholeCountIs(f, g, w, h, v);
        NoRowPairs(f, w, h, v);
      }
      NothingToPush(counts, rows);
    } else {
      var x, y := DifferingPixel(f, g, w, h);
      DiffAtPixel(f[y], g[y], x);
      var v := ComparedOnce(h, y);
      WholeRowMarks(f, g, w, h, v, PieceOf(w, x));
      assert Diff(f[y], g[y])[PieceOf(w, x)] && rows[v][PieceOf(w, x)];
      WholeBounds(f, g, w, h);
      MarkedIsReported(counts, rows, v, PieceOf(w, x));
    }
  }

  lemma NoRowPairs(f: Frame, w: int, h: int, v: int)
    requires Sized(f, w, h) && 0 <= w
    ensures RowPairs(f, f, w, h, v) == {}
  {
    forall y, j | 0 <= y < h && 0 <= j < NUM_HORIZONTAL_TILES
      ensures !Diff(f[y], f[y])[j]
    {
    }
  }

  lemma DifferingPixel(f: Frame, g: Frame, w: int, h: int) returns (x: int, y: int)
    requires Sized(f, w, h) && Sized(g, w, h) && f != g
    ensures 0 <= x < w && 0 <= y < h && f[y][x] != g[y][x]
  {
    y :| 0 <= y < |f| && f[y] != g[y];
    x :| 0 <= x < |f[y]| && f[y][x] != g[y][x];
  }

  /* ---------- an area report, and the exit report ---------- */

  /** An area report comes off and out of the region. If its area was read and still lies
      on the screen the shadow shows what was read there; else the shadow stays. */
  lemma AreaIteration(s: ScanState, world: World, w: int, h: int, x: int, y: int)
    requires Runs(s, world, w, h) && s.pending.queue != [] && s.pending.queue[0].IsArea()
    requires 0 <= x < w && 0 <= y < h
    ensures var t, r := RunStep(s, world, w, h), s.pending.queue[0].rect;
      && t.current == s.current && t.pending == Pending(s.pending.queue[1..], s.pending.region - r.Pixels())
      && Sized(t.shadow, w, h)
      && t.shadow[y][x] ==
         if world.area.Some? && r.Within(w, h) && r.Contains(Point(x, y)) then world.area.value[y - r.y][x - r.x]
         else s.shadow[y][x]
  {
    var r := s.pending.queue[0].rect;
    if world.area.Some? && r.Within(w, h) {
      PastedAt(s.shadow, r, world.area.value, w, h, x, y);
    }
  }

  /** The exit report comes off and nothing else happens. */
  lemma ExitIteration(s: ScanState, world: World, w: int, h: int)
    requires Runs(s, world, w, h) && s.pending.queue != [] && s.pending.queue[0].kind == Exit
    ensures RunStep(s, world, w, h) == s.(pending := Pending(s.pending.queue[1..], s.pending.region))
  {
  }

  /* ---------- the scan pattern ---------- */

  /** The pattern is spread evenly at every scale: its first half, quarter and so on down
      to its first two entries are the multiples of 2, 4, 8 and 16. */
  lemma PatternIsSpread(i: int)
    requires 0 <= i < 32
    ensures (SCANLINES[i] % 2 == 0 <==> i < 16) && (SCANLINES[i] % 4 == 0 <==> i < 8)
    ensures (SCANLINES[i] % 8 == 0 <==> i < 4) && (SCANLINES[i] % 16 == 0 <==> i < 2)
  {
  }
}
