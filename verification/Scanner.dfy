/** The screen scanner of src/scan.c: what one pass of each kind pushes, and the
    scanner object that does it. */
module Scanner {
  import opened Geometry
  import opened Tiles
  import opened Reports
  import opened Display
  import opened Pending

  const SCANLINES: seq<int> := [
    0, 16, 8, 24, 4, 20, 12, 28,
    10, 26, 18, 2, 22, 6, 30, 14,
    1, 17, 9, 25, 7, 23, 15, 31,
    19, 3, 27, 11, 29, 13, 5, 21
  ]

  /* ---------- what a scan pushes ---------- */

  function GrownCounts(counts: seq<int>, rows: seq<TileRow>): (g: seq<int>)
    requires |counts| == |rows|
    ensures |g| == |counts|
  {
    seq(|counts|, i requires 0 <= i < |counts| => GrownCount(counts[i], rows[i]))
  }

  function GrownRows(counts: seq<int>, rows: seq<TileRow>): (g: seq<TileRow>)
    requires |counts| == |rows|
    ensures |g| == |rows|
  {
    seq(|counts|, i requires 0 <= i < |counts| => GrownRow(counts[i], rows[i]))
  }

  /** The blocks of tiles reported for the counters and tiles of a scan. */
  function ScanSpans(counts: seq<int>, rows: seq<TileRow>): seq<Span>
    requires |counts| == |rows|
  {
    TileSpans(GrownCounts(counts, rows), GrownRows(counts, rows))
  }

  function TileReport(b: Span, w: int, h: int): Report {
    Report(Scanline, TileRect(b, w, h))
  }

  function PushSpans(p: Pending, bs: seq<Span>, w: int, h: int): Pending {
    if bs == [] then p
    else Push(NonZero, PushSpans(p, bs[..|bs| - 1], w, h), TileReport(bs[|bs| - 1], w, h))
  }

  lemma PushSpansAppend(p: Pending, bs: seq<Span>, b: Span, w: int, h: int)
    ensures PushSpans(p, bs + [b], w, h) == Push(NonZero, PushSpans(p, bs, w, h), TileReport(b, w, h))
  {
    assert (bs + [b])[..|bs|] == bs;
  }

  lemma {:induction false} PushSpansConcat(p: Pending, a: seq<Span>, b: seq<Span>, w: int, h: int)
    ensures PushSpans(p, a + b, w, h) == PushSpans(PushSpans(p, a, w, h), b, w, h)
  {
    if b == [] {
      assert a + b == a;
    } else {
      var n := |b| - 1;
      PushSpansConcat(p, a, b[..n], w, h);
      assert a + b == (a + b[..n]) + [b[n]];
      PushSpansAppend(p, a + b[..n], b[n], w, h);
    }
  }

  /** The pending state after pushing the runs that closed before position `i`,
      each as a block of the given shape. */
  function RunsPushed(p: Pending, sel: seq<bool>, i: nat, shape: Shape, w: int, h: int): Pending
    requires i <= |sel|
  {
    if i == 0 then p
    else
      var before := RunsPushed(p, sel, i - 1, shape, w, h);
      if !sel[i - 1] && OpenStart(sel, i - 1) != -1
      then Push(NonZero, before, TileReport(Block(shape, Run(OpenStart(sel, i - 1), i - 2)), w, h))
      else before
  }

  /** The same after all runs, the last of which may reach the end. */
  function AllRunsPushed(p: Pending, sel: seq<bool>, shape: Shape, w: int, h: int): Pending {
    var n := |sel|;
    var before := RunsPushed(p, sel, n, shape, w, h);
    if OpenStart(sel, n) != -1 then Push(NonZero, before, TileReport(Block(shape, Run(OpenStart(sel, n), n - 1)), w, h))
    else before
  }

  lemma BlocksAppend(p: Pending, runs: seq<Run>, r: Run, shape: Shape, w: int, h: int)
    ensures PushSpans(p, Blocks(shape, runs + [r]), w, h) ==
      Push(NonZero, PushSpans(p, Blocks(shape, runs), w, h), TileReport(Block(shape, r), w, h))
  {
    assert Blocks(shape, runs + [r]) == Blocks(shape, runs) + [Block(shape, r)];
    PushSpansAppend(p, Blocks(shape, runs), Block(shape, r), w, h);
  }

  lemma {:induction false} RunsPushedIsPushSpans(p: Pending, sel: seq<bool>, i: nat, shape: Shape, w: int, h: int)
    requires i <= |sel|
    ensures RunsPushed(p, sel, i, shape, w, h) == PushSpans(p, Blocks(shape, ClosedRuns(sel, i)), w, h)
  {
    if i == 0 {
    } else {
      RunsPushedIsPushSpans(p, sel, i - 1, shape, w, h);
      if !sel[i - 1] && OpenStart(sel, i - 1) != -1 {
        BlocksAppend(p, ClosedRuns(sel, i - 1), Run(OpenStart(sel, i - 1), i - 2), shape, w, h);
      }
    }
  }

  /** Pushing runs as the loops meet them pushes the blocks of all maximal runs. */
  lemma AllRunsPushedIsPushSpans(p: Pending, sel: seq<bool>, shape: Shape, w: int, h: int)
    ensures AllRunsPushed(p, sel, shape, w, h) == PushSpans(p, Blocks(shape, Runs(sel)), w, h)
  {
    var n := |sel|;
    RunsPushedIsPushSpans(p, sel, n, shape, w, h);
    if OpenStart(sel, n) != -1 {
      BlocksAppend(p, ClosedRuns(sel, n), Run(OpenStart(sel, n), n - 1), shape, w, h);
    } else {
      assert Runs(sel) == ClosedRuns(sel, n);
    }
  }

  /** The pending state after pushing the partial rows above row `i`. */
  function PartialPushed(p: Pending, counts: seq<int>, rows: seq<TileRow>, i: nat, w: int, h: int): Pending
    requires i <= |counts| == |rows|
  {
    if i == 0 then p
    else
      var before := PartialPushed(p, counts, rows, i - 1, w, h);
      if IsPartial(counts[i - 1]) then AllRunsPushed(before, rows[i - 1], InRow(i - 1), w, h) else before
  }

  lemma RowPushed(p: Pending, above: seq<Span>, i: nat, row: TileRow, w: int, h: int)
    ensures AllRunsPushed(PushSpans(p, above, w, h), row, InRow(i), w, h) ==
      PushSpans(p, above + Blocks(InRow(i), Runs(row)), w, h)
  {
    AllRunsPushedIsPushSpans(PushSpans(p, above, w, h), row, InRow(i), w, h);
    PushSpansConcat(p, above, Blocks(InRow(i), Runs(row)), w, h);
  }

  lemma PartialRowPushed(p: Pending, counts: seq<int>, rows: seq<TileRow>, i: nat, w: int, h: int)
    requires i < |counts| == |rows| && IsPartial(counts[i])
    requires PartialPushed(p, counts, rows, i, w, h) == PushSpans(p, PartialSpans(counts, rows, i), w, h)
    ensures PartialPushed(p, counts, rows, i + 1, w, h) == PushSpans(p, PartialSpans(counts, rows, i + 1), w, h)
  {
    RowPushed(p, PartialSpans(counts, rows, i), i, rows[i], w, h);
  }

  lemma OtherRowPushed(p: Pending, counts: seq<int>, rows: seq<TileRow>, i: nat, w: int, h: int)
    requires i < |counts| == |rows| && !IsPartial(counts[i])
    requires PartialPushed(p, counts, rows, i, w, h) == PushSpans(p, PartialSpans(counts, rows, i), w, h)
    ensures PartialPushed(p, counts, rows, i + 1, w, h) == PushSpans(p, PartialSpans(counts, rows, i + 1), w, h)
  {
    assert PartialSpans(counts, rows, i + 1) == PartialSpans(counts, rows, i);
  }

  lemma {:induction false} PartialPushedIsPushSpans(p: Pending, counts: seq<int>, rows: seq<TileRow>, i: nat,
    w: int, h: int)
    requires i <= |counts| == |rows|
    ensures PartialPushed(p, counts, rows, i, w, h) == PushSpans(p, PartialSpans(counts, rows, i), w, h)
  {
    if i == 0 {
    } else {
      PartialPushedIsPushSpans(p, counts, rows, i - 1, w, h);
      if IsPartial(counts[i - 1]) {
        PartialRowPushed(p, counts, rows, i - 1, w, h);
      } else {
        OtherRowPushed(p, counts, rows, i - 1, w, h);
      }
    }
  }

  /* ---------- one iteration of the scanner loop, on values ---------- */

  datatype ScanState = ScanState(shadow: Frame, current: int, pending: Pending)

  /** The result of reading the whole screen: no image of the current size, a
      failed read, or the pixels. */
  datatype WholeRead = Unusable | Failed | Whole(f: Frame)

  /** What the X server answers during one iteration: the lines a periodic scan
      reads, the whole screen, and the area of the report being handled. */
  datatype World = World(lines: seq<Option<seq<Pixel>>>, whole: WholeRead, area: Option<Frame>)

  predicate LinesFit(lines: seq<Option<seq<Pixel>>>, w: int, h: int) {
    |lines| == VerticalTiles(h) && forall i :: 0 <= i < |lines| && lines[i].Some? ==> |lines[i].value| == w
  }

  predicate WorldFits(world: World, s: ScanState, w: int, h: int) {
    && LinesFit(world.lines, w, h)
    && (world.whole.Whole? ==> Sized(world.whole.f, w, h))
    && (s.pending.queue != [] && world.area.Some? ==>
        Sized(world.area.value, s.pending.queue[0].rect.w, s.pending.queue[0].rect.h))
  }

  function ExaminedLine(offset: int, i: int): int {
    offset + NUM_SCANLINES * i
  }

  /** Every line the scan needs could be read. */
  predicate LinesRead(lines: seq<Option<seq<Pixel>>>, offset: int, h: int) {
    forall i :: 0 <= i < |lines| && ExaminedLine(offset, i) < h ==> lines[i].Some?
  }

  /** The tiles found changed by a periodic scan; a row of tiles below the bottom
      of the screen has none. */
  function PeriodicRow(shadow: Frame, lines: seq<Option<seq<Pixel>>>, offset: int, w: int, h: int, i: int): TileRow
    requires Sized(shadow, w, h) && LinesFit(lines, w, h) && 0 <= offset && 0 <= i < |lines|
  {
    if ExaminedLine(offset, i) < h && lines[i].Some?
    then Diff(shadow[ExaminedLine(offset, i)], lines[i].value) else NO_TILES
  }

  function PeriodicRows(shadow: Frame, lines: seq<Option<seq<Pixel>>>, offset: int, w: int,
    h: int): (rows: seq<TileRow>)
    requires Sized(shadow, w, h) && LinesFit(lines, w, h) && 0 <= offset
    ensures |rows| == |lines|
  {
    seq(|lines|, i requires 0 <= i < |lines| => PeriodicRow(shadow, lines, offset, w, h, i))
  }

  function SetCounts(rows: seq<TileRow>): (counts: seq<int>)
    ensures |counts| == |rows|
  {
    seq(|rows|, i requires 0 <= i < |rows| => SetCount(rows[i]))
  }

  function PeriodicSpans(shadow: Frame, lines: seq<Option<seq<Pixel>>>, offset: int, w: int, h: int): seq<Span>
    requires Sized(shadow, w, h) && LinesFit(lines, w, h) && 0 <= offset
  {
    var rows := PeriodicRows(shadow, lines, offset, w, h);
    ScanSpans(SetCounts(rows), rows)
  }

  /** `scanner_periodic`: the scan line pattern advances even if a read fails. */
  function PeriodicStep(s: ScanState, lines: seq<Option<seq<Pixel>>>, w: int, h: int): ScanState
    requires Sized(s.shadow, w, h) && LinesFit(lines, w, h) && 0 <= s.current < NUM_SCANLINES
  {
    var offset := SCANLINES[s.current];
    var next := s.(current := (s.current + 1) % 32);
    if LinesRead(lines, offset, h)
    then next.(pending := PushSpans(s.pending, PeriodicSpans(s.shadow, lines, offset, w, h), w, h))
    else next
  }

  ghost function WholeRow(shadow: Frame, image: Frame, w: int, h: int, v: int): TileRow
    requires Sized(shadow, w, h) && Sized(image, w, h) && 0 < h && 0 <= v < VerticalTiles(h)
  {
    FirstLineStep(v, h, VerticalTiles(h));
    LinesMarked(shadow, image, FirstLine(v, h, VerticalTiles(h)), FirstLine(v + 1, h, VerticalTiles(h)))
  }

  ghost function WholeRows(shadow: Frame, image: Frame, w: int, h: int): (rows: seq<TileRow>)
    requires Sized(shadow, w, h) && Sized(image, w, h) && 0 < h
    ensures |rows| == VerticalTiles(h)
  {
    seq(VerticalTiles(h), v requires 0 <= v < VerticalTiles(h) => WholeRow(shadow, image, w, h, v))
  }

  ghost function WholeCount(shadow: Frame, image: Frame, w: int, h: int, v: int): int
    requires Sized(shadow, w, h) && Sized(image, w, h) && 0 < h && 0 <= v < VerticalTiles(h)
  {
    FirstLineStep(v, h, VerticalTiles(h));
    LinesCount(shadow, image, FirstLine(v, h, VerticalTiles(h)), FirstLine(v + 1, h, VerticalTiles(h)))
  }

  ghost function WholeCounts(shadow: Frame, image: Frame, w: int, h: int): (counts: seq<int>)
    requires Sized(shadow, w, h) && Sized(image, w, h) && 0 < h
    ensures |counts| == VerticalTiles(h)
  {
    seq(VerticalTiles(h), v requires 0 <= v < VerticalTiles(h) => WholeCount(shadow, image, w, h, v))
  }

  ghost function WholeSpans(shadow: Frame, image: Frame, w: int, h: int): seq<Span>
    requires Sized(shadow, w, h) && Sized(image, w, h) && 0 < h
  {
    ScanSpans(WholeCounts(shadow, image, w, h), WholeRows(shadow, image, w, h))
  }

  /** `scan_full_screen`. */
  ghost function WholeStep(s: ScanState, whole: WholeRead, w: int, h: int): ScanState
    requires Sized(s.shadow, w, h) && 0 < h && (whole.Whole? ==> Sized(whole.f, w, h))
  {
    if whole.Whole?
    then s.(pending := PushSpans(s.pending, WholeSpans(s.shadow, whole.f, w, h), w, h))
    else s
  }

  /** `handle_scan_report`: the area read is copied into the shadow if it still fits. */
  function HandleStep(s: ScanState, r: Rect, area: Option<Frame>, w: int, h: int): ScanState
    requires area.Some? ==> Sized(area.value, r.w, r.h)
  {
    if area.Some? && r.Within(w, h) then s.(shadow := Pasted(s.shadow, r, area.value)) else s
  }

  /** One iteration of the loop of `scanner_run`. */
  ghost function RunStep(s: ScanState, world: World, w: int, h: int): ScanState
    requires Sized(s.shadow, w, h) && 0 < h && 0 <= s.current < NUM_SCANLINES && WorldFits(world, s, w, h)
  {
    var queue := s.pending.queue;
    if queue == [] then PeriodicStep(s, world.lines, w, h)
    else
      var r := queue[0];
      var popped := s.(pending := s.pending.(queue := queue[1..]));
      match r.kind
      case Exit => popped
      case Fullscreen => WholeStep(popped, world.whole, w, h)
      case _ =>
        HandleStep(popped.(pending := popped.pending.(region := s.pending.region - r.Area())), r.rect, world.area, w, h)
  }

  /* ---------- the scanner object ---------- */

  /** The memory of a grab as a whole-screen read of a `w` by `h` display. */
  function AsWholeRead(g: Grab, w: int, h: int): WholeRead
    requires 0 <= w && 0 <= h && ValidGrab(g)
  {
    match g
    case NoImage => Unusable
    case ReadFailed => Failed
    case Grabbed(gw, gh, data) => if gw == w && gh == h then Whole(RowsOf(data, w, h)) else Unusable
  }

  predicate ValidReport(r: Report) {
    r.IsArea() ==> 0 <= r.rect.x && 0 <= r.rect.y && 0 < r.rect.w && 0 < r.rect.h
  }

  ghost predicate ValidQueue(queue: seq<Report>) {
    forall k :: 0 <= k < |queue| ==> ValidReport(queue[k])
  }

  class Scanner {
    const display: Display
    const fullScreenFps: int
    var queue: seq<Report>
    var region: set<Point>
    var currentScanline: int

    ghost predicate Valid()
      reads this, display
    {
      && display.Valid()
      && 0 <= currentScanline < NUM_SCANLINES
      && ValidQueue(queue)
    }

    ghost function PendingState(): Pending
      reads this
    {
      Pending(queue, region)
    }

    ghost function State(): ScanState
      requires Valid()
      reads this, display, display.fullscreen
    {
      ScanState(display.Shadow(), currentScanline, PendingState())
    }

    constructor (display: Display, fullScreenFps: int)
      requires display.Valid()
      ensures Valid() && this.display == display && this.fullScreenFps == fullScreenFps
      ensures State() == ScanState(display.Shadow(), 0, NOTHING)
    {
      this.display, this.fullScreenFps := display, fullScreenFps;
      queue, region, currentScanline := [], {}, 0;
    }

    /** `scanner_push`, while the scanner is running. */
    method PushReport(kind: Kind, r: Rect)
      requires Valid() && ValidReport(Report(kind, r))
      modifies this`queue, this`region
      ensures Valid() && PendingState() == Push(NonZero, old(PendingState()), Report(kind, r))
    {
      if kind == Scanline || kind == Damage {
        if ContainsRectangle(region, r) != OUT {
          return;
        }
        region := region + r.Pixels();
        queue := queue + [Report(kind, r)];
      } else {
        queue := queue + [Report(kind, r)];
        assert region + {} == region;
      }
    }

    method PushTilesReport(startRow: int, startCol: int, endRow: int, endCol: int)
      requires Valid() && OnGrid(Span(startRow, startCol, endRow, endCol), display.h)
      modifies this`queue, this`region
      ensures Valid()
      ensures PendingState() ==
        Push(NonZero, old(PendingState()), TileReport(Span(startRow, startCol, endRow, endCol), display.w, display.h))
    {
      var x := (startCol * display.w) / 32;
      var w := ((endCol - startCol + 1) * display.w) / 32;
      if ((endCol - startCol + 1) * display.w) % 32 != 0 {
        w := w + 1;
      }
      var y := startRow * NUM_SCANLINES;
      var h := (endRow - startRow + 1) * NUM_SCANLINES;
      if x + w > display.w {
        w := display.w - x;
      }
      if y + h > display.h {
        h := display.h - y;
      }
      TileRectBounds(Span(startRow, startCol, endRow, endCol), display.w, display.h);
      PushReport(Scanline, Rect(x, y, w, h));
    }

    /** `full` tells which counters are full. */
    method PushChangesAcrossRows(counts: array<int>, ghost full: seq<bool>)
      requires Valid() && counts.Length == |full| == VerticalTiles(display.h)
      requires forall i :: 0 <= i < counts.Length ==> full[i] == (counts[i] == NUM_HORIZONTAL_TILES)
      modifies this`queue, this`region
      ensures Valid()
      ensures PendingState() == AllRunsPushed(old(PendingState()), full, Across, display.w, display.h)
    {
      ghost var before := PendingState();
      var startRow, currentRow := -1, -1;
      var i := 0;
      while i < counts.Length
        invariant 0 <= i <= counts.Length && Valid()
        invariant startRow == OpenStart(full, i) && currentRow == if startRow == -1 then -1 else i - 1
        invariant PendingState() == RunsPushed(before, full, i, Across, display.w, display.h)
      {
        OpenStartExact(full, i);
        if counts[i] == NUM_HORIZONTAL_TILES {
          if startRow == -1 {
            startRow := i;
          }
          currentRow := i;
        } else if currentRow != -1 {
          PushTilesReport(startRow, 0, currentRow, NUM_HORIZONTAL_TILES - 1);
          startRow, currentRow := -1, -1;
        }
        i := i + 1;
      }
      OpenStartExact(full, i);
      if currentRow != -1 {
        PushTilesReport(startRow, 0, currentRow, NUM_HORIZONTAL_TILES - 1);
      }
    }

    /** `sel` is row `row` of the tiles. */
    method PushChangesInOneRow(row: int, tiles: array2<bool>, ghost sel: TileRow)
      requires Valid() && tiles.Length1 == NUM_HORIZONTAL_TILES && 0 <= row < tiles.Length0 == VerticalTiles(display.h)
      requires forall j :: 0 <= j < NUM_HORIZONTAL_TILES ==> sel[j] == tiles[row, j]
      modifies this`queue, this`region
      ensures Valid()
      ensures PendingState() == AllRunsPushed(old(PendingState()), sel, InRow(row), display.w, display.h)
    {
      ghost var before := PendingState();
      var startTile, currentTile := -1, -1;
      var i := 0;
      while i < NUM_HORIZONTAL_TILES
        invariant 0 <= i <= NUM_HORIZONTAL_TILES && Valid()
        invariant startTile == OpenStart(sel, i) && currentTile == if startTile == -1 then -1 else i - 1
        invariant PendingState() == RunsPushed(before, sel, i, InRow(row), display.w, display.h)
      {
        OpenStartExact(sel, i);
        if !tiles[row, i] {
          if currentTile != -1 {
            PushTilesReport(row, startTile, row, currentTile);
            startTile, currentTile := -1, -1;
          }
        } else {
          if startTile == -1 {
            startTile := i;
          }
          currentTile := i;
        }
        i := i + 1;
      }
      OpenStartExact(sel, i);
      if currentTile != -1 {
        PushTilesReport(row, startTile, row, currentTile);
      }
    }

    method PushChangedTiles(counts: array<int>, tiles: array2<bool>, ghost rows: seq<TileRow>)
      requires Valid() && tiles.Length1 == NUM_HORIZONTAL_TILES
      requires counts.Length == tiles.Length0 == |rows| == VerticalTiles(display.h)
      requires forall i :: 0 <= i < counts.Length && IsPartial(counts[i]) ==> rows[i] == RowOf(tiles, i)
      modifies this`queue, this`region
      ensures Valid()
      ensures PendingState() == PushSpans(old(PendingState()), TileSpans(counts[..], rows), display.w, display.h)
    {
      ghost var before, c := PendingState(), counts[..];
      PushChangesAcrossRows(counts, FullRows(c));
      AllRunsPushedIsPushSpans(before, FullRows(c), Across, display.w, display.h);
      PartialPushedIsPushSpans(PendingState(), c, rows, |c|, display.w, display.h);
      PushSpansConcat(before, Blocks(Across, Runs(FullRows(c))), PartialSpans(c, rows, |c|), display.w, display.h);
      PushPartialRows(counts, tiles, c, rows);
    }

    /** The second loop of `push_changed_tiles`. */
    method PushPartialRows(counts: array<int>, tiles: array2<bool>, ghost c: seq<int>, ghost rows: seq<TileRow>)
      requires Valid() && tiles.Length1 == NUM_HORIZONTAL_TILES
      requires counts.Length == tiles.Length0 == |c| == |rows| == VerticalTiles(display.h)
      requires forall i :: 0 <= i < counts.Length ==> c[i] == counts[i]
      requires forall i :: 0 <= i < counts.Length && IsPartial(counts[i]) ==> rows[i] == RowOf(tiles, i)
      modifies this`queue, this`region
      ensures Valid()
      ensures PendingState() == PartialPushed(old(PendingState()), c, rows, |c|, display.w, display.h)
    {
      ghost var before := PendingState();
      var i := 0;
      while i < counts.Length
        invariant 0 <= i <= counts.Length && Valid()
        invariant PendingState() == PartialPushed(before, c, rows, i, display.w, display.h)
      {
        assert c[i] == counts[i];
        PushPartialRow(i, counts[i], tiles, c, rows, before);
        i := i + 1;
      }
    }

    /** Row `i`, if it is partial. */
    method PushPartialRow(i: int, count: int, tiles: array2<bool>, ghost c: seq<int>, ghost rows: seq<TileRow>,
      ghost before: Pending)
      requires Valid() && tiles.Length1 == NUM_HORIZONTAL_TILES
      requires 0 <= i < tiles.Length0 == |c| == |rows| == VerticalTiles(display.h)
      requires c[i] == count && (IsPartial(count) ==> rows[i] == RowOf(tiles, i))
      requires PendingState() == PartialPushed(before, c, rows, i, display.w, display.h)
      modifies this`queue, this`region
      ensures Valid() && PendingState() == PartialPushed(before, c, rows, i + 1, display.w, display.h)
    {
      if count > 0 && count < NUM_HORIZONTAL_TILES {
        PushChangesInOneRow(i, tiles, rows[i]);
      }
    }

    method RemoveRegion(r: Rect)
      modifies this`region
      ensures region == old(region) - r.Pixels()
    {
      region := region - r.Pixels();
    }

    /** `scanner_periodic`. `lines[i]` is what reading the examined line of tile
        row `i` returns. Rows of `tiles` below the bottom are never written. */
    method Periodic(lines: seq<Option<seq<Pixel>>>)
      requires Valid() && LinesFit(lines, display.w, display.h)
      modifies this`queue, this`region, this`currentScanline
      ensures Valid() && State() == PeriodicStep(old(State()), lines, display.w, display.h)
    {
      ghost var before := State();
      var nv := (display.h + NUM_SCANLINES - 1) / 32;
      var counts := new int[nv];
      var tiles := new bool[nv, NUM_HORIZONTAL_TILES];
      var offset := SCANLINES[currentScanline];
      currentScanline := (currentScanline + 1) % 32;
      ghost var rows := PeriodicRows(before.shadow, lines, offset, display.w, display.h);
      var ok := CompareLines(lines, offset, counts, tiles);
      if !ok {
        return;
      }
      assert counts[..] == SetCounts(rows);
      GrowAndPush(counts, tiles, rows);
    }

    /** Compares the `i`-th examined line, if it is on the screen. */
    method CompareOne(lines: seq<Option<seq<Pixel>>>, offset: int, y: int, tiles: array2<bool>,
      i: int) returns (rc: int)
      requires display.Valid() && LinesFit(lines, display.w, display.h) && 0 <= offset
      requires tiles.Length1 == NUM_HORIZONTAL_TILES && 0 <= i < tiles.Length0 == |lines| &&
        y == ExaminedLine(offset, i)
      modifies tiles
      ensures rc < 0 <==> y < display.h && lines[i].None?
      ensures rc >= 0 ==>
        var row := PeriodicRow(display.Shadow(), lines, offset, display.w, display.h, i);
        rc == SetCount(row) && (rc != 0 ==> RowOf(tiles, i) == row)
      ensures forall k :: 0 <= k < i ==> RowOf(tiles, k) == old(RowOf(tiles, k))
    {
      rc := 0;
      SetCountZero(NO_TILES);
      if y < display.h {
        rc := display.FindChangedTiles(y, lines[i], tiles, i);
        forall k | 0 <= k < i
          ensures RowOf(tiles, k) == old(RowOf(tiles, k))
        {
          assert forall j :: 0 <= j < NUM_HORIZONTAL_TILES ==> tiles[k, j] == old(tiles[k, j]);
        }
      }
    }

    /** The comparison loop of `scanner_periodic`; false when a read failed. */
    method CompareLines(lines: seq<Option<seq<Pixel>>>, offset: int, counts: array<int>, tiles: array2<bool>)
      returns (ok: bool)
      requires display.Valid() && LinesFit(lines, display.w, display.h) && 0 <= offset
      requires tiles.Length1 == NUM_HORIZONTAL_TILES && counts.Length == tiles.Length0 == |lines|
      modifies counts, tiles
      ensures ok <==> LinesRead(lines, offset, display.h)
      ensures ok ==> forall k :: 0 <= k < counts.Length ==>
        && counts[k] == SetCount(PeriodicRow(display.Shadow(), lines, offset, display.w, display.h, k))
        && (counts[k] != 0 ==> RowOf(tiles, k) == PeriodicRow(display.Shadow(), lines, offset, display.w, display.h, k))
    {
      ghost var shadow := display.Shadow();
      var y, i := offset, 0;
      while i < counts.Length
        invariant 0 <= i <= counts.Length && y == ExaminedLine(offset, i)
        invariant forall k :: 0 <= k < i && ExaminedLine(offset, k) < display.h ==> lines[k].Some?
        invariant forall k :: 0 <= k < i ==>
          && counts[k] == SetCount(PeriodicRow(shadow, lines, offset, display.w, display.h, k))
          && (counts[k] != 0 ==> RowOf(tiles, k) == PeriodicRow(shadow, lines, offset, display.w, display.h, k))
      {
        var rc := CompareOne(lines, offset, y, tiles, i);
        if rc < 0 {
          return false;
        }
        counts[i] := rc;
        i, y := i + 1, y + NUM_SCANLINES;
      }
      return true;
    }

    /** Grows what a scan has found and pushes it. Tiles of rows with a zero
        counter may hold anything. */
    method GrowAndPush(counts: array<int>, tiles: array2<bool>, ghost rows: seq<TileRow>)
      requires Valid() && tiles.Length1 == NUM_HORIZONTAL_TILES
      requires counts.Length == tiles.Length0 == |rows| == VerticalTiles(display.h)
      requires forall i :: 0 <= i < counts.Length && counts[i] != 0 ==> rows[i] == RowOf(tiles, i)
      modifies this`queue, this`region, counts, tiles
      ensures Valid()
      ensures PendingState() ==
        PushSpans(old(PendingState()), ScanSpans(old(counts[..]), rows), display.w, display.h)
    {
      ghost var c := counts[..];
      ghost var grown := GrownRows(c, rows);
      GrowChangedTiles(counts, tiles);
      assert counts[..] == GrownCounts(c, rows) by {
        forall i | 0 <= i < counts.Length
          ensures counts[i] == GrownCount(c[i], rows[i])
        {
          assert c[i] == old(counts[i]);
        }
      }
      forall i | 0 <= i < counts.Length && IsPartial(counts[i])
        ensures grown[i] == RowOf(tiles, i)
      {
        assert c[i] == old(counts[i]);
      }
      PushChangedTiles(counts, tiles, grown);
    }

    /** `scan_full_screen`. */
    method ScanFullScreen(grab: Grab)
      requires Valid() && ValidGrab(grab)
      modifies this`queue, this`region
      ensures Valid()
      ensures State() == WholeStep(old(State()), AsWholeRead(grab, display.w, display.h), display.w, display.h)
    {
      ghost var before := State();
      var nv := (display.h + NUM_SCANLINES - 1) / 32;
      var counts := new int[nv];
      var tiles := new bool[nv, NUM_HORIZONTAL_TILES];
      var rc := display.ScanWholeScreen(grab, counts, tiles);
      if rc < 0 {
        return;
      }
      if grab.Grabbed? && grab.w == display.w && grab.h == display.h {
        ghost var image := RowsOf(grab.data, display.w, display.h);
        ghost var rows := WholeRows(before.shadow, image, display.w, display.h);
        assert forall v :: 0 <= v < nv ==>
          RowScanned(display.fullscreen[..], grab.data, display.w, display.h, v, nv, counts[v], RowOf(tiles, v));
        assert counts[..] == WholeCounts(before.shadow, image, display.w, display.h);
        GrowAndPush(counts, tiles, rows);
      } else {
        ghost var c, rows := counts[..], seq(nv, _ => NO_TILES);
        GrowAndPush(counts, tiles, rows);
        NothingToPush(c, rows);
      }
    }

    /** `handle_scan_report`: `image` is what reading the rectangle returned. */
    method HandleScanReport(r: Rect, image: Option<seq<Pixel>>)
      requires Valid() && ValidReport(Report(Damage, r)) && (image.Some? ==> |image.value| == r.w * r.h)
      modifies display.fullscreen
      ensures Valid()
      ensures State() == HandleStep(old(State()), r,
        if image.Some? then Some(RowsOf(image.value, r.w, r.h)) else None, display.w, display.h)
    {
      if image.Some? {
        display.CopyImageIntoFullscreen(r, image.value);
      }
    }

    /** One iteration of `scanner_run`: the result is false when the loop ends. */
    method RunOnce(lines: seq<Option<seq<Pixel>>>, grab: Grab, image: Option<seq<Pixel>>) returns (running: bool)
      requires Valid() && LinesFit(lines, display.w, display.h) && ValidGrab(grab)
      requires queue != [] && image.Some? ==> |image.value| == queue[0].rect.w * queue[0].rect.h
      requires queue != [] && image.Some? ==> 0 < queue[0].rect.w && 0 < queue[0].rect.h
      requires queue == [] && fullScreenFps > 0 && image.Some? ==> |image.value| == display.w * display.h
      modifies this`queue, this`region, this`currentScanline, display.fullscreen
      ensures Valid()
      ensures running <==> !(old(queue) != [] && old(queue)[0].kind.Exit?)
      ensures old(queue) == [] && fullScreenFps > 0 ==>
        var area := if image.Some? then Some(RowsOf(image.value, display.w, display.h)) else None;
        State() == HandleStep(old(State()), Rect(0, 0, display.w, display.h), area, display.w, display.h)
      ensures old(queue) != [] || fullScreenFps <= 0 ==>
        var area := if old(queue) != [] && image.Some?
          then Some(RowsOf(image.value, old(queue)[0].rect.w, old(queue)[0].rect.h)) else None;
        var world := World(lines, AsWholeRead(grab, display.w, display.h), area);
        WorldFits(world, old(State()), display.w, display.h) &&
        State() == RunStep(old(State()), world, display.w, display.h)
    {
      running := true;
      if queue == [] {
        if fullScreenFps > 0 {
          HandleScanReport(Rect(0, 0, display.w, display.h), image);
        } else {
          Periodic(lines);
        }
        return;
      }
      var r := queue[0];
      queue := queue[1..];
      if r.kind == Fullscreen {
        ScanFullScreen(grab);
        return;
      }
      if r.kind == Exit {
        running := false;
        return;
      }
      RemoveRegion(r.rect);
      HandleScanReport(r.rect, image);
    }
  }

  /** With all counters zero nothing is reported. */
  lemma NothingToPush(counts: seq<int>, rows: seq<TileRow>)
    requires |counts| == |rows| && forall i :: 0 <= i < |counts| ==> counts[i] == 0
    ensures ScanSpans(counts, rows) == []
  {
    var gc, gr := GrownCounts(counts, rows), GrownRows(counts, rows);
    var bs := TileSpans(gc, gr);
    var b := if bs == [] then Span(0, 0, 0, 0) else bs[0];
    assert bs == [] || b in bs;
    TileSpansExact(gc, gr);
    EmptyRowsHaveNoSpan(gc, gr, b);
  }

  lemma EmptyRowsHaveNoSpan(counts: seq<int>, rows: seq<TileRow>, b: Span)
    requires |counts| == |rows| && forall i :: 0 <= i < |counts| ==> counts[i] == 0
    ensures !IsMaximalSpan(counts, rows, b)
  {
    var full := 0 <= b.r0 < |counts| && FullRows(counts)[b.r0];
    assert !full;
  }
}
