/** What the scans mark, count and report, in terms of pixels: which line is compared in
    which row of tiles, and which tiles end up in a report. */
module TileMeaning {
  import opened Arithmetic
  import opened Geometry
  import opened Tiles
  import opened Reports
  import opened Display
  import opened Scanner
  import opened Coverage

  /* ---------- images in memory ---------- */

  /** Pixel (x, y) of an image lies at y * w + x. */
  lemma PixelAt(data: seq<Pixel>, w: int, h: int, x: int, y: int)
    requires 0 <= x < w && 0 <= y < h && |data| == w * h
    ensures 0 <= y * w + x < |data| && RowsOf(data, w, h)[y][x] == data[y * w + x]
  {
    RowFits(w, h, y);
    TimesIs(w, y);
  }

  /** Pasting an image takes its pixels inside the rectangle and no others. */
  lemma PastedAt(f: Frame, r: Rect, img: Frame, w: int, h: int, x: int, y: int)
    requires Sized(f, w, h) && r.Within(w, h) && Sized(img, r.w, r.h) && 0 <= x < w && 0 <= y < h
    ensures |Pasted(f, r, img)| == h && |Pasted(f, r, img)[y]| == w
    ensures Pasted(f, r, img)[y][x] == if r.Contains(Point(x, y)) then img[y - r.y][x - r.x] else f[y][x]
  {
  }

  /* ---------- lines and rows of tiles ---------- */

  /** Line `y` of a screen of height `h` is compared in row `v` of the whole-screen
      differ. */
  predicate Compared(v: int, h: int, y: int) {
    v * h < (y + 1) * VerticalTiles(h) <= (v + 1) * h
  }

  lemma FloorBelow(a: int, n: int, y: int)
    requires 0 < n
    ensures a / n <= y <==> a < (y + 1) * n
  {
    DivBounds(a, n);
    if a / n <= y {
      MulMonotone(a / n + 1, y + 1, n);
    } else {
      MulMonotone(y + 1, a / n, n);
    }
  }

  lemma ComparedIff(v: int, h: int, y: int)
    requires 0 < h && 0 <= v
    ensures var nv := VerticalTiles(h);
      FirstLine(v, h, nv) <= y < FirstLine(v + 1, h, nv) <==> Compared(v, h, y)
  {
    var nv := VerticalTiles(h);
    FloorBelow(v * h, nv, y);
    FloorBelow((v + 1) * h, nv, y);
  }

  /** Every line is compared in one row, and in one only. */
  lemma ComparedOnce(h: int, y: int) returns (v: int)
    requires 0 <= y < h
    ensures 0 <= v < VerticalTiles(h) && Compared(v, h, y)
    ensures forall u :: Compared(u, h, y) ==> u == v
  {
    var nv := VerticalTiles(h);
    var a := (y + 1) * nv - 1;
    v := a / h;
    DivBounds(a, h);
    MulMonotone(1, y + 1, nv);
    MulMonotone(y + 1, h, nv);
    DivMonotone(0, a, h);
    DivExact(0, h);
    if v >= nv {
      MulMonotone(nv, v, h);
    }
    forall u | Compared(u, h, y)
      ensures u == v
    {
      DivUnique(a, h, u);
    }
  }

  /** Row `v` of the whole-screen differ marks tile `j` exactly when some line that is
      compared in it differs in the tile's piece. */
  lemma WholeRowMarks(f: Frame, g: Frame, w: int, h: int, v: int, j: int)
    requires Sized(f, w, h) && Sized(g, w, h) && 0 < h && 0 <= v < VerticalTiles(h)
    requires 0 <= j < NUM_HORIZONTAL_TILES
    ensures WholeRow(f, g, w, h, v)[j] <==> exists y :: 0 <= y < h && Compared(v, h, y) && Diff(f[y], g[y])[j]
  {
    var nv := VerticalTiles(h);
    FirstLineStep(v, h, nv);
    forall y
      ensures FirstLine(v, h, nv) <= y < FirstLine(v + 1, h, nv) <==> Compared(v, h, y)
    {
      ComparedIff(v, h, y);
    }
    if WholeRow(f, g, w, h, v)[j] {
      var y :| FirstLine(v, h, nv) <= y < FirstLine(v + 1, h, nv) && Diff(f[y], g[y])[j];
      assert Compared(v, h, y);
    }
  }

  /* ---------- counters ---------- */

  function SetTiles(r: seq<bool>): set<int> {
    set j | 0 <= j < |r| && r[j]
  }

  lemma {:induction false} SetCountIs(r: seq<bool>)
    ensures SetCount(r) == |SetTiles(r)|
  {
    if r == [] {
      assert SetTiles(r) == {};
    } else {
      var n := |r| - 1;
      SetCountIs(r[..n]);
      assert SetTiles(r) == SetTiles(r[..n]) + (if r[n] then {n} else {});
    }
  }

  /** The pairs of a line of [a, b) and a tile in which it differs. */
  function Pairs(f: Frame, g: Frame, a: int, b: int): set<(int, int)>
    requires 0 <= a && b <= |f| && SameShape(f, g)
  {
    set y, j | a <= y < b && 0 <= j < NUM_HORIZONTAL_TILES && Diff(f[y], g[y])[j] :: (y, j)
  }

  function LinePairs(y: int, tiles: set<int>): set<(int, int)> {
    set j | j in tiles :: (y, j)
  }

  lemma PairsOfLine(y: int, tiles: set<int>)
    ensures |LinePairs(y, tiles)| == |tiles|
    decreases tiles
  {
    if tiles == {} {
      assert LinePairs(y, tiles) == {};
    } else {
      var k := Member(tiles);
      PairsOfLine(y, tiles - {k});
      assert LinePairs(y, tiles) == LinePairs(y, tiles - {k}) + {(y, k)};
    }
  }

  lemma Member<T>(s: set<T>) returns (x: T)
    requires s != {}
    ensures x in s
  {
    x :| x in s;
  }

  lemma PairsSplit(f: Frame, g: Frame, a: int, b: int)
    requires 0 <= a < b <= |f| && SameShape(f, g)
    ensures var last := LinePairs(b - 1, SetTiles(Diff(f[b - 1], g[b - 1])));
      Pairs(f, g, a, b) == Pairs(f, g, a, b - 1) + last && Pairs(f, g, a, b - 1) !! last
  {
  }

  lemma PairsStep(f: Frame, g: Frame, a: int, b: int)
    requires 0 <= a < b <= |f| && SameShape(f, g)
    ensures |Pairs(f, g, a, b)| == |Pairs(f, g, a, b - 1)| + SetCount(Diff(f[b - 1], g[b - 1]))
  {
    var d := Diff(f[b - 1], g[b - 1]);
    SetCountIs(d);
    PairsOfLine(b - 1, SetTiles(d));
    PairsSplit(f, g, a, b);
  }

  /** The whole-screen counter of lines [a, b) is the number of such pairs. */
  lemma {:induction false} LinesCountIs(f: Frame, g: Frame, a: int, b: int)
    requires 0 <= a && b <= |f| && SameShape(f, g)
    ensures LinesCount(f, g, a, b) == |Pairs(f, g, a, b)|
    decreases b - a
  {
    if b <= a {
      NoPairs(f, g, a, b);
    } else {
      LinesCountIs(f, g, a, b - 1);
      PairsStep(f, g, a, b);
    }
  }

  lemma NoPairs(f: Frame, g: Frame, a: int, b: int)
    requires 0 <= a && b <= |f| && SameShape(f, g) && b <= a
    ensures Pairs(f, g, a, b) == {}
  {
  }

  /** The pairs of a line compared in row `v` and a tile in which it differs. */
  function RowPairs(f: Frame, g: Frame, w: int, h: int, v: int): set<(int, int)>
    requires Sized(f, w, h) && Sized(g, w, h)
  {
    set y, j | 0 <= y < h && 0 <= j < NUM_HORIZONTAL_TILES && Compared(v, h, y) && Diff(f[y], g[y])[j] :: (y, j)
  }

  lemma WholeCountIs(f: Frame, g: Frame, w: int, h: int, v: int)
    requires Sized(f, w, h) && Sized(g, w, h) && 0 < h && 0 <= v < VerticalTiles(h)
    ensures WholeCount(f, g, w, h, v) == |RowPairs(f, g, w, h, v)|
  {
    var nv := VerticalTiles(h);
    FirstLineStep(v, h, nv);
    LinesCountIs(f, g, FirstLine(v, h, nv), FirstLine(v + 1, h, nv));
    forall y
      ensures FirstLine(v, h, nv) <= y < FirstLine(v + 1, h, nv) <==> Compared(v, h, y)
    {
      ComparedIff(v, h, y);
    }
    assert RowPairs(f, g, w, h, v) == Pairs(f, g, FirstLine(v, h, nv), FirstLine(v + 1, h, nv));
  }

  /* ---------- growth, promotion and run encoding together ---------- */

  /** `c` is the least row above `r` that the fill rule cannot extend. */
  ghost predicate IsClosure(r: TileRow, c: TileRow) {
    SubRow(r, c) && Closed(c) && forall s: TileRow :: SubRow(r, s) && Closed(s) ==> SubRow(c, s)
  }

  lemma ClosureIs(r: TileRow, c: TileRow)
    requires IsClosure(r, c)
    ensures c == Grow(r)
  {
    GrowIsClosure(r);
    assert SubRow(c, Grow(r)) && SubRow(Grow(r), c);
    assert forall j :: 0 <= j < NUM_HORIZONTAL_TILES ==> c[j] == Grow(r)[j];
  }

  /** A tile is in a reported block exactly when it is in the closure of its row, or
      the counter with the tiles that the closure adds is above the threshold. */
  lemma ReportedTiles(counts: seq<int>, rows: seq<TileRow>, i: int, j: int, c: TileRow)
    requires UpperBounds(counts, rows) && 0 <= i < |rows| && 0 <= j < NUM_HORIZONTAL_TILES && IsClosure(rows[i], c)
    ensures (exists b :: b in ScanSpans(counts, rows) && b.Covers(i, j)) <==>
      c[j] || counts[i] + (SetCount(c) - SetCount(rows[i])) > SCAN_ROW_THRESHOLD
  {
    var gc, gr := GrownCounts(counts, rows), GrownRows(counts, rows);
    ClosureIs(rows[i], c);
    SetCountZero(rows[i]);
    SetCountZero(c);
    SetCountMonotone(rows[i], c);
    CoveredExactlyOnce(gc, gr, i, j);
    CoveredSeq(TileSpans(gc, gr), i, j);
    SelectedIff(counts[i], rows[i], j);
  }

  lemma CoveredSeq(bs: seq<Span>, i: int, j: int)
    ensures (exists b :: b in bs && b.Covers(i, j)) <==> exists k :: 0 <= k < |bs| && bs[k].Covers(i, j)
  {
    if b: Span :| b in bs && b.Covers(i, j) {
      var k :| 0 <= k < |bs| && bs[k] == b;
      assert bs[k].Covers(i, j);
    }
  }

  lemma SelectedIff(count: int, r: TileRow, j: int)
    requires 0 <= j < NUM_HORIZONTAL_TILES && count >= SetCount(r)
    ensures var gc, gr := GrownCount(count, r), GrownRow(count, r);
      (gc == NUM_HORIZONTAL_TILES || (IsPartial(gc) && gr[j])) <==>
        Grow(r)[j] || count + (SetCount(Grow(r)) - SetCount(r)) > SCAN_ROW_THRESHOLD
  {
    SetCountZero(r);
    SetCountZero(Grow(r));
    SetCountMonotone(r, Grow(r));
    if count == 0 {
      EmptyGrows(r);
    }
  }

  lemma EmptyGrows(r: TileRow)
    requires SetCount(r) == 0
    ensures SetCount(Grow(r)) == 0 && forall j :: 0 <= j < NUM_HORIZONTAL_TILES ==> !Grow(r)[j]
  {
    SetCountZero(r);
    assert forall j :: 0 <= j < NUM_HORIZONTAL_TILES ==> !Grow(r)[j];
    SetCountZero(Grow(r));
  }

  /* ---------- one changed pixel, on every screen ---------- */

  lemma CutBeforeShare(w: int, j: int)
    requires 0 <= w && 0 <= j <= NUM_HORIZONTAL_TILES
    ensures DiffCut(w, j) <= Share(j, w)
  {
    if j < NUM_HORIZONTAL_TILES {
      DiffCutIs(w, j);
      MulMonotone(w / 32 * 32, w, j);
      DivExact(j * (w / 32), 32);
      DivMonotone(j * (w / 32) * 32, j * w, 32);
    }
  }

  /** If one pixel of the screen changed, a whole-screen scan reports it exactly when the
      report of its tile does not start to the right of it, and its line is compared
      in the row of tiles it lies in. */
  lemma OnePixelReportedIff(f: Frame, g: Frame, w: int, h: int, p: Point)
    requires 0 < w && 0 < h && Sized(f, w, h) && Sized(g, w, h) && 0 <= p.x < w && 0 <= p.y < h
    requires DifferOnlyAt(f, g, w, h, p)
    ensures PixelReported(WholeSpans(f, g, w, h), w, h, p) <==>
      Share(Left(PieceOf(w, p.x)), w) <= p.x && Compared(p.y / 32, h, p.y)
  {
    var t := PieceOf(w, p.x);
    var v := ComparedOnce(h, p.y);
    PieceOfHolds(w, p.x);
    ComparedIff(v, h, p.y);
    OnePixelWhole(f, g, w, h, p, v);
    var b := Span(v, Left(t), v, Right(t));
    TileRectBounds(b, w, h);
    CutBeforeShare(w, Right(t) + 1);
    PieceEnds(w, t, p.x);
    assert TileRect(b, w, h).Contains(p) <==> Share(Left(t), w) <= p.x && v == p.y / 32;
    OnePixelHasBlock(f, g, w, h, p, v);
  }

  lemma PieceEnds(w: int, t: int, x: int)
    requires 0 <= w && 0 <= t < NUM_HORIZONTAL_TILES && x < DiffCut(w, t + 1)
    ensures x < DiffCut(w, Right(t) + 1) && DiffCut(w, Right(t) + 1) <= w
  {
    DiffCutStep(w, t);
    DiffCutStep(w, Right(t));
  }

  lemma OnePixelHasBlock(f: Frame, g: Frame, w: int, h: int, p: Point, v: int)
    requires 0 < w && 0 < h && Sized(f, w, h) && Sized(g, w, h) && 0 <= p.x < w && 0 <= p.y < h
    requires DifferOnlyAt(f, g, w, h, p) && 0 <= v < VerticalTiles(h) && Compared(v, h, p.y)
    ensures exists b :: b in WholeSpans(f, g, w, h)
  {
    var t := PieceOf(w, p.x);
    DiffAtPixel(f[p.y], g[p.y], p.x);
    WholeRowMarks(f, g, w, h, v, t);
    WholeBounds(f, g, w, h);
    assert Diff(f[p.y], g[p.y])[t];
    var counts, rows := WholeCounts(f, g, w, h), WholeRows(f, g, w, h);
    assert rows[v][t];
    MarkedIsReported(counts, rows, v, t);
    var b :| b in ScanSpans(counts, rows) && b.Covers(v, t);
    assert b in WholeSpans(f, g, w, h);
  }
}
