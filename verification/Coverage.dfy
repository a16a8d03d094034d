/** Does a scan hand every changed pixel it saw to the queue? The differ and the
    reports cut the screen differently, so the answer depends on the screen size. */
module Coverage {
  import opened Arithmetic
  import opened Geometry
  import opened Tiles
  import opened Reports
  import opened Display
  import opened Scanner

  ghost predicate PixelReported(bs: seq<Span>, w: int, h: int, p: Point) {
    exists b :: b in bs && TileRect(b, w, h).Contains(p)
  }

  /* ---------- from marked tiles to reported blocks ---------- */

  ghost predicate UpperBounds(counts: seq<int>, rows: seq<TileRow>) {
    |counts| == |rows| && forall i :: 0 <= i < |rows| ==> counts[i] >= SetCount(rows[i])
  }

  /** Every marked tile is in a reported block, even if the counters are only
      upper bounds; every reported block lies on the grid. */
  lemma MarkedIsReported(counts: seq<int>, rows: seq<TileRow>, i: int, j: int)
    requires UpperBounds(counts, rows)
    requires 0 <= i < |rows| && 0 <= j < NUM_HORIZONTAL_TILES && rows[i][j]
    ensures exists b :: b in ScanSpans(counts, rows) && b.Covers(i, j)
  {
    var gc, gr := GrownCounts(counts, rows), GrownRows(counts, rows);
    SetCountZero(rows[i]);
    GrownCountShape(counts[i], rows[i]);
    GrowIsClosure(rows[i]);
    assert Selected(gc, gr, i, j);
    CoveredExactlyOnce(gc, gr, i, j);
    var k :| 0 <= k < |TileSpans(gc, gr)| && TileSpans(gc, gr)[k].Covers(i, j);
    assert TileSpans(gc, gr)[k] in ScanSpans(counts, rows);
  }

  lemma SpansOnGrid(counts: seq<int>, rows: seq<TileRow>, h: int)
    requires |counts| == |rows| == VerticalTiles(h)
    ensures forall b :: b in ScanSpans(counts, rows) ==> OnGrid(b, h)
    ensures AllApart(ScanSpans(counts, rows))
  {
    var gc, gr := GrownCounts(counts, rows), GrownRows(counts, rows);
    TileSpansExact(gc, gr);
    assert forall b :: b in TileSpans(gc, gr) ==> IsMaximalSpan(gc, gr, b);
  }

  /** Growth carries a single tile next to an edge to the edge. */
  function Left(t: int): int {
    if t == 1 then 0 else t
  }

  function Right(t: int): int {
    if t == NUM_HORIZONTAL_TILES - 2 then NUM_HORIZONTAL_TILES - 1 else t
  }

  lemma GrowSingle(r: TileRow, t: int)
    requires 0 <= t < NUM_HORIZONTAL_TILES && forall j :: 0 <= j < NUM_HORIZONTAL_TILES ==> (r[j] <==> j == t)
    ensures forall j :: 0 <= j < NUM_HORIZONTAL_TILES ==> (Grow(r)[j] <==> Left(t) <= j <= Right(t))
    ensures SetCount(r) == 1 && 1 <= SetCount(Grow(r)) <= 2
  {
    SetCountZero(NO_TILES);
    SetCountUpdate(NO_TILES, t);
    assert r == NO_TILES[t := true];
    if Left(t) != t {
      SetCountUpdate(r, Left(t));
      assert Grow(r) == r[Left(t) := true];
    } else if Right(t) != t {
      SetCountUpdate(r, Right(t));
      assert Grow(r) == r[Right(t) := true];
    } else {
      assert Grow(r) == r;
    }
  }

  /** A single marked tile is reported alone, or with the edge tile it is next to. */
  lemma SingleTileReport(counts: seq<int>, rows: seq<TileRow>, v: int, t: int)
    requires |counts| == |rows| && 0 <= v < |rows| && 0 <= t < NUM_HORIZONTAL_TILES
    requires counts[v] == 1 && forall j :: 0 <= j < NUM_HORIZONTAL_TILES ==> (rows[v][j] <==> j == t)
    requires forall i :: 0 <= i < |rows| && i != v ==> counts[i] == 0
    ensures forall b :: b in ScanSpans(counts, rows) ==> b == Span(v, Left(t), v, Right(t))
  {
    var gc, gr := GrownCounts(counts, rows), GrownRows(counts, rows);
    GrowSingle(rows[v], t);
    assert gr[v] == Grow(rows[v]) && IsPartial(gc[v]);
    assert forall i :: 0 <= i < |gc| && i != v ==> gc[i] == 0;
    TileSpansExact(gc, gr);
    forall b | b in TileSpans(gc, gr)
      ensures b == Span(v, Left(t), v, Right(t))
    {
      assert IsMaximalSpan(gc, gr, b);
      SingleRun(gc, gr, b, v, Left(t), Right(t));
    }
  }

  lemma SingleRun(gc: seq<int>, gr: seq<TileRow>, b: Span, v: int, l: int, r: int)
    requires |gc| == |gr| && 0 <= v < |gr| && 0 <= l <= r < NUM_HORIZONTAL_TILES && IsMaximalSpan(gc, gr, b)
    requires IsPartial(gc[v]) && forall i :: 0 <= i < |gc| && i != v ==> gc[i] == 0
    requires forall j :: 0 <= j < NUM_HORIZONTAL_TILES ==> (gr[v][j] <==> l <= j <= r)
    ensures b == Span(v, l, v, r)
  {
    assert 0 <= b.r0 < |gc|;
    var full := FullRows(gc)[b.r0];
    assert IsMaximalRun(FullRows(gc), Run(b.r0, b.r1)) ==> full;
    assert b.r0 == b.r1 == v;
    var row := gr[v];
    assert row[b.c0] && row[b.c1] && row[l] && row[r];
    assert b.c0 > 0 ==> !row[b.c0 - 1];
    assert b.c1 < NUM_HORIZONTAL_TILES - 1 ==> !row[b.c1 + 1];
  }

  /* ---------- from blocks to pixels ---------- */

  /** The differ and the reports agree on where a column of tiles starts exactly
      when the width leaves a remainder of at most one. */
  lemma ShareIsCut(w: int, j: int)
    requires 0 <= w && w % 32 <= 1 && 0 <= j < NUM_HORIZONTAL_TILES
    ensures Share(j, w) == DiffCut(w, j)
  {
    var q := w / 32;
    DiffCutIs(w, j);
    assert w == 32 * q + w % 32;
    assert j * w == 32 * (j * q) + j * (w % 32);
    if w % 32 == 1 {
      assert j * (w % 32) == j;
    } else {
      assert j * (w % 32) == 0;
    }
  }

  lemma LastShareIsLate(w: int)
    requires 0 < w && w % 32 >= 2
    ensures DiffCut(w, 31) < Share(31, w)
    ensures 0 <= DiffCut(w, 31) < w && PieceOf(w, DiffCut(w, 31)) == 31
  {
    var q := w / 32;
    DiffCutStep(w, 31);
    DiffCutIs(w, 31);
    assert 31 * w == 32 * (31 * q) + 31 * (w % 32);
    if q > 0 {
      DivExact(31, q);
    }
  }

  lemma ShareMonotone(j: int, k: int, w: int)
    requires j <= k && 0 <= w
    ensures Share(j, w) <= Share(k, w)
  {
    MulMonotone(j, k, w);
    DivMonotone(j * w, k * w, 32);
  }

  lemma CoveredPixel(b: Span, w: int, h: int, i: int, j: int, p: Point)
    requires 0 < w && 0 < h && w % 32 <= 1 && OnGrid(b, h) && b.Covers(i, j)
    requires 32 * i <= p.y < 32 * (i + 1) && p.y < h
    requires DiffCut(w, j) <= p.x < DiffCut(w, j + 1)
    ensures TileRect(b, w, h).Contains(p)
  {
    TileRectBounds(b, w, h);
    ShareMonotone(b.c0, j, w);
    ShareIsCut(w, j);
    if b.c1 < NUM_HORIZONTAL_TILES - 1 {
      ShareIsCut(w, j + 1);
      ShareMonotone(j + 1, b.c1 + 1, w);
    } else {
      DiffCutStep(w, j);
    }
  }

  /* ---------- periodic scan ---------- */

  lemma PeriodicCounts(shadow: Frame, lines: seq<Option<seq<Pixel>>>, offset: int, w: int, h: int)
    requires Sized(shadow, w, h) && LinesFit(lines, w, h) && 0 <= offset
    ensures UpperBounds(SetCounts(PeriodicRows(shadow, lines, offset, w, h)), PeriodicRows(shadow, lines, offset, w, h))
  {
  }

  /** Periodic coverage: when the width leaves a remainder of at most one, every
      pixel of an examined line that differs from the shadow lies in a pushed
      rectangle, for every height. */
  lemma PeriodicCoverage(shadow: Frame, lines: seq<Option<seq<Pixel>>>, offset: int, w: int, h: int, i: int, x: int)
    requires 0 < w && 0 < h && Sized(shadow, w, h) && LinesFit(lines, w, h) && 0 <= offset < NUM_SCANLINES
    requires w % 32 <= 1
    requires 0 <= i < |lines| && ExaminedLine(offset, i) < h && lines[i].Some?
    requires 0 <= x < w && shadow[ExaminedLine(offset, i)][x] != lines[i].value[x]
    ensures PixelReported(PeriodicSpans(shadow, lines, offset, w, h), w, h, Point(x, ExaminedLine(offset, i)))
  {
    var y := ExaminedLine(offset, i);
    var rows := PeriodicRows(shadow, lines, offset, w, h);
    DiffAtPixel(shadow[y], lines[i].value, x);
    PieceOfHolds(w, x);
    var j := PieceOf(w, x);
    assert rows[i] == Diff(shadow[y], lines[i].value);
    PeriodicCounts(shadow, lines, offset, w, h);
    MarkedIsReported(SetCounts(rows), rows, i, j);
    SpansOnGrid(SetCounts(rows), rows, h);
    var b :| b in ScanSpans(SetCounts(rows), rows) && b.Covers(i, j);
    CoveredPixel(b, w, h, i, j, Point(x, y));
  }

  /* ---------- whole-screen scan ---------- */

  predicate RowsAgree(h: int) {
    h % 32 == 0 || h < NUM_SCANLINES
  }

  /** The differ's line ranges are the reports' row ranges when 32 divides the
      height, or there is only one row. */
  lemma FirstLineIsRow(h: int, v: int)
    requires 0 < h && RowsAgree(h) && 0 <= v < VerticalTiles(h)
    ensures FirstLine(v, h, VerticalTiles(h)) == 32 * v
    ensures FirstLine(v + 1, h, VerticalTiles(h)) == if 32 * (v + 1) <= h then 32 * (v + 1) else h
  {
    var nv := VerticalTiles(h);
    if h % 32 == 0 {
      assert h == 32 * nv;
      assert v * h == (32 * v) * nv && (v + 1) * h == (32 * (v + 1)) * nv;
      DivExact(32 * v, nv);
      DivExact(32 * (v + 1), nv);
    } else {
      assert nv == 1 && v == 0;
    }
  }

  /** Otherwise the last range starts too early. */
  lemma LastFirstLineIsEarly(h: int)
    requires 0 < h && !RowsAgree(h)
    ensures var nv := VerticalTiles(h);
      0 <= FirstLine(nv - 1, h, nv) < 32 * (nv - 1) && FirstLine(nv - 1, h, nv) < FirstLine(nv, h, nv) == h
  {
    var nv := VerticalTiles(h);
    var q := FirstLine(nv - 1, h, nv);
    FirstLineStep(nv - 1, h, nv);
    DivExact(h, nv);
    DivBounds((nv - 1) * h, nv);
    if q >= 32 * (nv - 1) {
      MulMonotone(32 * (nv - 1), q, nv);
      assert (32 * (nv - 1)) * nv == (nv - 1) * (32 * nv);
      assert (nv - 1) * h == (nv - 1) * (32 * nv) - (nv - 1) * (32 * nv - h);
      MulMonotone(1, nv - 1, 32 * nv - h);
    }
  }

  lemma WholeBounds(shadow: Frame, image: Frame, w: int, h: int)
    requires Sized(shadow, w, h) && Sized(image, w, h) && 0 < h
    ensures UpperBounds(WholeCounts(shadow, image, w, h), WholeRows(shadow, image, w, h))
  {
    var nv := VerticalTiles(h);
    forall v | 0 <= v < nv
      ensures WholeCount(shadow, image, w, h, v) >= SetCount(WholeRow(shadow, image, w, h, v))
    {
      FirstLineStep(v, h, nv);
      LinesCountBound(shadow, image, FirstLine(v, h, nv), FirstLine(v + 1, h, nv));
    }
  }

  ghost predicate WholeCovered(shadow: Frame, image: Frame, w: int, h: int)
    requires Sized(shadow, w, h) && Sized(image, w, h) && 0 < h
  {
    forall x, y :: 0 <= x < w && 0 <= y < h && shadow[y][x] != image[y][x] ==>
      PixelReported(WholeSpans(shadow, image, w, h), w, h, Point(x, y))
  }

  lemma WholeCoverage(shadow: Frame, image: Frame, w: int, h: int)
    requires 0 < w && 0 < h && Sized(shadow, w, h) && Sized(image, w, h)
    requires w % 32 <= 1 && RowsAgree(h)
    ensures WholeCovered(shadow, image, w, h)
  {
    var counts, rows := WholeCounts(shadow, image, w, h), WholeRows(shadow, image, w, h);
    WholeBounds(shadow, image, w, h);
    SpansOnGrid(counts, rows, h);
    forall x, y | 0 <= x < w && 0 <= y < h && shadow[y][x] != image[y][x]
      ensures PixelReported(WholeSpans(shadow, image, w, h), w, h, Point(x, y))
    {
      var v, j := y / 32, PieceOf(w, x);
      FirstLineIsRow(h, v);
      DiffAtPixel(shadow[y], image[y], x);
      PieceOfHolds(w, x);
      assert TileMarked(shadow, image, FirstLine(v, h, VerticalTiles(h)), FirstLine(v + 1, h, VerticalTiles(h)), j);
      assert rows[v][j];
      MarkedIsReported(counts, rows, v, j);
      var b :| b in ScanSpans(counts, rows) && b.Covers(v, j);
      CoveredPixel(b, w, h, v, j, Point(x, y));
    }
  }

  /* ---------- one changed pixel ---------- */

  /** The two frames differ in exactly the pixel `p`. */
  ghost predicate DifferOnlyAt(f: Frame, g: Frame, w: int, h: int, p: Point)
    requires Sized(f, w, h) && Sized(g, w, h)
  {
    forall x, y :: 0 <= x < w && 0 <= y < h ==> (f[y][x] != g[y][x] <==> Point(x, y) == p)
  }

  lemma OnePixelLine(f: Frame, g: Frame, w: int, h: int, p: Point, y: int)
    requires Sized(f, w, h) && Sized(g, w, h) && 0 <= p.x < w && 0 <= p.y < h && 0 <= y < h
    requires DifferOnlyAt(f, g, w, h, p)
    ensures y != p.y ==> f[y] == g[y] && Diff(f[y], g[y]) == NO_TILES
    ensures y == p.y ==> forall j :: 0 <= j < NUM_HORIZONTAL_TILES ==> (Diff(f[y], g[y])[j] <==> j == PieceOf(w, p.x))
    ensures SetCount(Diff(f[y], g[y])) == if y == p.y then 1 else 0
  {
    PieceOfHolds(w, p.x);
    var t := PieceOf(w, p.x);
    forall j | 0 <= j < NUM_HORIZONTAL_TILES
      ensures Diff(f[y], g[y])[j] <==> y == p.y && j == t
    {
      DiffExact(f[y], g[y], j);
      if y == p.y && j == t {
        assert f[y][p.x] != g[y][p.x];
      } else {
        forall x | DiffCut(w, j) <= x < DiffCut(w, j + 1)
          ensures f[y][x] == g[y][x]
        {
          if y == p.y {
            PiecesDisjoint(w, j, t, x, p.x);
          }
        }
      }
    }
    SetCountZero(NO_TILES);
    if y == p.y {
      SetCountUpdate(NO_TILES, t);
      assert Diff(f[y], g[y]) == NO_TILES[t := true];
    } else {
      assert Diff(f[y], g[y]) == NO_TILES;
    }
  }

  lemma PiecesDisjoint(w: int, j: int, t: int, x: int, z: int)
    requires 0 <= w && 0 <= j < NUM_HORIZONTAL_TILES && 0 <= t < NUM_HORIZONTAL_TILES && j != t
    requires DiffCut(w, j) <= x < DiffCut(w, j + 1) && DiffCut(w, t) <= z < DiffCut(w, t + 1)
    ensures x != z
  {
    var a, b := if j < t then j else t, if j < t then t else j;
    DiffCutStep(w, a);
    DiffCutIs(w, a);
    DiffCutIs(w, b);
    MulAdd(a, 1, w / 32);
    MulMonotone(a + 1, b, w / 32);
  }

  lemma {:induction false} OnePixelCount(f: Frame, g: Frame, w: int, h: int, p: Point, a: int, b: int)
    requires Sized(f, w, h) && Sized(g, w, h) && 0 <= p.x < w && 0 <= p.y < h && 0 <= a && b <= h
    requires DifferOnlyAt(f, g, w, h, p)
    ensures LinesCount(f, g, a, b) == if a <= p.y < b then 1 else 0
    decreases b - a
  {
    if a >= b {
    } else {
      OnePixelCount(f, g, w, h, p, a, b - 1);
      OnePixelLine(f, g, w, h, p, b - 1);
    }
  }

  /** If only pixel `p` changed, a whole-screen scan reports just the tile the differ puts
      it in, and the edge tile if that is next to it. */
  lemma OnePixelWhole(f: Frame, g: Frame, w: int, h: int, p: Point, v: int)
    requires 0 < w && 0 < h && Sized(f, w, h) && Sized(g, w, h) && 0 <= p.x < w && 0 <= p.y < h
    requires DifferOnlyAt(f, g, w, h, p)
    requires 0 <= v < VerticalTiles(h) &&
      FirstLine(v, h, VerticalTiles(h)) <= p.y < FirstLine(v + 1, h, VerticalTiles(h))
    requires 0 <= PieceOf(w, p.x) < NUM_HORIZONTAL_TILES
    ensures forall b :: b in WholeSpans(f, g, w, h) ==> b == Span(v, Left(PieceOf(w, p.x)), v, Right(PieceOf(w, p.x)))
  {
    var nv, t := VerticalTiles(h), PieceOf(w, p.x);
    var counts, rows := WholeCounts(f, g, w, h), WholeRows(f, g, w, h);
    forall k | 0 <= k < nv
      ensures counts[k] == if k == v then 1 else 0
    {
      FirstLineStep(k, h, nv);
      OnePixelCount(f, g, w, h, p, FirstLine(k, h, nv), FirstLine(k + 1, h, nv));
      if k < v {
        FirstLineMonotone(k + 1, v, h, nv);
      } else if k > v {
        FirstLineMonotone(v + 1, k, h, nv);
      }
    }
    forall j | 0 <= j < NUM_HORIZONTAL_TILES
      ensures rows[v][j] <==> j == t
    {
      FirstLineStep(v, h, nv);
      forall y | 0 <= y < h
        ensures Diff(f[y], g[y])[j] <==> y == p.y && j == t
      {
        OnePixelLine(f, g, w, h, p, y);
      }
    }
    SingleTileReport(counts, rows, v, t);
  }

  lemma FirstLineMonotone(k: int, v: int, h: int, nv: int)
    requires 0 <= k <= v && 0 < h && 0 < nv
    ensures FirstLine(k, h, nv) <= FirstLine(v, h, nv)
  {
    MulMonotone(k, v, h);
    DivMonotone(k * h, v * h, nv);
  }

  /** A black frame, and one with a single white pixel. */
  function Black(w: int, h: int): (f: Frame)
    requires 0 <= w && 0 <= h
    ensures Sized(f, w, h) && forall x, y :: 0 <= x < w && 0 <= y < h ==> f[y][x] == 0
  {
    seq(h, y => seq(w, x => 0))
  }

  function Dot(w: int, h: int, p: Point): (f: Frame)
    requires 0 <= p.x < w && 0 <= p.y < h
    ensures Sized(f, w, h) && DifferOnlyAt(Black(w, h), f, w, h, p)
  {
    var b := Black(w, h);
    b[p.y := b[p.y][p.x := 1]]
  }

  /** Whole-screen coverage holds for all screen contents exactly when the width
      leaves a remainder of at most one and 32 divides the height (or the screen
      is a single row of tiles). */
  lemma WholeCoverageIff(w: int, h: int)
    requires 0 < w && 0 < h
    ensures (forall f: Frame, g: Frame :: Sized(f, w, h) && Sized(g, w, h) ==> WholeCovered(f, g, w, h))
      <==> (w % 32 <= 1 && RowsAgree(h))
  {
    if w % 32 <= 1 && RowsAgree(h) {
      forall f: Frame, g: Frame | Sized(f, w, h) && Sized(g, w, h)
        ensures WholeCovered(f, g, w, h)
      {
        WholeCoverage(f, g, w, h);
      }
    } else {
      MissedPixel(w, h);
    }
  }

  lemma MissedPixel(w: int, h: int)
    requires 0 < w && 0 < h && !(w % 32 <= 1 && RowsAgree(h))
    ensures exists f: Frame, g: Frame :: Sized(f, w, h) && Sized(g, w, h) && !WholeCovered(f, g, w, h)
  {
    var nv := VerticalTiles(h);
    var p, v;
    if w % 32 >= 2 {
      LastShareIsLate(w);
      p, v := Point(DiffCut(w, 31), 0), 0;
      FirstLineStep(0, h, nv);
      DivMonotone(nv, h, nv);
      DivExact(1, nv);
    } else {
      LastFirstLineIsEarly(h);
      p, v := Point(0, FirstLine(nv - 1, h, nv)), nv - 1;
      PieceOfZero(w);
    }
    var f, g := Black(w, h), Dot(w, h, p);
    OnePixelWhole(f, g, w, h, p, v);
    var t := PieceOf(w, p.x);
    TileRectBounds(Span(v, t, v, t), w, h);
    assert !PixelReported(WholeSpans(f, g, w, h), w, h, p);
    assert f[p.y][p.x] != g[p.y][p.x];
    assert !WholeCovered(f, g, w, h);
  }

  lemma PieceOfZero(w: int)
    requires 0 < w
    ensures PieceOf(w, 0) == 0 || PieceOf(w, 0) == NUM_HORIZONTAL_TILES - 1
  {
  }
}
