/** The shadow framebuffer of src/display.c: comparing screen lines with it tile
    by tile, and copying screen images into it. */
module Display {
  import opened Arithmetic
  import opened Geometry
  import opened Tiles

  /* ---------- which tiles of a line differ ---------- */

  /** The differ cuts a line of `w` pixels into 32 pieces of floor(w/32) pixels;
      the last piece takes the rest. */
  function DiffCut(w: int, i: int): int
    requires 0 <= i <= NUM_HORIZONTAL_TILES
  {
    if i == NUM_HORIZONTAL_TILES then w else Times(w / 32, i)
  }

  lemma DiffCutStep(w: int, i: int)
    requires 0 <= w && 0 <= i < NUM_HORIZONTAL_TILES
    ensures 0 <= DiffCut(w, i) <= DiffCut(w, i + 1) <= w
    ensures i < NUM_HORIZONTAL_TILES - 1 ==> DiffCut(w, i + 1) == DiffCut(w, i) + w / 32
  {
    var q := w / 32;
    TimesIs(q, i);
    TimesIs(q, i + 1);
    MulMonotone(0, i, q);
    MulMonotone(i, 31, q);
    MulMonotone(i + 1, 32, q);
  }

  lemma DiffCutIs(w: int, i: int)
    requires 0 <= i < NUM_HORIZONTAL_TILES
    ensures DiffCut(w, i) == i * (w / 32)
  {
    TimesIs(w / 32, i);
  }

  /** The `i`-th piece of a line. */
  function Piece(line: seq<Pixel>, i: int): seq<Pixel>
    requires 0 <= i < NUM_HORIZONTAL_TILES
  {
    DiffCutStep(|line|, i);
    line[DiffCut(|line|, i)..DiffCut(|line|, i + 1)]
  }

  /** The tiles in which two lines differ. */
  function Diff(oldPixels: seq<Pixel>, newPixels: seq<Pixel>): TileRow
    requires |oldPixels| == |newPixels|
  {
    seq(NUM_HORIZONTAL_TILES, i requires 0 <= i < NUM_HORIZONTAL_TILES => Piece(oldPixels, i) != Piece(newPixels, i))
  }

  lemma DiffExact(oldPixels: seq<Pixel>, newPixels: seq<Pixel>, i: int)
    requires |oldPixels| == |newPixels| && 0 <= i < NUM_HORIZONTAL_TILES
    ensures 0 <= DiffCut(|oldPixels|, i) <= DiffCut(|oldPixels|, i + 1) <= |oldPixels|
    ensures Diff(oldPixels, newPixels)[i] <==>
      exists x :: DiffCut(|oldPixels|, i) <= x < DiffCut(|oldPixels|, i + 1) && oldPixels[x] != newPixels[x]
  {
    DiffCutStep(|oldPixels|, i);
    var a, b := DiffCut(|oldPixels|, i), DiffCut(|oldPixels|, i + 1);
    if oldPixels[a..b] != newPixels[a..b] {
      var k :| 0 <= k < b - a && oldPixels[a..b][k] != newPixels[a..b][k];
      assert oldPixels[a + k] != newPixels[a + k];
    } else {
      forall x | a <= x < b
        ensures oldPixels[x] == newPixels[x]
      {
        assert oldPixels[a..b][x - a] == newPixels[a..b][x - a];
      }
    }
  }

  /** The piece that holds column `x`. */
  function PieceOf(w: int, x: int): int {
    if w / 32 == 0 || x / (w / 32) >= NUM_HORIZONTAL_TILES - 1
    then NUM_HORIZONTAL_TILES - 1 else x / (w / 32)
  }

  lemma PieceOfHolds(w: int, x: int)
    requires 0 <= x < w
    ensures 0 <= PieceOf(w, x) < NUM_HORIZONTAL_TILES
    ensures DiffCut(w, PieceOf(w, x)) <= x < DiffCut(w, PieceOf(w, x) + 1)
  {
    DiffCutStep(w, 31);
    DiffCutIs(w, 31);
    var q := w / 32;
    if q > 0 {
      var t := x / q;
      DivBounds(x, q);
      MulAdd(t, 1, q);
      if t >= 31 {
        MulMonotone(31, t, q);
      } else {
        assert t >= 0 by {
          DivMonotone(0, x, q);
        }
        DiffCutStep(w, t);
        DiffCutIs(w, t);
      }
    }
  }

  /** A differing pixel marks its tile, and a marked tile holds one. */
  lemma DiffAtPixel(oldPixels: seq<Pixel>, newPixels: seq<Pixel>, x: int)
    requires |oldPixels| == |newPixels| && 0 <= x < |oldPixels| && oldPixels[x] != newPixels[x]
    ensures 0 <= PieceOf(|oldPixels|, x) < NUM_HORIZONTAL_TILES && Diff(oldPixels, newPixels)[PieceOf(|oldPixels|, x)]
  {
    PieceOfHolds(|oldPixels|, x);
    DiffExact(oldPixels, newPixels, PieceOf(|oldPixels|, x));
  }

  function OrRow(a: TileRow, b: TileRow): TileRow {
    seq(NUM_HORIZONTAL_TILES, j requires 0 <= j < NUM_HORIZONTAL_TILES => a[j] || b[j])
  }

  /* ---------- whole-screen comparison ---------- */

  function FirstLine(v: int, h: int, nv: int): int
    requires nv > 0
  {
    v * h / nv
  }

  lemma FirstLineStep(v: int, h: int, nv: int)
    requires 0 <= v < nv && 0 < h
    ensures 0 <= FirstLine(v, h, nv) <= FirstLine(v + 1, h, nv) <= h
  {
    MulMonotone(0, v, h);
    MulMonotone(v, v + 1, h);
    MulMonotone(v + 1, nv, h);
    DivMonotone(0, v * h, nv);
    DivMonotone(v * h, (v + 1) * h, nv);
    DivMonotone((v + 1) * h, nv * h, nv);
    DivExact(h, nv);
  }

  predicate SameShape(f: Frame, g: Frame) {
    |f| == |g| && forall y :: 0 <= y < |f| ==> |f[y]| == |g[y]|
  }

  /** Some line of [a, b) differs in tile `j`. */
  ghost predicate TileMarked(shadow: Frame, image: Frame, a: int, b: int, j: int)
    requires 0 <= a && b <= |shadow|
    requires SameShape(shadow, image)
    requires 0 <= j < NUM_HORIZONTAL_TILES
  {
    exists y :: a <= y < b && Diff(shadow[y], image[y])[j]
  }

  /** The tiles marked, and the (line, tile) pairs counted, over lines [a, b). */
  ghost function LinesMarked(shadow: Frame, image: Frame, a: int, b: int): TileRow
    requires 0 <= a && b <= |shadow|
    requires SameShape(shadow, image)
  {
    seq(NUM_HORIZONTAL_TILES, j requires 0 <= j < NUM_HORIZONTAL_TILES => TileMarked(shadow, image, a, b, j))
  }

  lemma LinesMarkedStep(shadow: Frame, image: Frame, a: int, b: int)
    requires 0 <= a <= b < |shadow|
    requires SameShape(shadow, image)
    ensures LinesMarked(shadow, image, a, b + 1) ==
      OrRow(LinesMarked(shadow, image, a, b), Diff(shadow[b], image[b]))
  {
    var d := Diff(shadow[b], image[b]);
    var before, after := LinesMarked(shadow, image, a, b), LinesMarked(shadow, image, a, b + 1);
    forall j | 0 <= j < NUM_HORIZONTAL_TILES
      ensures after[j] == (before[j] || d[j])
    {
      if d[j] {
        assert Diff(shadow[b], image[b])[j];
      }
      if before[j] {
        var y :| a <= y < b && Diff(shadow[y], image[y])[j];
        assert TileMarked(shadow, image, a, b + 1, j);
      }
    }
  }

  function LinesCount(shadow: Frame, image: Frame, a: int, b: int): nat
    requires 0 <= a && b <= |shadow|
    requires SameShape(shadow, image)
    decreases b - a
  {
    if b <= a then 0
    else LinesCount(shadow, image, a, b - 1) + SetCount(Diff(shadow[b - 1], image[b - 1]))
  }

  lemma {:induction false} SetCountOr(a: seq<bool>, b: seq<bool>, c: seq<bool>)
    requires |a| == |b| == |c| && forall j :: 0 <= j < |a| ==> c[j] == (a[j] || b[j])
    ensures SetCount(c) <= SetCount(a) + SetCount(b)
  {
    if a == [] {
    } else {
      SetCountOr(a[..|a| - 1], b[..|b| - 1], c[..|c| - 1]);
    }
  }

  /** The counter of the whole-screen comparison counts (line, tile) pairs, so
      it is only an upper bound on the number of marked tiles. */
  lemma {:induction false} LinesCountBound(shadow: Frame, image: Frame, a: int, b: int)
    requires 0 <= a && b <= |shadow|
    requires SameShape(shadow, image)
    ensures LinesCount(shadow, image, a, b) >= SetCount(LinesMarked(shadow, image, a, b))
    decreases b - a
  {
    if b <= a {
      SetCountZero(LinesMarked(shadow, image, a, b));
    } else {
      LinesCountBound(shadow, image, a, b - 1);
      LinesMarkedStep(shadow, image, a, b - 1);
      SetCountOr(LinesMarked(shadow, image, a, b - 1), Diff(shadow[b - 1], image[b - 1]),
        LinesMarked(shadow, image, a, b));
    }
  }

  /* ---------- images ---------- */

  lemma {:induction false} RowsDisjoint(w: int, y: nat, z: nat)
    requires 0 <= w && y < z
    ensures 0 <= Times(w, y) && Times(w, y) + w <= Times(w, z)
    decreases z
  {
    if y < z - 1 {
      RowsDisjoint(w, y, z - 1);
    } else if y > 0 {
      RowsDisjoint(w, 0, y);
    }
  }

  lemma RowFits(w: int, h: int, y: int)
    requires 0 <= w && 0 <= y < h
    ensures 0 <= Times(w, y) && Times(w, y) + w <= w * h
  {
    RowsDisjoint(w, y, h);
    TimesIs(w, h);
  }

  /** Pixel memory seen as rows. */
  function RowsOf(data: seq<Pixel>, w: int, h: int): (f: Frame)
    requires 0 <= w && 0 <= h && |data| == w * h
    ensures Sized(f, w, h)
  {
    seq(h, y requires 0 <= y < h => Line(data, w, h, y))
  }

  function Line(data: seq<Pixel>, w: int, h: int, y: int): (line: seq<Pixel>)
    requires 0 <= w && 0 <= y < h && |data| == w * h
    ensures |line| == w
  {
    RowFits(w, h, y);
    data[Times(w, y)..Times(w, y) + w]
  }

  /** The frame `f` with the image `img` laid over rectangle `r`. */
  function Pasted(f: Frame, r: Rect, img: Frame): Frame
    requires Sized(img, r.w, r.h)
  {
    seq(|f|, y requires 0 <= y < |f| => PastedLine(f[y], y, r, img))
  }

  function PastedLine(line: seq<Pixel>, y: int, r: Rect, img: Frame): (g: seq<Pixel>)
    requires Sized(img, r.w, r.h)
    ensures |g| == |line|
  {
    seq(|line|, x requires 0 <= x < |line| =>
      if r.Contains(Point(x, y)) then img[y - r.y][x - r.x] else line[x])
  }

  lemma PastedLineParts(line: seq<Pixel>, y: int, r: Rect, img: Frame, w: int)
    requires |line| == w && 0 <= r.x && 0 <= r.w && r.x + r.w <= w && Sized(img, r.w, r.h)
    ensures r.y <= y < r.y + r.h ==> PastedLine(line, y, r, img) == line[..r.x] + img[y - r.y] + line[r.x + r.w..]
    ensures !(r.y <= y < r.y + r.h) ==> PastedLine(line, y, r, img) == line
  {
  }

  lemma PastedElsewhere(f: Frame, r: Rect, img: Frame, w: int, h: int)
    requires Sized(f, w, h) && r.Within(w, h) && Sized(img, r.w, r.h)
    ensures forall y :: 0 <= y < h && !(r.y <= y < r.y + r.h) ==> Pasted(f, r, img)[y] == f[y]
  {
    forall y | 0 <= y < h && !(r.y <= y < r.y + r.h)
      ensures Pasted(f, r, img)[y] == f[y]
    {
      PastedLineParts(f[y], y, r, img, w);
    }
  }

  /** What the X server returns for a rectangle of the screen. */
  function Crop(screen: Frame, r: Rect, w: int, h: int): Frame
    requires Sized(screen, w, h) && r.Within(w, h)
  {
    seq(r.h, j requires 0 <= j < r.h => screen[r.y + j][r.x..r.x + r.w])
  }

  /** The frame `f` with rectangle `r` refreshed from the screen. */
  function Refreshed(f: Frame, r: Rect, screen: Frame, w: int, h: int): (g: Frame)
    requires Sized(f, w, h) && Sized(screen, w, h)
    ensures Sized(g, w, h)
  {
    seq(h, y requires 0 <= y < h => RefreshedLine(f[y], y, r, screen[y]))
  }

  function RefreshedLine(line: seq<Pixel>, y: int, r: Rect, now: seq<Pixel>): (g: seq<Pixel>)
    requires |line| == |now|
    ensures |g| == |line|
  {
    seq(|line|, x requires 0 <= x < |line| => if r.Contains(Point(x, y)) then now[x] else line[x])
  }

  lemma PastedCrop(f: Frame, r: Rect, screen: Frame, w: int, h: int)
    requires Sized(f, w, h) && Sized(screen, w, h) && r.Within(w, h)
    ensures Pasted(f, r, Crop(screen, r, w, h)) == Refreshed(f, r, screen, w, h)
  {
    var p, g := Pasted(f, r, Crop(screen, r, w, h)), Refreshed(f, r, screen, w, h);
    forall y | 0 <= y < h
      ensures p[y] == g[y]
    {
      assert forall x :: 0 <= x < w ==> p[y][x] == g[y][x];
    }
  }

  /** The outcome of grabbing the whole screen into a new image. */
  datatype Grab = NoImage | ReadFailed | Grabbed(w: int, h: int, data: seq<Pixel>)

  predicate ValidGrab(g: Grab) {
    g.Grabbed? ==> 0 <= g.w && 0 <= g.h && |g.data| == g.w * g.h
  }

  /** A piece of a line, found where the line starts in memory. */
  lemma PieceInMemory(data: seq<Pixel>, start: int, line: seq<Pixel>, i: int)
    requires 0 <= start && start + |line| <= |data| && line == data[start..start + |line|]
    requires 0 <= i < NUM_HORIZONTAL_TILES
    ensures 0 <= DiffCut(|line|, i) <= DiffCut(|line|, i + 1) <= |line|
    ensures data[start + DiffCut(|line|, i)..start + DiffCut(|line|, i + 1)] == Piece(line, i)
  {
    DiffCutStep(|line|, i);
    SliceOfSlice(data, start, |line|, DiffCut(|line|, i), DiffCut(|line|, i + 1));
  }

  lemma SliceOfSlice(data: seq<Pixel>, start: int, n: int, a: int, b: int)
    requires 0 <= start && start + n <= |data| && 0 <= a <= b <= n
    ensures data[start..start + n][a..b] == data[start + a..start + b]
  {
    var line := data[start..start + n];
    assert forall k :: 0 <= k < b - a ==> line[a..b][k] == line[a + k] == data[start + a + k];
  }

  /** The tile loop shared by the two differs: compares the `w` pixels at `at0`
      in one pixel memory with those at `from0` in another, marks the tiles that
      differ in row `v` of `tiles` and counts them. */
  method MarkChangedTiles(oldPixels: seq<Pixel>, at0: int, newPixels: seq<Pixel>, from0: int, w: int,
    tiles: array2<bool>, v: int) returns (n: int)
    requires 0 < w && 0 <= at0 && at0 + w <= |oldPixels| && 0 <= from0 && from0 + w <= |newPixels|
    requires tiles.Length1 == NUM_HORIZONTAL_TILES && 0 <= v < tiles.Length0
    modifies tiles
    ensures n == SetCount(Diff(oldPixels[at0..at0 + w], newPixels[from0..from0 + w]))
    ensures RowOf(tiles, v) == OrRow(old(RowOf(tiles, v)), Diff(oldPixels[at0..at0 + w], newPixels[from0..from0 + w]))
    ensures forall k, j :: 0 <= k < tiles.Length0 && k != v && 0 <= j < NUM_HORIZONTAL_TILES ==>
      tiles[k, j] == old(tiles[k, j])
  {
    ghost var shadow, line := oldPixels[at0..at0 + w], newPixels[from0..from0 + w];
    ghost var d := Diff(shadow, line);
    ghost var was := RowOf(tiles, v);
    ghost var goal := OrRow(was, d);
    var at, from, len := at0, from0, w / 32;
    n := 0;
    var i := 0;
    while i < NUM_HORIZONTAL_TILES
      invariant 0 <= i <= NUM_HORIZONTAL_TILES
      invariant i < NUM_HORIZONTAL_TILES ==> len == w / 32
      invariant at == at0 + DiffCut(w, i) && from == from0 + DiffCut(w, i)
      invariant n == SetCount(d[..i])
      invariant forall j :: 0 <= j < i ==> tiles[v, j] == goal[j]
      invariant forall j :: i <= j < NUM_HORIZONTAL_TILES ==> tiles[v, j] == was[j]
      invariant forall k, j :: 0 <= k < tiles.Length0 && k != v && 0 <= j < NUM_HORIZONTAL_TILES ==>
        tiles[k, j] == old(tiles[k, j])
    {
      if i == NUM_HORIZONTAL_TILES - 1 {
        DiffCutIs(w, i);
        len := w - i * len;
      }
      PieceDiffers(oldPixels, at0, newPixels, from0, w, i, len);
      n := MarkTile(oldPixels[at..at + len] != newPixels[from..from + len], tiles, v, i, n, d);
      i, at, from := i + 1, at + len, from + len;
    }
    assert d[..NUM_HORIZONTAL_TILES] == d;
  }

  /** Marks and counts tile `i` of row `v` if it differs. */
  method MarkTile(differs: bool, tiles: array2<bool>, v: int, i: int, count: int, ghost d: TileRow) returns (n: int)
    requires tiles.Length1 == NUM_HORIZONTAL_TILES && 0 <= v < tiles.Length0 && 0 <= i < NUM_HORIZONTAL_TILES
    requires differs == d[i] && count == SetCount(d[..i])
    modifies tiles
    ensures n == SetCount(d[..i + 1])
    ensures tiles[v, i] == (old(tiles[v, i]) || d[i])
    ensures forall k, j :: 0 <= k < tiles.Length0 && 0 <= j < NUM_HORIZONTAL_TILES && (k != v || j != i) ==>
      tiles[k, j] == old(tiles[k, j])
  {
    SetCountStep(d, i);
    n := count;
    if differs {
      n := n + 1;
      tiles[v, i] := true;
    }
  }

  /** A piece of `len` pixels differs in memory exactly when its tile differs. */
  lemma PieceDiffers(oldPixels: seq<Pixel>, at0: int, newPixels: seq<Pixel>, from0: int, w: int, i: int, len: int)
    requires 0 < w && 0 <= at0 && at0 + w <= |oldPixels| && 0 <= from0 && from0 + w <= |newPixels|
    requires 0 <= i < NUM_HORIZONTAL_TILES
    requires len == if i == NUM_HORIZONTAL_TILES - 1 then w - DiffCut(w, i) else w / 32
    ensures 0 <= DiffCut(w, i) && 0 <= len && DiffCut(w, i) + len == DiffCut(w, i + 1) <= w
    ensures var at, from := at0 + DiffCut(w, i), from0 + DiffCut(w, i);
      Diff(oldPixels[at0..at0 + w], newPixels[from0..from0 + w])[i] <==>
        oldPixels[at..at + len] != newPixels[from..from + len]
  {
    DiffCutStep(w, i);
    PieceInMemory(oldPixels, at0, oldPixels[at0..at0 + w], i);
    PieceInMemory(newPixels, from0, newPixels[from0..from0 + w], i);
  }

  lemma SameLineNoDiff(line: seq<Pixel>, r: TileRow)
    ensures SetCount(Diff(line, line)) == 0
    ensures OrRow(r, Diff(line, line)) == r
  {
    SetCountZero(Diff(line, line));
  }

  lemma OrNone(r: TileRow)
    ensures OrRow(NO_TILES, r) == r
  {
  }

  /** Compares line `y` of a pixel memory with the line at `from` in another, and
      adds the tiles that differ to row `v`. Equal lines are skipped at once. */
  method CompareLine(oldPixels: seq<Pixel>, w: int, h: int, y: int, newPixels: seq<Pixel>, from: int,
    tiles: array2<bool>, v: int) returns (n: int)
    requires 0 < w && 0 <= y < h && |oldPixels| == w * h && 0 <= from && from + w <= |newPixels|
    requires tiles.Length1 == NUM_HORIZONTAL_TILES && 0 <= v < tiles.Length0
    modifies tiles
    ensures n == SetCount(Diff(Line(oldPixels, w, h, y), newPixels[from..from + w]))
    ensures RowOf(tiles, v) == OrRow(old(RowOf(tiles, v)), Diff(Line(oldPixels, w, h, y), newPixels[from..from + w]))
    ensures forall k, j :: 0 <= k < tiles.Length0 && k != v && 0 <= j < NUM_HORIZONTAL_TILES ==>
      tiles[k, j] == old(tiles[k, j])
  {
    RowFits(w, h, y);
    TimesIs(w, y);
    if oldPixels[y * w..y * w + w] == newPixels[from..from + w] {
      SameLineNoDiff(Line(oldPixels, w, h, y), RowOf(tiles, v));
      return 0;
    }
    n := MarkChangedTiles(oldPixels, y * w, newPixels, from, w, tiles, v);
  }

  /** Compares line `y` of two equally sized pixel memories. */
  method ScanLine(oldPixels: seq<Pixel>, newPixels: seq<Pixel>, w: int, h: int, y: int, tiles: array2<bool>, v: int)
    returns (n: int)
    requires 0 < w && 0 <= y < h && |oldPixels| == |newPixels| == w * h
    requires tiles.Length1 == NUM_HORIZONTAL_TILES && 0 <= v < tiles.Length0
    modifies tiles
    ensures n == SetCount(Diff(Line(oldPixels, w, h, y), Line(newPixels, w, h, y)))
    ensures RowOf(tiles, v) == OrRow(old(RowOf(tiles, v)), Diff(Line(oldPixels, w, h, y), Line(newPixels, w, h, y)))
    ensures forall k, j :: 0 <= k < tiles.Length0 && k != v && 0 <= j < NUM_HORIZONTAL_TILES ==>
      tiles[k, j] == old(tiles[k, j])
  {
    RowFits(w, h, y);
    TimesIs(w, y);
    n := CompareLine(oldPixels, w, h, y, newPixels, y * w, tiles, v);
  }

  /** Compares lines [a, b) of two equally sized pixel memories. */
  method ScanLines(oldPixels: seq<Pixel>, newPixels: seq<Pixel>, w: int, h: int, a: int, b: int,
    tiles: array2<bool>, v: int)
    returns (n: int)
    requires 0 < w && 0 <= a <= b <= h && |oldPixels| == |newPixels| == w * h
    requires tiles.Length1 == NUM_HORIZONTAL_TILES && 0 <= v < tiles.Length0 && RowOf(tiles, v) == NO_TILES
    modifies tiles
    ensures n == LinesCount(RowsOf(oldPixels, w, h), RowsOf(newPixels, w, h), a, b)
    ensures RowOf(tiles, v) == LinesMarked(RowsOf(oldPixels, w, h), RowsOf(newPixels, w, h), a, b)
    ensures forall k, j :: 0 <= k < tiles.Length0 && k != v && 0 <= j < NUM_HORIZONTAL_TILES ==>
      tiles[k, j] == old(tiles[k, j])
  {
    ghost var shadow, rows := RowsOf(oldPixels, w, h), RowsOf(newPixels, w, h);
    n := 0;
    var y := a;
    assert RowOf(tiles, v) == LinesMarked(shadow, rows, a, a);
    while y < b && y < h
      invariant a <= y <= b
      invariant n == LinesCount(shadow, rows, a, y)
      invariant RowOf(tiles, v) == LinesMarked(shadow, rows, a, y)
      invariant forall k, j :: 0 <= k < tiles.Length0 && k != v && 0 <= j < NUM_HORIZONTAL_TILES ==>
        tiles[k, j] == old(tiles[k, j])
    {
      n := ScanNextLine(oldPixels, newPixels, w, h, a, y, tiles, v, n);
      y := y + 1;
    }
  }

  /** Adds line `y` to what lines [a, y) marked and counted. */
  method ScanNextLine(oldPixels: seq<Pixel>, newPixels: seq<Pixel>, w: int, h: int, a: int, y: int,
    tiles: array2<bool>, v: int, count: int)
    returns (n: int)
    requires 0 < w && 0 <= a <= y < h && |oldPixels| == |newPixels| == w * h
    requires tiles.Length1 == NUM_HORIZONTAL_TILES && 0 <= v < tiles.Length0
    requires count == LinesCount(RowsOf(oldPixels, w, h), RowsOf(newPixels, w, h), a, y)
    requires RowOf(tiles, v) == LinesMarked(RowsOf(oldPixels, w, h), RowsOf(newPixels, w, h), a, y)
    modifies tiles
    ensures n == LinesCount(RowsOf(oldPixels, w, h), RowsOf(newPixels, w, h), a, y + 1)
    ensures RowOf(tiles, v) == LinesMarked(RowsOf(oldPixels, w, h), RowsOf(newPixels, w, h), a, y + 1)
    ensures forall k, j :: 0 <= k < tiles.Length0 && k != v && 0 <= j < NUM_HORIZONTAL_TILES ==>
      tiles[k, j] == old(tiles[k, j])
  {
    ghost var shadow, rows := RowsOf(oldPixels, w, h), RowsOf(newPixels, w, h);
    LinesMarkedStep(shadow, rows, a, y);
    assert shadow[y] == Line(oldPixels, w, h, y) && rows[y] == Line(newPixels, w, h, y);
    var m := ScanLine(oldPixels, newPixels, w, h, y, tiles, v);
    n := count + m;
  }

  /** One tile row of the whole-screen comparison. */
  method ScanTileRow(oldPixels: seq<Pixel>, newPixels: seq<Pixel>, w: int, h: int, v: int, nv: int, tiles: array2<bool>)
    returns (n: int)
    requires 0 < w && 0 < h && |oldPixels| == |newPixels| == w * h && 0 <= v < nv
    requires tiles.Length1 == NUM_HORIZONTAL_TILES && v < tiles.Length0 && RowOf(tiles, v) == NO_TILES
    modifies tiles
    ensures RowScanned(oldPixels, newPixels, w, h, v, nv, n, RowOf(tiles, v))
    ensures forall k, j :: 0 <= k < tiles.Length0 && k != v && 0 <= j < NUM_HORIZONTAL_TILES ==>
      tiles[k, j] == old(tiles[k, j])
  {
    FirstLineStep(v, h, nv);
    n := ScanLines(oldPixels, newPixels, w, h, v * h / nv, (v + 1) * h / nv, tiles, v);
  }

  ghost predicate RowScanned(oldPixels: seq<Pixel>, newPixels: seq<Pixel>, w: int, h: int, v: int, nv: int,
    n: int, row: TileRow)
    requires 0 < w && 0 < h && |oldPixels| == |newPixels| == w * h && 0 <= v < nv
  {
    FirstLineStep(v, h, nv);
    && n == LinesCount(RowsOf(oldPixels, w, h), RowsOf(newPixels, w, h), FirstLine(v, h, nv), FirstLine(v + 1, h, nv))
    && row ==
       LinesMarked(RowsOf(oldPixels, w, h), RowsOf(newPixels, w, h), FirstLine(v, h, nv), FirstLine(v + 1, h, nv))
  }

  /** All tile rows of the whole-screen comparison; `counts` and `tiles` start cleared. */
  method ScanTileRows(oldPixels: seq<Pixel>, newPixels: seq<Pixel>, w: int, h: int, counts: array<int>,
    tiles: array2<bool>)
    returns (ret: int)
    requires 0 < w && 0 < h && |oldPixels| == |newPixels| == w * h
    requires tiles.Length1 == NUM_HORIZONTAL_TILES && tiles.Length0 == counts.Length
    requires forall v :: 0 <= v < counts.Length ==> RowOf(tiles, v) == NO_TILES
    modifies counts, tiles
    ensures 0 <= ret
    ensures forall v :: 0 <= v < counts.Length ==>
      RowScanned(oldPixels, newPixels, w, h, v, counts.Length, counts[v], RowOf(tiles, v))
  {
    ret := 0;
    var v := 0;
    while v < counts.Length
      invariant 0 <= v <= counts.Length && 0 <= ret
      invariant forall k :: 0 <= k < v ==>
        RowScanned(oldPixels, newPixels, w, h, k, counts.Length, counts[k], RowOf(tiles, k))
      invariant forall k :: v <= k < counts.Length ==> RowOf(tiles, k) == NO_TILES
    {
      label before:
      var n := ScanTileRow(oldPixels, newPixels, w, h, v, counts.Length, tiles);
      ret := ret + n;
      counts[v] := n;
      forall k | 0 <= k < counts.Length && k != v
        ensures RowOf(tiles, k) == old@before(RowOf(tiles, k))
      {
        assert forall j :: 0 <= j < NUM_HORIZONTAL_TILES ==> tiles[k, j] == old@before(tiles[k, j]);
      }
      v := v + 1;
    }
  }

  /** A slice of a sequence in which `chunk` was written at `pos`. */
  lemma SliceOfWritten(m: seq<Pixel>, n: seq<Pixel>, pos: int, chunk: seq<Pixel>, a: int, b: int)
    requires 0 <= pos && pos + |chunk| <= |m| && n == m[..pos] + chunk + m[pos + |chunk|..]
    requires 0 <= a <= b <= |m|
    ensures b <= pos || pos + |chunk| <= a ==> n[a..b] == m[a..b]
    ensures a <= pos && pos + |chunk| <= b ==> n[a..b] == m[a..b][..pos - a] + chunk + m[a..b][pos - a + |chunk|..]
  {
    if a <= pos && pos + |chunk| <= b {
      var s, t := n[a..b], m[a..b][..pos - a] + chunk + m[a..b][pos - a + |chunk|..];
      assert |s| == |t|;
      forall k | 0 <= k < b - a
        ensures s[k] == t[k]
      {
        assert s[k] == n[a + k];
      }
    }
  }

  /** Overwriting part of line `at` of a pixel memory changes that line only. */
  lemma WriteLine(m: seq<Pixel>, n: seq<Pixel>, w: int, h: int, at: int, x: int, chunk: seq<Pixel>, y: int)
    requires 0 < w && 0 <= at < h && 0 <= y < h && |m| == |n| == w * h && 0 <= x && x + |chunk| <= w
    requires 0 <= Times(w, at) && Times(w, at) + w <= |m|
    requires n == m[..Times(w, at) + x] + chunk + m[Times(w, at) + x + |chunk|..]
    ensures Line(n, w, h, y) ==
      if y == at then Line(m, w, h, y)[..x] + chunk + Line(m, w, h, y)[x + |chunk|..] else Line(m, w, h, y)
  {
    RowFits(w, h, y);
    if y < at {
      RowsDisjoint(w, y, at);
    } else if at < y {
      RowsDisjoint(w, at, y);
    }
    SliceOfWritten(m, n, Times(w, at) + x, chunk, Times(w, y), Times(w, y) + w);
  }

  /** Copies `n` pixels to column `x` of line `at`. */
  method CopyLine(mem: array<Pixel>, w: int, h: int, at: int, x: int, to: int, data: seq<Pixel>, from: int, n: int)
    requires 0 < w && 0 <= at < h && mem.Length == w * h && to == Times(w, at) + x
    requires 0 <= x && 0 <= n && x + n <= w && 0 <= from && from + n <= |data|
    modifies mem
    ensures forall y :: 0 <= y < h && y != at ==> Line(mem[..], w, h, y) == Line(old(mem[..]), w, h, y)
    ensures var line := Line(old(mem[..]), w, h, at);
      Line(mem[..], w, h, at) == line[..x] + data[from..from + n] + line[x + n..]
  {
    RowFits(w, h, at);
    ghost var m := mem[..];
    CopyChunk(mem, to, data, from, n);
    WriteLine(m, mem[..], w, h, at, x, data[from..from + n], at);
    forall y | 0 <= y < h && y != at
      ensures Line(mem[..], w, h, y) == Line(m, w, h, y)
    {
      WriteLine(m, mem[..], w, h, at, x, data[from..from + n], y);
    }
  }

  /** The write and read positions before line `i` of the copied rectangle. */
  ghost predicate Cursors(to: int, from: int, r: Rect, i: int, w: int)
    requires 0 <= i && 0 <= r.y
  {
    to == Times(w, r.y + i) + r.x && from == Times(r.w, i)
  }

  /** The lines above line `k` show `goal`, the others `before`. */
  ghost predicate CopiedTo(mem: seq<Pixel>, w: int, h: int, goal: Frame, before: Frame, k: int)
    requires 0 < w && 0 < h && |mem| == w * h && |goal| == |before| == h
  {
    forall y :: 0 <= y < h ==> Line(mem, w, h, y) == if y < k then goal[y] else before[y]
  }

  lemma CopiedStep(m: seq<Pixel>, n: seq<Pixel>, w: int, h: int, goal: Frame, before: Frame, k: int)
    requires 0 < w && 0 <= k < h && |m| == |n| == w * h && |goal| == |before| == h
    requires CopiedTo(m, w, h, goal, before, k)
    requires forall y :: 0 <= y < h && y != k ==> Line(n, w, h, y) == Line(m, w, h, y)
    requires Line(n, w, h, k) == goal[k]
    ensures CopiedTo(n, w, h, goal, before, k + 1)
  {
  }

  /** The row-by-row copy of `display_copy_image_into_fullscreen`. */
  method CopyRows(mem: array<Pixel>, w: int, h: int, r: Rect, data: seq<Pixel>)
    requires 0 < w && mem.Length == w * h && r.Within(w, h) && |data| == r.w * r.h
    modifies mem
    ensures RowsOf(mem[..], w, h) == Pasted(old(RowsOf(mem[..], w, h)), r, RowsOf(data, r.w, r.h))
  {
    ghost var before, img := RowsOf(mem[..], w, h), RowsOf(data, r.w, r.h);
    ghost var goal := Pasted(before, r, img);
    PastedElsewhere(before, r, img, w, h);
    TimesIs(w, r.y);
    var to, from := r.y * w + r.x, 0;
    var i := 0;
    while i < r.h
      invariant 0 <= i <= r.h && Cursors(to, from, r, i, w)
      invariant CopiedTo(mem[..], w, h, goal, before, r.y + i)
    {
      CopyOneRow(mem, w, h, r, data, i, to, from, before);
      i, from, to := i + 1, from + r.w, to + w;
    }
  }

  /** Row `i` of the image. */
  method CopyOneRow(mem: array<Pixel>, w: int, h: int, r: Rect, data: seq<Pixel>, i: int, to: int, from: int,
    ghost before: Frame)
    requires 0 < w && mem.Length == w * h && r.Within(w, h) && |data| == r.w * r.h && 0 <= i < r.h
    requires Sized(before, w, h) && Cursors(to, from, r, i, w)
    requires CopiedTo(mem[..], w, h, Pasted(before, r, RowsOf(data, r.w, r.h)), before, r.y + i)
    modifies mem
    ensures CopiedTo(mem[..], w, h, Pasted(before, r, RowsOf(data, r.w, r.h)), before, r.y + i + 1)
  {
    ghost var m, k, img := mem[..], r.y + i, RowsOf(data, r.w, r.h);
    RowFits(r.w, r.h, i);
    PastedLineParts(before[k], k, r, img, w);
    CopyLine(mem, w, h, r.y + i, r.x, to, data, from, r.w);
    CopiedStep(m, mem[..], w, h, Pasted(before, r, img), before, k);
  }

  /** `memcpy` of `n` pixels. */
  method CopyChunk(mem: array<Pixel>, to: int, data: seq<Pixel>, from: int, n: int)
    requires 0 <= to && 0 <= n && to + n <= mem.Length && 0 <= from && from + n <= |data|
    modifies mem
    ensures mem[..] == old(mem[..])[..to] + data[from..from + n] + old(mem[..])[to + n..]
  {
    forall k | 0 <= k < n {
      mem[to + k] := data[from + k];
    }
  }

  class Display {
    var w: int
    var h: int
    var fullscreen: array<Pixel>

    ghost predicate Valid()
      reads this
    {
      0 < w && 0 < h && fullscreen.Length == w * h
    }

    ghost function Shadow(): (f: Frame)
      requires Valid()
      reads this, fullscreen
      ensures Sized(f, w, h)
    {
      RowsOf(fullscreen[..], w, h)
    }

    constructor (w: int, h: int, data: array<Pixel>)
      requires 0 < w && 0 < h && data.Length == w * h
      ensures Valid() && this.w == w && this.h == h && fullscreen == data
    {
      this.w, this.h, fullscreen := w, h, data;
    }

    /** `display_find_changed_tiles`: `line` is what reading screen line `row`
        returned, if the read succeeded. */
    method FindChangedTiles(row: int, line: Option<seq<Pixel>>, tiles: array2<bool>, i: int)
      returns (ret: int)
      requires Valid() && 0 <= row < h && (line.Some? ==> |line.value| == w)
      requires tiles.Length1 == NUM_HORIZONTAL_TILES && 0 <= i < tiles.Length0
      modifies tiles
      ensures line.None? ==> ret == -1 && RowOf(tiles, i) == NO_TILES
      ensures line.Some? ==> RowOf(tiles, i) == Diff(Shadow()[row], line.value)
      ensures line.Some? ==> ret == SetCount(Diff(Shadow()[row], line.value))
      ensures forall k, j :: 0 <= k < tiles.Length0 && k != i && 0 <= j < NUM_HORIZONTAL_TILES ==>
        tiles[k, j] == old(tiles[k, j])
    {
      forall j | 0 <= j < NUM_HORIZONTAL_TILES {
        tiles[i, j] := false;
      }
      assert RowOf(tiles, i) == NO_TILES;
      if line.None? {
        return -1;
      }
      ghost var shadow := Shadow()[row];
      assert line.value[0..w] == line.value;
      ret := CompareLine(fullscreen[..], w, h, row, line.value, 0, tiles, i);
      OrNone(Diff(shadow, line.value));
    }

    /** `display_scan_whole_screen`: a negative result reports a failed read. */
    method ScanWholeScreen(grab: Grab, counts: array<int>, tiles: array2<bool>) returns (ret: int)
      requires Valid() && ValidGrab(grab)
      requires tiles.Length1 == NUM_HORIZONTAL_TILES && tiles.Length0 == counts.Length > 0
      modifies counts, tiles
      ensures ret < 0 <==> grab.ReadFailed?
      ensures grab.Grabbed? && grab.w == w && grab.h == h ==>
        forall v :: 0 <= v < counts.Length ==>
          RowScanned(fullscreen[..], grab.data, w, h, v, counts.Length, counts[v], RowOf(tiles, v))
      ensures !(grab.Grabbed? && grab.w == w && grab.h == h) ==>
        forall v :: 0 <= v < counts.Length ==> counts[v] == 0 && RowOf(tiles, v) == NO_TILES
    {
      forall k, j | 0 <= k < tiles.Length0 && 0 <= j < NUM_HORIZONTAL_TILES {
        tiles[k, j] := false;
      }
      forall k | 0 <= k < counts.Length {
        counts[k] := 0;
      }
      assert forall k :: 0 <= k < counts.Length ==> RowOf(tiles, k) == NO_TILES;
      if grab.NoImage? {
        return 0;
      }
      if grab.ReadFailed? {
        return -1;
      }
      if grab.w != w || grab.h != h {
        return 0;
      }
      ret := ScanTileRows(fullscreen[..], grab.data, w, h, counts, tiles);
    }

    /** `display_copy_image_into_fullscreen`: `data` is the image of rectangle
        `r`; an image that no longer fits the screen is ignored. */
    method CopyImageIntoFullscreen(r: Rect, data: seq<Pixel>)
      requires Valid() && 0 <= r.x && 0 <= r.y && 0 < r.w && 0 < r.h && |data| == r.w * r.h
      modifies fullscreen
      ensures Shadow() == if r.Within(w, h) then Pasted(old(Shadow()), r, RowsOf(data, r.w, r.h)) else old(Shadow())
    {
      if r.x + r.w > w {
        return;
      }
      if r.y + r.h > h {
        return;
      }
      CopyRows(fullscreen, w, h, r, data);
    }
  }
}
