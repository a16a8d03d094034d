/** From changed tiles to screen rectangles: the run encoding and the rectangle
    arithmetic of src/scan.c. */
module Reports {
  import opened Arithmetic
  import opened Geometry
  import opened Tiles

  /* ---------- maximal runs ---------- */

  datatype Run = Run(s: int, e: int)

  predicate IsMaximalRun(sel: seq<bool>, r: Run) {
    && 0 <= r.s <= r.e < |sel|
    && (forall k :: r.s <= k <= r.e ==> sel[k])
    && (r.s == 0 || !sel[r.s - 1])
    && (r.e == |sel| - 1 || !sel[r.e + 1])
  }

  /** Where the run that reaches position n-1 started, or -1. */
  function OpenStart(sel: seq<bool>, n: nat): int
    requires n <= |sel|
  {
    if n == 0 || !sel[n - 1] then -1
    else if OpenStart(sel, n - 1) == -1 then n - 1
    else OpenStart(sel, n - 1)
  }

  /** The runs that have ended strictly before position n-1, as the loops of
      `push_changes_across_rows` and `push_changes_in_one_row` meet them. */
  function ClosedRuns(sel: seq<bool>, n: nat): seq<Run>
    requires n <= |sel|
  {
    if n == 0 then []
    else if !sel[n - 1] && OpenStart(sel, n - 1) != -1 then
      ClosedRuns(sel, n - 1) + [Run(OpenStart(sel, n - 1), n - 2)]
    else ClosedRuns(sel, n - 1)
  }

  function Runs(sel: seq<bool>): seq<Run> {
    ClosedRuns(sel, |sel|) +
    (if OpenStart(sel, |sel|) != -1 then [Run(OpenStart(sel, |sel|), |sel| - 1)] else [])
  }

  lemma {:induction false} OpenStartExact(sel: seq<bool>, n: nat)
    requires n <= |sel|
    ensures var o := OpenStart(sel, n);
      && (o == -1 <==> n == 0 || !sel[n - 1])
      && (o != -1 ==> 0 <= o < n && (o == 0 || !sel[o - 1]) && forall k :: o <= k < n ==> sel[k])
  {
    if n == 0 {
    } else {
      OpenStartExact(sel, n - 1);
    }
  }

  /** A maximal run is open when the loop stands just behind it. */
  lemma MaximalRunIsOpen(sel: seq<bool>, r: Run)
    requires IsMaximalRun(sel, r)
    ensures OpenStart(sel, r.e + 1) == r.s
  {
    var o := OpenStart(sel, r.e + 1);
    OpenStartExact(sel, r.e + 1);
    assert sel[r.e] && (r.s > 0 ==> !sel[r.s - 1]) && (o > 0 ==> !sel[o - 1]);
  }

  lemma {:induction false} ClosedRunsExact(sel: seq<bool>, n: nat)
    requires n <= |sel|
    ensures forall r :: r in ClosedRuns(sel, n) <==> IsMaximalRun(sel, r) && r.e < n - 1
  {
    if n == 0 {
    } else {
      ClosedRunsExact(sel, n - 1);
      OpenStartExact(sel, n - 1);
      forall r | IsMaximalRun(sel, r) && r.e == n - 2
        ensures !sel[n - 1] && OpenStart(sel, n - 1) == r.s
      {
        MaximalRunIsOpen(sel, r);
        assert !sel[r.e + 1];
      }
    }
  }

  ghost predicate Gaps(runs: seq<Run>) {
    forall i, j :: 0 <= i < j < |runs| ==> runs[i].e + 1 < runs[j].s
  }

  lemma {:induction false} ClosedRunsGaps(sel: seq<bool>, n: nat)
    requires n <= |sel|
    ensures Gaps(ClosedRuns(sel, n))
    ensures OpenStart(sel, n) != -1 ==> forall r :: r in ClosedRuns(sel, n) ==> r.e + 1 < OpenStart(sel, n)
  {
    if n == 0 {
    } else {
      ClosedRunsGaps(sel, n - 1);
      ClosedRunsExact(sel, n);
      OpenStartExact(sel, n);
      var before := ClosedRuns(sel, n - 1);
      assert forall i :: 0 <= i < |before| ==> before[i] in before;
      var o := OpenStart(sel, n);
      forall r | o != -1 && r in ClosedRuns(sel, n)
        ensures r.e + 1 < o
      {
        assert !sel[r.e + 1];
      }
    }
  }

  /** `Runs` lists exactly the maximal runs, left to right, with a gap between
      any two. */
  lemma RunsExact(sel: seq<bool>)
    ensures forall r :: r in Runs(sel) <==> IsMaximalRun(sel, r)
    ensures Gaps(Runs(sel))
  {
    var n := |sel|;
    ClosedRunsExact(sel, n);
    ClosedRunsGaps(sel, n);
    OpenStartExact(sel, n);
    var closed := ClosedRuns(sel, n);
    assert forall i :: 0 <= i < |closed| ==> closed[i] in closed;
    forall r | IsMaximalRun(sel, r) && r.e == n - 1
      ensures OpenStart(sel, n) == r.s
    {
      MaximalRunIsOpen(sel, r);
    }
  }

  /** Every set position belongs to a maximal run. */
  lemma RunAt(sel: seq<bool>, k: int) returns (r: Run)
    requires 0 <= k < |sel| && sel[k]
    ensures IsMaximalRun(sel, r) && r.s <= k <= r.e
  {
    var s, e := k, k;
    while s > 0 && sel[s - 1]
      invariant 0 <= s <= k && forall i :: s <= i <= k ==> sel[i]
    {
      s := s - 1;
    }
    while e < |sel| - 1 && sel[e + 1]
      invariant k <= e < |sel| && forall i :: k <= i <= e ==> sel[i]
    {
      e := e + 1;
    }
    r := Run(s, e);
  }

  /* ---------- spans of tiles ---------- */

  /** A block of tiles, all bounds inclusive: the arguments of `push_tiles_report`. */
  datatype Span = Span(r0: int, c0: int, r1: int, c1: int) {
    predicate Covers(i: int, j: int) {
      r0 <= i <= r1 && c0 <= j <= c1
    }
  }

  function FullRows(counts: seq<int>): seq<bool> {
    seq(|counts|, i requires 0 <= i < |counts| => counts[i] == NUM_HORIZONTAL_TILES)
  }

  predicate IsPartial(count: int) {
    0 < count < NUM_HORIZONTAL_TILES
  }

  /** A run is either a run of full rows or a run of tiles in one row. */
  datatype Shape = Across | InRow(i: int)

  function Block(shape: Shape, r: Run): Span {
    match shape
    case Across => Span(r.s, 0, r.e, NUM_HORIZONTAL_TILES - 1)
    case InRow(i) => Span(i, r.s, i, r.e)
  }

  function Blocks(shape: Shape, runs: seq<Run>): (bs: seq<Span>)
    ensures |bs| == |runs|
  {
    seq(|runs|, k requires 0 <= k < |runs| => Block(shape, runs[k]))
  }

  function PartialSpans(counts: seq<int>, rows: seq<TileRow>, n: nat): seq<Span>
    requires n <= |counts| == |rows|
  {
    if n == 0 then []
    else
      var above := PartialSpans(counts, rows, n - 1);
      if IsPartial(counts[n - 1]) then above + Blocks(InRow(n - 1), Runs(rows[n - 1])) else above
  }

  /** All blocks that `push_changed_tiles` reports, in order. */
  function TileSpans(counts: seq<int>, rows: seq<TileRow>): seq<Span>
    requires |counts| == |rows|
  {
    Blocks(Across, Runs(FullRows(counts))) + PartialSpans(counts, rows, |counts|)
  }

  predicate Selected(counts: seq<int>, rows: seq<TileRow>, i: int, j: int)
    requires |counts| == |rows|
  {
    && 0 <= i < |counts| && 0 <= j < NUM_HORIZONTAL_TILES
    && (counts[i] == NUM_HORIZONTAL_TILES || (IsPartial(counts[i]) && rows[i][j]))
  }

  predicate IsMaximalSpan(counts: seq<int>, rows: seq<TileRow>, b: Span)
    requires |counts| == |rows|
  {
    || (b.c0 == 0 && b.c1 == NUM_HORIZONTAL_TILES - 1 && IsMaximalRun(FullRows(counts), Run(b.r0, b.r1)))
    || (b.r0 == b.r1 && 0 <= b.r0 < |counts| && IsPartial(counts[b.r0]) &&
        IsMaximalRun(rows[b.r0], Run(b.c0, b.c1)))
  }

  /** Different rows, or the same single row with at least one tile between. */
  predicate Apart(a: Span, b: Span) {
    || a.r1 < b.r0 || b.r1 < a.r0
    || (a.r0 == a.r1 == b.r0 == b.r1 && (a.c1 + 1 < b.c0 || b.c1 + 1 < a.c0))
  }

  lemma InOneRowExact(i: int, row: TileRow)
    ensures forall b: Span :: b in Blocks(InRow(i), Runs(row)) <==>
      b.r0 == b.r1 == i && IsMaximalRun(row, Run(b.c0, b.c1))
    ensures AllApart(Blocks(InRow(i), Runs(row)))
  {
    var runs := Runs(row);
    RunsExact(row);
    forall b: Span | b.r0 == b.r1 == i && IsMaximalRun(row, Run(b.c0, b.c1))
      ensures b in Blocks(InRow(i), runs)
    {
      var k :| 0 <= k < |runs| && runs[k] == Run(b.c0, b.c1);
      assert Blocks(InRow(i), runs)[k] == b;
    }
    forall k | 0 <= k < |runs|
      ensures IsMaximalRun(row, runs[k])
    {
      assert runs[k] in runs;
    }
  }

  lemma AcrossRowsExact(full: seq<bool>)
    ensures forall b: Span :: b in Blocks(Across, Runs(full)) <==>
      b.c0 == 0 && b.c1 == NUM_HORIZONTAL_TILES - 1 && IsMaximalRun(full, Run(b.r0, b.r1))
    ensures AllApart(Blocks(Across, Runs(full)))
  {
    var runs := Runs(full);
    RunsExact(full);
    forall b: Span | b.c0 == 0 && b.c1 == NUM_HORIZONTAL_TILES - 1 && IsMaximalRun(full, Run(b.r0, b.r1))
      ensures b in Blocks(Across, runs)
    {
      var k :| 0 <= k < |runs| && runs[k] == Run(b.r0, b.r1);
      assert Blocks(Across, runs)[k] == b;
    }
    forall k | 0 <= k < |runs|
      ensures IsMaximalRun(full, runs[k])
    {
      assert runs[k] in runs;
    }
  }

  ghost predicate AllApart(bs: seq<Span>) {
    forall i, j :: 0 <= i < j < |bs| ==> Apart(bs[i], bs[j])
  }

  lemma AllApartConcat(a: seq<Span>, b: seq<Span>)
    requires AllApart(a) && AllApart(b)
    requires forall s, t :: s in a && t in b ==> Apart(s, t)
    ensures AllApart(a + b)
  {
  }

  lemma {:induction false} PartialSpansExact(counts: seq<int>, rows: seq<TileRow>, n: nat)
    requires n <= |counts| == |rows|
    ensures forall b: Span :: b in PartialSpans(counts, rows, n) <==>
      b.r0 == b.r1 && 0 <= b.r0 < n && IsPartial(counts[b.r0]) && IsMaximalRun(rows[b.r0], Run(b.c0, b.c1))
  {
    if n == 0 {
    } else {
      PartialSpansExact(counts, rows, n - 1);
      InOneRowExact(n - 1, rows[n - 1]);
    }
  }

  lemma {:induction false} PartialSpansApart(counts: seq<int>, rows: seq<TileRow>, n: nat)
    requires n <= |counts| == |rows|
    ensures AllApart(PartialSpans(counts, rows, n))
  {
    if n == 0 {
    } else {
      PartialSpansApart(counts, rows, n - 1);
      PartialSpansExact(counts, rows, n - 1);
      InOneRowExact(n - 1, rows[n - 1]);
      if IsPartial(counts[n - 1]) {
        AllApartConcat(PartialSpans(counts, rows, n - 1), Blocks(InRow(n - 1), Runs(rows[n - 1])));
      }
    }
  }

  /** The run encoding is exact: the reported blocks are precisely the maximal
      runs of full rows and, in each partial row, the maximal runs of set tiles;
      any two are apart. */
  lemma TileSpansExact(counts: seq<int>, rows: seq<TileRow>)
    requires |counts| == |rows|
    ensures forall b: Span :: b in TileSpans(counts, rows) <==> IsMaximalSpan(counts, rows, b)
    ensures AllApart(TileSpans(counts, rows))
  {
    var full := FullRows(counts);
    AcrossRowsExact(full);
    PartialSpansExact(counts, rows, |counts|);
    PartialSpansApart(counts, rows, |counts|);
    forall s, t | s in Blocks(Across, Runs(full)) && t in PartialSpans(counts, rows, |counts|)
      ensures Apart(s, t)
    {
      assert !full[t.r0];
    }
    AllApartConcat(Blocks(Across, Runs(full)), PartialSpans(counts, rows, |counts|));
  }

  /** Every selected tile is covered by exactly one reported block, and no other
      tile is covered. */
  lemma CoveredExactlyOnce(counts: seq<int>, rows: seq<TileRow>, i: int, j: int)
    requires |counts| == |rows|
    ensures var bs := TileSpans(counts, rows);
      && (Selected(counts, rows, i, j) <==> exists k :: 0 <= k < |bs| && bs[k].Covers(i, j))
      && (forall k, l :: 0 <= k < |bs| && 0 <= l < |bs| && bs[k].Covers(i, j) && bs[l].Covers(i, j) ==> k == l)
  {
    var bs := TileSpans(counts, rows);
    TileSpansExact(counts, rows);
    if Selected(counts, rows, i, j) {
      var b;
      if counts[i] == NUM_HORIZONTAL_TILES {
        var r := RunAt(FullRows(counts), i);
        b := Span(r.s, 0, r.e, NUM_HORIZONTAL_TILES - 1);
      } else {
        var r := RunAt(rows[i], j);
        b := Span(i, r.s, i, r.e);
      }
      assert IsMaximalSpan(counts, rows, b) && b in bs;
      var k :| 0 <= k < |bs| && bs[k] == b;
      assert bs[k].Covers(i, j);
    }
    forall k | 0 <= k < |bs| && bs[k].Covers(i, j)
      ensures Selected(counts, rows, i, j)
    {
      assert bs[k] in bs;
      assert 0 <= i < |counts|;
      assert FullRows(counts)[i] == (counts[i] == NUM_HORIZONTAL_TILES);
    }
    forall k, l | 0 <= k < |bs| && 0 <= l < |bs| && bs[k].Covers(i, j) && bs[l].Covers(i, j)
      ensures k == l
    {
      assert k < l ==> Apart(bs[k], bs[l]);
      assert l < k ==> Apart(bs[l], bs[k]);
    }
  }

  /** Tiles of a row whose counter is zero or full never influence a report, so
      rows of the tile array that were never written do no harm. */
  lemma UnselectedRowsIgnored(counts: seq<int>, rows: seq<TileRow>, other: seq<TileRow>)
    requires |counts| == |rows| == |other|
    requires forall i :: 0 <= i < |counts| && IsPartial(counts[i]) ==> rows[i] == other[i]
    ensures TileSpans(counts, rows) == TileSpans(counts, other)
  {
    PartialSpansAgree(counts, rows, other, |counts|);
  }

  lemma {:induction false} PartialSpansAgree(counts: seq<int>, rows: seq<TileRow>, other: seq<TileRow>, n: nat)
    requires n <= |counts| == |rows| == |other|
    requires forall i :: 0 <= i < |counts| && IsPartial(counts[i]) ==> rows[i] == other[i]
    ensures PartialSpans(counts, rows, n) == PartialSpans(counts, other, n)
  {
    if n == 0 {
    } else {
      PartialSpansAgree(counts, rows, other, n - 1);
    }
  }

  /* ---------- rectangles ---------- */

  /** Left edge and width, before clamping, of a block of tile columns. */
  function LeftEdge(c0: int, w: int): int {
    c0 * w / 32
  }

  function RoundedWidth(c0: int, c1: int, w: int): int {
    (c1 - c0 + 1) * w / 32 + (if (c1 - c0 + 1) * w % 32 != 0 then 1 else 0)
  }

  /** The rectangle `push_tiles_report` computes for a block of tiles. */
  function TileRect(b: Span, w: int, h: int): Rect {
    var x, rw := LeftEdge(b.c0, w), RoundedWidth(b.c0, b.c1, w);
    var y, rh := b.r0 * NUM_SCANLINES, (b.r1 - b.r0 + 1) * NUM_SCANLINES;
    Rect(x, y, if x + rw > w then w - x else rw, if y + rh > h then h - y else rh)
  }

  predicate OnGrid(b: Span, h: int) {
    0 <= b.c0 <= b.c1 < NUM_HORIZONTAL_TILES && 0 <= b.r0 <= b.r1 < VerticalTiles(h)
  }

  /** floor(k * w / 32): where the `k`-th of 32 equal shares of the width starts. */
  function Share(k: int, w: int): int {
    k * w / 32
  }

  /** floor(a) + ceil(b) against floor(a + b), in 32nds. */
  lemma FloorPlusCeil(a: int, b: int)
    requires 0 <= a && 0 <= b
    ensures var c := b / 32 + (if b % 32 != 0 then 1 else 0);
      && (a + b) / 32 <= a / 32 + c <= (a + b) / 32 + 1
      && ((a + b) % 32 == 0 ==> a / 32 + c == (a + b) / 32)
      && 32 * (c - 1) < b <= 32 * c && (b > 0 ==> c > 0)
  {
  }

  lemma ColumnBounds(c0: int, c1: int, w: int)
    requires 0 < w && 0 <= c0 <= c1 < NUM_HORIZONTAL_TILES
    ensures var x, rw := LeftEdge(c0, w), RoundedWidth(c0, c1, w);
      && 0 <= x && 0 < rw && x + rw <= w
      && Share(c1 + 1, w) <= x + rw <= Share(c1 + 1, w) + 1
      && (c1 == NUM_HORIZONTAL_TILES - 1 ==> x + rw == w)
      && (rw - 1) * NUM_HORIZONTAL_TILES < (c1 - c0 + 1) * w <= rw * NUM_HORIZONTAL_TILES
  {
    var left, across, right := c0 * w, (c1 - c0 + 1) * w, (31 - c1) * w;
    MulAdd(c0, c1 - c0 + 1, w);
    MulAdd(c1 + 1, 31 - c1, w);
    MulMonotone(0, c0, w);
    MulMonotone(1, c1 - c0 + 1, w);
    if c1 < 31 {
      MulMonotone(1, 31 - c1, w);
    }
    ShareBounds(left, across, right, w);
  }

  /** The columns of a block with the products named: `left`, `across` and `right`
      are 32 times the widths left of, in, and right of the block. */
  lemma ShareBounds(left: int, across: int, right: int, w: int)
    requires 0 <= left && 0 < w <= across && left + across + right == 32 * w
    requires right == 0 || right >= w
    ensures var x := left / 32;
      var rw := across / 32 + (if across % 32 != 0 then 1 else 0);
      && 0 <= x && 0 < rw && x + rw <= w && 32 * (rw - 1) < across <= 32 * rw
      && (left + across) / 32 <= x + rw <= (left + across) / 32 + 1
      && (right == 0 ==> x + rw == w)
  {
    FloorPlusCeil(left, across);
  }

  /** The rectangle stays on screen, covers its tiles' share of the width with
      at most one pixel to spare, ends exactly at the right edge with the last
      tile, and the width clamp never cuts anything. */
  lemma TileRectBounds(b: Span, w: int, h: int)
    requires 0 < w && 0 < h && OnGrid(b, h)
    ensures var r := TileRect(b, w, h);
      && r.Within(w, h)
      && r.x == Share(b.c0, w)
      && Share(b.c1 + 1, w) <= r.x + r.w <= Share(b.c1 + 1, w) + 1
      && (b.c1 == NUM_HORIZONTAL_TILES - 1 ==> r.x + r.w == w)
      && 32 * (r.w - 1) < (b.c1 - b.c0 + 1) * w <= 32 * r.w
      && r.y == 32 * b.r0
      && r.y + r.h == (if 32 * (b.r1 + 1) <= h then 32 * (b.r1 + 1) else h)
  {
    ColumnBounds(b.c0, b.c1, w);
  }
}
