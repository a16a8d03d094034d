/** The tile grid of src/scan.c: growing the set of changed tiles, encoding it
    as runs, and turning runs into screen rectangles. */
module Tiles {
  const NUM_SCANLINES := 32
  const NUM_HORIZONTAL_TILES := NUM_SCANLINES
  const SCAN_ROW_THRESHOLD := NUM_HORIZONTAL_TILES / 2

  type TileRow = r: seq<bool> | |r| == NUM_HORIZONTAL_TILES witness seq(NUM_HORIZONTAL_TILES, _ => false)

  const NO_TILES: TileRow := [
    false, false, false, false, false, false, false, false,
    false, false, false, false, false, false, false, false,
    false, false, false, false, false, false, false, false,
    false, false, false, false, false, false, false, false
  ]

  function VerticalTiles(h: int): int {
    (h + NUM_SCANLINES - 1) / 32
  }

  /* ---------- counting ---------- */

  function SetCount(r: seq<bool>): nat {
    if r == [] then 0 else SetCount(r[..|r| - 1]) + (if r[|r| - 1] then 1 else 0)
  }

  lemma {:induction false} SetCountUpdate(r: seq<bool>, j: nat)
    requires j < |r| && !r[j]
    ensures SetCount(r[j := true]) == SetCount(r) + 1
  {
    var n := |r| - 1;
    if j == n {
      assert r[j := true][..n] == r[..n];
    } else {
      assert r[j := true][..n] == r[..n][j := true];
      SetCountUpdate(r[..n], j);
    }
  }

  lemma SetCountStep(r: seq<bool>, i: nat)
    requires i < |r|
    ensures SetCount(r[..i + 1]) == SetCount(r[..i]) + (if r[i] then 1 else 0)
  {
    assert r[..i + 1][..i] == r[..i];
  }

  lemma {:induction false} SetCountZero(r: seq<bool>)
    ensures SetCount(r) <= |r|
    ensures SetCount(r) == 0 <==> forall j :: 0 <= j < |r| ==> !r[j]
  {
    if r == [] {
    } else {
      SetCountZero(r[..|r| - 1]);
      assert forall j :: 0 <= j < |r| - 1 ==> r[j] == r[..|r| - 1][j];
    }
  }

  lemma {:induction false} SetCountMonotone(r: seq<bool>, s: seq<bool>)
    requires |r| == |s| && forall j :: 0 <= j < |r| ==> r[j] ==> s[j]
    ensures SetCount(r) <= SetCount(s)
  {
    if r == [] {
    } else {
      SetCountMonotone(r[..|r| - 1], s[..|s| - 1]);
    }
  }

  /* ---------- growth ---------- */

  /** The fill rule: the first and last tile need one set neighbour, every
      other tile needs both. */
  predicate Fills(r: TileRow, j: nat)
    requires j < NUM_HORIZONTAL_TILES
  {
    if j == 0 then r[1]
    else if j == NUM_HORIZONTAL_TILES - 1 then r[j - 1]
    else r[j - 1] && r[j + 1]
  }

  /** The fill rule applied to all tiles of the original row at once. */
  function Grow(r: TileRow): TileRow {
    seq(NUM_HORIZONTAL_TILES, j requires 0 <= j < NUM_HORIZONTAL_TILES => r[j] || Fills(r, j))
  }

  predicate Closed(r: TileRow) {
    forall j: nat :: j < NUM_HORIZONTAL_TILES && Fills(r, j) ==> r[j]
  }

  predicate SubRow(r: TileRow, s: TileRow) {
    forall j :: 0 <= j < NUM_HORIZONTAL_TILES && r[j] ==> s[j]
  }

  /** `Grow(r)` is the least row above `r` that the fill rule cannot extend, so
      a single pass reaches the fixpoint and growing is monotone and idempotent. */
  lemma GrowIsClosure(r: TileRow)
    ensures SubRow(r, Grow(r)) && Closed(Grow(r))
    ensures forall s: TileRow :: SubRow(r, s) && Closed(s) ==> SubRow(Grow(r), s)
    ensures Grow(Grow(r)) == Grow(r)
    ensures forall s: TileRow :: SubRow(r, s) ==> SubRow(Grow(r), Grow(s))
  {
    var g := Grow(r);
    forall j: nat | j < NUM_HORIZONTAL_TILES && Fills(g, j)
      ensures g[j]
    {
      if j == 0 {
        assert r[1] || Fills(r, 1);
      } else if j == NUM_HORIZONTAL_TILES - 1 {
        assert r[j - 1] || Fills(r, j - 1);
      } else {
        assert r[j - 1] || Fills(r, j - 1);
        assert r[j + 1] || Fills(r, j + 1);
      }
    }
    assert Grow(g) == g;
  }

  /** What growing leaves in one row of tiles and in its counter. */
  function GrownRow(count: int, r: TileRow): TileRow {
    if count == 0 || count > SCAN_ROW_THRESHOLD then r else Grow(r)
  }

  function GrownCount(count: int, r: TileRow): int {
    if count == 0 || count == NUM_HORIZONTAL_TILES then count
    else if count > SCAN_ROW_THRESHOLD then NUM_HORIZONTAL_TILES
    else
      var c := count + SetCount(Grow(r)) - SetCount(r);
      if c > SCAN_ROW_THRESHOLD then NUM_HORIZONTAL_TILES else c
  }

  /** After growing a row's counter is 0, at most the threshold, or 32, and it
      is exact below the threshold if it was exact before. A counter that was an
      upper bound stays one. */
  lemma GrownCountShape(count: int, r: TileRow)
    requires count >= SetCount(r)
    ensures var c := GrownCount(count, r);
      && (c == 0 || 1 <= c <= SCAN_ROW_THRESHOLD || c == NUM_HORIZONTAL_TILES)
      && (c == 0 <==> count == 0)
      && c >= SetCount(GrownRow(count, r))
      && (count == SetCount(r) && c <= SCAN_ROW_THRESHOLD ==> c == SetCount(GrownRow(count, r)))
  {
    SetCountZero(r);
    SetCountZero(Grow(r));
    SetCountMonotone(r, Grow(r));
  }

  /** Row `i` of a two-dimensional tile array. */
  function RowOf(tiles: array2<bool>, i: int): TileRow
    requires tiles.Length1 == NUM_HORIZONTAL_TILES && 0 <= i < tiles.Length0
    reads tiles
  {
    seq(NUM_HORIZONTAL_TILES, j requires 0 <= j < tiles.Length1 reads tiles => tiles[i, j])
  }

  /** The row `now` has been grown in place up to tile `j`. */
  ghost predicate PartlyGrown(r: TileRow, now: TileRow, j: nat) {
    && (forall k :: 0 <= k < j && k < NUM_HORIZONTAL_TILES ==> now[k] == Grow(r)[k])
    && (forall k :: j <= k < NUM_HORIZONTAL_TILES ==> now[k] == r[k])
  }

  /** A tile filled earlier in the pass never causes the next tile to fill:
      it was filled only because that next tile was set already. */
  lemma GrowInPlace(r: TileRow, now: TileRow, j: nat)
    requires j < NUM_HORIZONTAL_TILES && PartlyGrown(r, now, j) && !now[j]
    ensures Fills(now, j) == Fills(r, j)
  {
    if j > 0 {
      assert now[j - 1] == Grow(r)[j - 1] == (r[j - 1] || Fills(r, j - 1));
    }
  }

  /** The inner loop of `grow_changed_tiles`: one row, left to right, in place. */
  method GrowRow(tiles: array2<bool>, i: int, count: int) returns (c: int)
    requires tiles.Length1 == NUM_HORIZONTAL_TILES && 0 <= i < tiles.Length0
    modifies tiles
    ensures RowOf(tiles, i) == Grow(old(RowOf(tiles, i)))
    ensures forall k, j :: 0 <= k < tiles.Length0 && k != i && 0 <= j < NUM_HORIZONTAL_TILES ==>
      tiles[k, j] == old(tiles[k, j])
    ensures c == count + SetCount(Grow(old(RowOf(tiles, i)))) - SetCount(old(RowOf(tiles, i)))
  {
    ghost var r := RowOf(tiles, i);
    ghost var now: TileRow := r;
    c := count;
    var j := 0;
    while j < NUM_HORIZONTAL_TILES
      invariant 0 <= j <= NUM_HORIZONTAL_TILES
      invariant PartlyGrown(r, now, j)
      invariant forall k :: 0 <= k < NUM_HORIZONTAL_TILES ==> tiles[i, k] == now[k]
      invariant c == count + SetCount(now) - SetCount(r)
      invariant forall k, j :: 0 <= k < tiles.Length0 && k != i && 0 <= j < NUM_HORIZONTAL_TILES ==>
        tiles[k, j] == old(tiles[k, j])
    {
      if !tiles[i, j] {
        var grow;
        if j == 0 {
          grow := tiles[i, 1];
        } else if j == NUM_HORIZONTAL_TILES - 1 {
          grow := tiles[i, j - 1];
        } else {
          grow := tiles[i, j - 1] && tiles[i, j + 1];
        }
        assert grow == Fills(now, j);
        GrowInPlace(r, now, j);
        if grow {
          SetCountUpdate(now, j);
          tiles[i, j] := true;
          now := now[j := true];
          c := c + 1;
        }
      }
      j := j + 1;
    }
    assert now == Grow(r);
    assert RowOf(tiles, i) == now;
  }

  method GrowChangedTiles(counts: array<int>, tiles: array2<bool>)
    requires tiles.Length1 == NUM_HORIZONTAL_TILES && tiles.Length0 == counts.Length
    modifies counts, tiles
    ensures forall i :: 0 <= i < counts.Length ==>
      && counts[i] == GrownCount(old(counts[i]), old(RowOf(tiles, i)))
      && RowOf(tiles, i) == GrownRow(old(counts[i]), old(RowOf(tiles, i)))
  {
    var i := 0;
    while i < counts.Length
      invariant 0 <= i <= counts.Length
      invariant forall k :: 0 <= k < i ==>
        && counts[k] == GrownCount(old(counts[k]), old(RowOf(tiles, k)))
        && RowOf(tiles, k) == GrownRow(old(counts[k]), old(RowOf(tiles, k)))
      invariant forall k :: i <= k < counts.Length ==>
        counts[k] == old(counts[k]) && RowOf(tiles, k) == old(RowOf(tiles, k))
    {
      if counts[i] != 0 && counts[i] != NUM_HORIZONTAL_TILES {
        if counts[i] > SCAN_ROW_THRESHOLD {
          counts[i] := NUM_HORIZONTAL_TILES;
        } else {
          label before:
          counts[i] := GrowRow(tiles, i, counts[i]);
          forall k | 0 <= k < counts.Length && k != i
            ensures RowOf(tiles, k) == old@before(RowOf(tiles, k))
          {
            assert forall j :: 0 <= j < NUM_HORIZONTAL_TILES ==> tiles[k, j] == old@before(tiles[k, j]);
          }
          if counts[i] > SCAN_ROW_THRESHOLD {
            counts[i] := NUM_HORIZONTAL_TILES;
          }
        }
      }
      i := i + 1;
    }
  }
}
