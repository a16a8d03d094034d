/** The shared-memory segment cache of src/display.c: ten slots, best fit on
    `get`, and on `add` an empty slot or the place of the smallest segment. */
module SegmentCache {
  import opened Geometry

  const SLOTS := 10

  /** A slot whose `shmid` is -1 is empty; its size then means nothing. */
  datatype Segment = Segment(shmid: int, size: nat) {
    predicate Empty() {
      shmid == -1
    }

    predicate Fits(request: nat) {
      !Empty() && request <= size
    }
  }

  function One(segment: Segment): multiset<Segment> {
    if segment.Empty() then multiset{} else multiset{segment}
  }

  /** The segments in the occupied slots. */
  function Held(slots: seq<Segment>): multiset<Segment> {
    if slots == [] then multiset{}
    else
      Held(slots[..|slots| - 1]) + One(slots[|slots| - 1])
  }

  /** The same in slot order. */
  function Occupied(slots: seq<Segment>): seq<Segment> {
    if slots == [] then []
    else
      var n := |slots| - 1;
      if slots[n].Empty() then Occupied(slots[..n]) else Occupied(slots[..n]) + [slots[n]]
  }

  lemma {:induction false} OccupiedIsHeld(slots: seq<Segment>)
    ensures multiset(Occupied(slots)) == Held(slots)
  {
    if slots == [] {
    } else {
      OccupiedIsHeld(slots[..|slots| - 1]);
    }
  }

  lemma OccupiedNext(slots: seq<Segment>, i: nat)
    requires i < |slots|
    ensures slots[i].Empty() ==> Occupied(slots[..i + 1]) == Occupied(slots[..i])
    ensures !slots[i].Empty() ==> Occupied(slots[..i + 1]) == Occupied(slots[..i]) + [slots[i]]
  {
    assert slots[..i + 1][..i] == slots[..i];
  }

  /* ---------- best fit ---------- */

  /** The first slot among those with the least size that is big enough. */
  ghost predicate IsBestFit(slots: seq<Segment>, size: nat, k: nat) {
    && k < |slots| && slots[k].Fits(size)
    && forall j :: 0 <= j < |slots| && slots[j].Fits(size) ==>
         slots[k].size <= slots[j].size && (j < k ==> slots[k].size < slots[j].size)
  }

  function BestFit(slots: seq<Segment>, size: nat): (r: Option<nat>)
    ensures r.Some? ==> IsBestFit(slots, size, r.value)
    ensures r.None? ==> forall j :: 0 <= j < |slots| ==> !slots[j].Fits(size)
  {
    if slots == [] then None
    else
      var n := |slots| - 1;
      var r := BestFit(slots[..n], size);
      if slots[n].Fits(size) && (r.None? || slots[n].size < slots[r.value].size) then Some(n) else r
  }

  lemma BestFitIs(slots: seq<Segment>, size: nat, k: nat)
    requires IsBestFit(slots, size, k)
    ensures BestFit(slots, size) == Some(k)
  {
    assert slots[k].Fits(size);
  }

  /* ---------- where a segment is put ---------- */

  datatype Place = Fill(slot: nat) | Evict(slot: nat) | Refuse

  ghost predicate IsFirstEmpty(slots: seq<Segment>, k: nat) {
    k < |slots| && slots[k].Empty() && forall j :: 0 <= j < k ==> !slots[j].Empty()
  }

  /** The first slot among those with the least size, which is below `size`. */
  ghost predicate IsSmallestBelow(slots: seq<Segment>, size: nat, k: nat) {
    && k < |slots| && slots[k].size < size
    && forall j :: 0 <= j < |slots| ==>
         slots[k].size <= slots[j].size && (j < k ==> slots[k].size < slots[j].size)
  }

  /** An empty slot if there is one; else the smallest segment makes way if it is
      smaller than the new one; else the new one is refused. */
  ghost predicate IsPlace(slots: seq<Segment>, size: nat, p: Place) {
    match p
    case Fill(k) => IsFirstEmpty(slots, k)
    case Evict(k) => (forall j :: 0 <= j < |slots| ==> !slots[j].Empty()) && IsSmallestBelow(slots, size, k)
    case Refuse => forall j :: 0 <= j < |slots| ==> !slots[j].Empty() && size <= slots[j].size
  }

  function FirstEmpty(slots: seq<Segment>): (r: Option<nat>)
    ensures r.Some? ==> IsFirstEmpty(slots, r.value)
    ensures r.None? ==> forall j :: 0 <= j < |slots| ==> !slots[j].Empty()
  {
    if slots == [] then None
    else
      var n := |slots| - 1;
      var r := FirstEmpty(slots[..n]);
      if r.None? && slots[n].Empty() then Some(n) else r
  }

  function SmallestBelow(slots: seq<Segment>, size: nat): (r: Option<nat>)
    ensures r.Some? ==> IsSmallestBelow(slots, size, r.value)
    ensures r.None? ==> forall j :: 0 <= j < |slots| ==> size <= slots[j].size
  {
    if slots == [] then None
    else
      var n := |slots| - 1;
      var r := SmallestBelow(slots[..n], size);
      if slots[n].size < size && (r.None? || slots[n].size < slots[r.value].size) then Some(n) else r
  }

  function PlaceFor(slots: seq<Segment>, size: nat): (p: Place)
    ensures IsPlace(slots, size, p)
  {
    match FirstEmpty(slots)
    case Some(k) => Fill(k)
    case None => match SmallestBelow(slots, size) case Some(k) => Evict(k) case None => Refuse
  }

  lemma PlaceIs(slots: seq<Segment>, size: nat, p: Place)
    requires IsPlace(slots, size, p)
    ensures PlaceFor(slots, size) == p
  {
    if !p.Refuse? {
      assert slots[p.slot].Empty() || slots[p.slot].size < size;
    }
  }

  /** An exact fit is the best fit, if nothing before it fits exactly. */
  lemma ExactIsBest(slots: seq<Segment>, k: nat, size: nat)
    requires k < |slots| && !slots[k].Empty() && slots[k].size == size
    requires BestFit(slots[..k], size).Some? ==> size < slots[BestFit(slots[..k], size).value].size
    ensures BestFit(slots, size) == Some(k)
  {
    forall j | 0 <= j < k && slots[j].Fits(size)
      ensures size < slots[j].size
    {
      assert slots[..k][j] == slots[j];
    }
    BestFitIs(slots, size, k);
  }

  function Put(slots: seq<Segment>, segment: Segment, p: Place): (r: seq<Segment>)
    requires !p.Refuse? ==> p.slot < |slots|
    ensures |r| == |slots|
  {
    if p.Refuse? then slots else slots[p.slot := segment]
  }

  function Evicted(slots: seq<Segment>, p: Place): seq<Segment>
    requires p.Evict? ==> p.slot < |slots|
  {
    if p.Evict? then [slots[p.slot]] else []
  }

  /** How many occupied slots hold `s`. */
  function Times(slots: seq<Segment>, s: Segment): nat {
    if slots == [] then 0
    else Times(slots[..|slots| - 1], s) + One(slots[|slots| - 1])[s]
  }

  lemma {:induction false} HeldTimes(slots: seq<Segment>, s: Segment)
    ensures Held(slots)[s] == Times(slots, s)
  {
    if slots == [] {
    } else {
      HeldTimes(slots[..|slots| - 1], s);
    }
  }

  lemma {:induction false} TimesUpdate(slots: seq<Segment>, k: nat, segment: Segment, s: Segment)
    requires k < |slots|
    ensures Times(slots[k := segment], s) + One(slots[k])[s] == Times(slots, s) + One(segment)[s]
  {
    var n := |slots| - 1;
    if k < n {
      TimesUpdate(slots[..n], k, segment, s);
      assert slots[k := segment][..n] == slots[..n][k := segment];
    } else {
      assert slots[k := segment][..n] == slots[..n];
    }
  }

  lemma HeldUpdate(slots: seq<Segment>, k: nat, segment: Segment)
    requires k < |slots|
    ensures Held(slots[k := segment]) + One(slots[k]) == Held(slots) + One(segment)
  {
    forall s
      ensures (Held(slots[k := segment]) + One(slots[k]))[s] == (Held(slots) + One(segment))[s]
    {
      HeldTimes(slots, s);
      HeldTimes(slots[k := segment], s);
      TimesUpdate(slots, k, segment, s);
    }
  }

  lemma {:induction false} HeldSlot(slots: seq<Segment>, k: nat)
    requires k < |slots| && !slots[k].Empty()
    ensures slots[k] in Held(slots)
  {
    if k == |slots| - 1 {
    } else {
      HeldSlot(slots[..|slots| - 1], k);
      assert slots[..|slots| - 1][k] == slots[k];
    }
  }

  lemma {:induction false} HeldIsSlot(slots: seq<Segment>, s: Segment)
    requires s in Held(slots)
    ensures s in slots && !s.Empty()
  {
    var n := |slots| - 1;
    if s !in Held(slots[..n]) {
    } else {
      HeldIsSlot(slots[..n], s);
    }
  }

  /** Nothing is lost or doubled by an add: what was held and the new segment are
      what is held after, what was evicted, and the new one if refused. */
  lemma PutConserves(slots: seq<Segment>, segment: Segment, p: Place)
    requires !segment.Empty() && IsPlace(slots, segment.size, p)
    ensures Held(slots) + multiset{segment} ==
      Held(Put(slots, segment, p)) + multiset(Evicted(slots, p)) +
      (if p.Refuse? then multiset{segment} else multiset{})
  {
    if !p.Refuse? {
      HeldUpdate(slots, p.slot, segment);
    }
  }

  function Taken(slots: seq<Segment>, k: nat): (r: seq<Segment>)
    requires k < |slots|
    ensures |r| == |slots|
  {
    slots[k := slots[k].(shmid := -1)]
  }

  lemma TakenConserves(slots: seq<Segment>, k: nat)
    requires k < |slots| && !slots[k].Empty()
    ensures Held(slots) == Held(Taken(slots, k)) + multiset{slots[k]}
  {
    HeldUpdate(slots, k, slots[k].(shmid := -1));
  }

  /** `get` on the multiset: a held segment of the least size that is big enough,
      and a failure only if no held segment is big enough. */
  lemma GetIsLeast(slots: seq<Segment>, size: nat)
    ensures var r := BestFit(slots, size);
      r.Some? ==>
        && slots[r.value] in Held(slots) && size <= slots[r.value].size
        && forall s :: s in Held(slots) && size <= s.size ==> slots[r.value].size <= s.size
    ensures BestFit(slots, size).None? ==> forall s :: s in Held(slots) ==> s.size < size
  {
    forall s | s in Held(slots)
      ensures exists j :: 0 <= j < |slots| && slots[j] == s && !slots[j].Empty()
    {
      HeldIsSlot(slots, s);
    }
    if BestFit(slots, size).Some? {
      HeldSlot(slots, BestFit(slots, size).value);
    }
  }

  /** `add` on the multiset: the segment that makes way is a smallest one and
      smaller than the new one; a refused one is no bigger than any held. */
  lemma AddEvictsLeast(slots: seq<Segment>, size: nat)
    ensures var p := PlaceFor(slots, size);
      p.Evict? ==>
        && slots[p.slot] in Held(slots) && slots[p.slot].size < size
        && forall s :: s in Held(slots) ==> slots[p.slot].size <= s.size
    ensures PlaceFor(slots, size).Refuse? ==> forall s :: s in Held(slots) ==> size <= s.size
  {
    forall s | s in Held(slots)
      ensures exists j :: 0 <= j < |slots| && slots[j] == s
    {
      HeldIsSlot(slots, s);
    }
    var p := PlaceFor(slots, size);
    if p.Evict? {
      HeldSlot(slots, p.slot);
    }
  }

  /* ---------- the ten largest ---------- */

  /** How many segments have at least this size. */
  function AtLeast(slots: seq<Segment>, size: nat): (n: nat)
    ensures n <= |slots|
  {
    if slots == [] then 0
    else
      var n := |slots| - 1;
      AtLeast(slots[..n], size) + (if slots[n].Fits(size) then 1 else 0)
  }

  lemma {:induction false} AtLeastUpdate(slots: seq<Segment>, k: nat, segment: Segment, size: nat)
    requires k < |slots|
    ensures AtLeast(slots[k := segment], size) ==
      AtLeast(slots, size) - (if slots[k].Fits(size) then 1 else 0) + (if segment.Fits(size) then 1 else 0)
  {
    var n := |slots| - 1;
    if k < n {
      AtLeastUpdate(slots[..n], k, segment, size);
      assert slots[k := segment][..n] == slots[..n][k := segment];
    } else {
      assert slots[k := segment][..n] == slots[..n];
    }
  }

  lemma {:induction false} AllFit(slots: seq<Segment>, size: nat)
    requires forall j :: 0 <= j < |slots| ==> slots[j].Fits(size)
    ensures AtLeast(slots, size) == |slots|
  {
    if slots == [] {
    } else {
      AllFit(slots[..|slots| - 1], size);
    }
  }

  lemma {:induction false} NotAllFit(slots: seq<Segment>, size: nat, k: nat)
    requires k < |slots| && !slots[k].Fits(size)
    ensures AtLeast(slots, size) < |slots|
  {
    if k == |slots| - 1 {
    } else {
      NotAllFit(slots[..|slots| - 1], size, k);
    }
  }

  /** The slots after one add. */
  function AddOne(slots: seq<Segment>, segment: Segment): (r: seq<Segment>)
    ensures |r| == |slots|
  {
    Put(slots, segment, PlaceFor(slots, segment.size))
  }

  /** The slots after a run of adds. */
  function AddAll(slots: seq<Segment>, offered: seq<Segment>): (r: seq<Segment>)
    ensures |r| == |slots|
  {
    if offered == [] then slots
    else
      AddOne(AddAll(slots, offered[..|offered| - 1]), offered[|offered| - 1])
  }

  function Min(a: nat, b: nat): nat {
    if a < b then a else b
  }

  lemma PutCounts(slots: seq<Segment>, segment: Segment, k: nat, size: nat)
    requires k < |slots| && !segment.Empty()
    requires slots[k].Empty() || (slots[k].size < segment.size &&
      forall j :: 0 <= j < |slots| ==> slots[j].Fits(slots[k].size))
    ensures AtLeast(slots[k := segment], size) ==
      Min(|slots|, AtLeast(slots, size) + (if segment.Fits(size) then 1 else 0))
  {
    AtLeastUpdate(slots, k, segment, size);
    if slots[k].Fits(size) {
      AllFit(slots, size);
    } else {
      NotAllFit(slots, size, k);
    }
  }

  lemma AddCounts(slots: seq<Segment>, segment: Segment, size: nat)
    requires !segment.Empty()
    ensures AtLeast(AddOne(slots, segment), size) ==
      Min(|slots|, AtLeast(slots, size) + (if segment.Fits(size) then 1 else 0))
  {
    var p := PlaceFor(slots, segment.size);
    if !p.Refuse? {
      PutCounts(slots, segment, p.slot, size);
    } else if segment.Fits(size) {
      AllFit(slots, size);
    }
  }

  /** Over any run of adds the cached sizes are the largest ones among the initial
      contents and everything offered, as many as there are slots: for every
      size, the number of cached segments at least that big is the number of all
      segments at least that big, or all slots. */
  lemma {:induction false} LargestKept(slots: seq<Segment>, offered: seq<Segment>, size: nat)
    requires forall s :: s in offered ==> !s.Empty()
    ensures AtLeast(AddAll(slots, offered), size) == Min(|slots|, AtLeast(slots, size) + AtLeast(offered, size))
  {
    if offered == [] {
    } else {
      var n := |offered| - 1;
      LargestKept(slots, offered[..n], size);
      AddAllCounts(slots, offered, size);
    }
  }

  lemma AddAllCounts(slots: seq<Segment>, offered: seq<Segment>, size: nat)
    requires offered != [] && !offered[|offered| - 1].Empty()
    ensures var front, last := offered[..|offered| - 1], offered[|offered| - 1];
      && AtLeast(AddAll(slots, offered), size) ==
         Min(|slots|, AtLeast(AddAll(slots, front), size) + (if last.Fits(size) then 1 else 0))
      && AtLeast(offered, size) == AtLeast(front, size) + (if last.Fits(size) then 1 else 0)
  {
    AddCounts(AddAll(slots, offered[..|offered| - 1]), offered[|offered| - 1], size);
  }

  /** A run of adds begins with its first one. */
  lemma {:induction false} AddFirst(slots: seq<Segment>, offered: seq<Segment>)
    requires offered != []
    ensures AddAll(slots, offered) == AddAll(AddOne(slots, offered[0]), offered[1..])
  {
    var n := |offered| - 1;
    if n == 0 {
      assert offered[..0] == [] && offered[1..] == [];
    } else {
      AddFirst(slots, offered[..n]);
      assert offered[1..][..n - 1] == offered[..n][1..];
    }
  }

  /* ---------- the cache ---------- */

  class ShmCache {
    const slots: array<Segment>

    ghost predicate Valid()
      reads this
    {
      slots.Length == SLOTS
    }

    constructor ()
      ensures Valid() && fresh(slots) && forall j :: 0 <= j < SLOTS ==> slots[j].Empty()
    {
      slots := new Segment[SLOTS](_ => Segment(-1, 0));
    }

    /** `shm_cache_get`: an exact fit ends the search. */
    method Get(size: nat) returns (segment: Option<Segment>)
      requires Valid()
      modifies slots
      ensures var was := old(slots[..]);
        match BestFit(was, size)
        case None => segment == None && slots[..] == was
        case Some(k) => segment == Some(was[k]) && slots[..] == Taken(was, k)
    {
      var bigger: Option<nat> := None;
      var use: Option<nat> := None;
      var i := 0;
      while i < slots.Length
        invariant 0 <= i <= SLOTS && use == None && slots[..] == old(slots[..])
        invariant bigger == BestFit(slots[..i], size)
        invariant bigger.Some? ==> size < slots[bigger.value].size
      {
        var entry := slots[i];
        assert slots[..i + 1][..i] == slots[..i];
        if entry.shmid != -1 {
          if size == entry.size {
            use := Some(i);
            break;
          }
          if size < entry.size && (bigger.None? || entry.size < slots[bigger.value].size) {
            bigger := Some(i);
          }
        }
        i := i + 1;
      }
      if use.None? {
        assert slots[..i] == slots[..];
        use := bigger;
      } else {
        ExactIsBest(slots[..], i, size);
      }
      if use.None? {
        return None;
      }
      segment := Some(slots[use.value]);
      slots[use.value] := slots[use.value].(shmid := -1);
    }

    /** `shm_cache_add`: whether the segment was stored, and what was destroyed to
        make room. */
    method Add(segment: Segment) returns (stored: bool, destroyed: Option<Segment>)
      requires Valid()
      modifies slots
      ensures var was := old(slots[..]); var p := PlaceFor(was, segment.size);
        && slots[..] == Put(was, segment, p) && stored == !p.Refuse?
        && destroyed == if p.Evict? then Some(was[p.slot]) else None
    {
      var smallest: Option<nat> := None;
      var use: Option<nat> := None;
      destroyed := None;
      var i := 0;
      while i < slots.Length
        invariant 0 <= i <= SLOTS && use == None && slots[..] == old(slots[..])
        invariant forall j :: 0 <= j < i ==> !slots[j].Empty()
        invariant smallest == SmallestBelow(slots[..i], segment.size)
      {
        var entry := slots[i];
        assert slots[..i + 1][..i] == slots[..i];
        if entry.shmid == -1 {
          use := Some(i);
          break;
        }
        if entry.size < segment.size && (smallest.None? || entry.size < slots[smallest.value].size) {
          smallest := Some(i);
        }
        i := i + 1;
      }
      assert use.None? ==> slots[..i] == slots[..];
      ghost var p := if use.Some? then Fill(use.value) else if smallest.Some? then Evict(smallest.value) else Refuse;
      PlaceIs(slots[..], segment.size, p);
      if use.None? && smallest.Some? {
        destroyed := Some(slots[smallest.value]);
        slots[smallest.value] := slots[smallest.value].(shmid := -1);
        use := smallest;
      }
      if use.Some? {
        slots[use.value] := segment;
      }
      stored := use.Some?;
    }

    /** `shm_cache_destroy`: every held segment is destroyed, once, in slot order. */
    method Destroy() returns (destroyed: seq<Segment>)
      requires Valid()
      modifies slots
      ensures destroyed == Occupied(old(slots[..]))
      ensures forall j :: 0 <= j < SLOTS ==> slots[j].Empty()
    {
      ghost var was := slots[..];
      destroyed := [];
      var i := 0;
      while i < slots.Length
        invariant 0 <= i <= SLOTS && |was| == SLOTS
        invariant forall j :: 0 <= j < i ==> slots[j].shmid == -1
        invariant forall j :: i <= j < SLOTS ==> slots[j] == was[j]
        invariant destroyed == Occupied(was[..i])
      {
        OccupiedNext(was, i);
        if slots[i].shmid != -1 {
          destroyed := destroyed + [slots[i]];
          slots[i] := slots[i].(shmid := -1);
        }
        i := i + 1;
      }
      assert was[..i] == was;
    }
  }
}
