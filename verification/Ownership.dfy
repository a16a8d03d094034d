/** Who owns a shared-memory segment: a cache slot, an image, or an image held by
    the release record of a draw command. */
module Ownership {
  import opened Arithmetic
  import opened Sequences
  import opened SegmentCache

  /** An image of `w` by `h` pixels of `bits` bits. */
  datatype Image = Image(segment: Segment, w: nat, h: nat, bits: nat)

  /** `unsigned int` arithmetic. */
  function Unsigned(n: nat): (r: nat)
    ensures r < 0x1_0000_0000 && (n < 0x1_0000_0000 ==> r == n)
  {
    if n < 0x1_0000_0000 then n else n % 0x1_0000_0000
  }

  function BytesPerLine(bits: nat, w: nat): nat {
    Unsigned((bits / 8) * w)
  }

  /** What `create_shm_image` asks for: 32-bit arithmetic, then widened. */
  function ImageSize(bytesPerLine: nat, h: nat): nat {
    Unsigned(bytesPerLine * h)
  }

  /** The bytes the pixels take. */
  function PixelBytes(bits: nat, w: nat, h: nat): nat {
    (bits / 8) * w * h
  }

  /** The size asked for holds the pixels exactly when their bytes can be counted
      in 32 bits. */
  lemma SizeHoldsPixelsIff(bits: nat, w: nat, h: nat)
    ensures ImageSize(BytesPerLine(bits, w), h) >= PixelBytes(bits, w, h) <==> PixelBytes(bits, w, h) < 0x1_0000_0000
    ensures PixelBytes(bits, w, h) < 0x1_0000_0000 ==> ImageSize(BytesPerLine(bits, w), h) == PixelBytes(bits, w, h)
  {
    var line := (bits / 8) * w;
    if h == 0 {
      assert line * h == 0;
    } else {
      MulMonotone(1, h, line);
      assert line * h >= line;
    }
  }

  /* ---------- the state machine ---------- */

  /** `issued` are all segments ever allocated, numbered by their `shmid`;
      `destroyed` those removed, in order; `lost` those nobody holds any more. */
  datatype State = State(
    slots: seq<Segment>,
    images: seq<Image>,
    releases: seq<Image>,
    issued: seq<Segment>,
    destroyed: seq<Segment>,
    lost: seq<Segment>)

  /** How an allocation ends when no cached segment fits. */
  datatype Outcome = Attached | NoSegment | NotMapped | NotAttached

  datatype Action =
    | Create(w: nat, h: nat, bits: nat, outcome: Outcome)
    | Destroy(image: nat)
    | Dispatch(image: nat, recorded: bool)
    | Release(record: nat)
    | DestroyCache

  /** The image or record an action names exists. */
  predicate CanStep(s: State, a: Action) {
    match a
    case Destroy(i) => i < |s.images|
    case Dispatch(i, _) => i < |s.images|
    case Release(r) => r < |s.releases|
    case _ => true
  }

  /** `create_shm_image`. A segment that cannot be mapped is never removed; one
      that cannot be attached is forgotten with its image. */
  function CreateImage(s: State, w: nat, h: nat, bits: nat, outcome: Outcome): State {
    var size := ImageSize(BytesPerLine(bits, w), h);
    match BestFit(s.slots, size)
    case Some(k) => s.(slots := Taken(s.slots, k), images := s.images + [Image(s.slots[k], w, h, bits)])
    case None =>
      var segment := Segment(|s.issued|, size);
      match outcome
      case NoSegment => s
      case Attached => s.(issued := s.issued + [segment], images := s.images + [Image(segment, w, h, bits)])
      case _ => s.(issued := s.issued + [segment], lost := s.lost + [segment])
  }

  /** What is destroyed when a segment is given back: one that had to make way, or
      itself if the cache refuses it. */
  function Gone(slots: seq<Segment>, segment: Segment): seq<Segment> {
    var p := PlaceFor(slots, segment.size);
    if p.Refuse? then [segment] else Evicted(slots, p)
  }

  /** `destroy_shm_image`, once the image has left its owner. */
  function DestroyImage(s: State, image: Image): State {
    s.(slots := AddOne(s.slots, image.segment),
      destroyed := s.destroyed + Gone(s.slots, image.segment))
  }

  function Cleared(slots: seq<Segment>): (r: seq<Segment>)
    ensures |r| == |slots|
  {
    seq(|slots|, i requires 0 <= i < |slots| => slots[i].(shmid := -1))
  }

  function Step(s: State, a: Action): State {
    if !CanStep(s, a) then s else
    match a
    case Create(w, h, bits, outcome) => CreateImage(s, w, h, bits, outcome)
    case Destroy(i) => DestroyImage(s.(images := Without(s.images, i)), s.images[i])
    case Dispatch(i, recorded) =>
      var s' := s.(images := Without(s.images, i));
      if recorded then s'.(releases := s.releases + [s.images[i]])
      else s'.(lost := s.lost + [s.images[i].segment])
    case Release(r) => DestroyImage(s.(releases := Without(s.releases, r)), s.releases[r])
    case DestroyCache => s.(slots := Cleared(s.slots), destroyed := s.destroyed + Occupied(s.slots))
  }

  /* ---------- conservation ---------- */

  function Segments(images: seq<Image>): (r: seq<Segment>)
    ensures |r| == |images|
  {
    seq(|images|, i requires 0 <= i < |images| => images[i].segment)
  }

  function Owned(s: State): multiset<Segment> {
    Held(s.slots) + multiset(Segments(s.images)) + multiset(Segments(s.releases))
  }

  ghost predicate BigEnough(images: seq<Image>) {
    forall i :: 0 <= i < |images| ==>
      images[i].segment.size >= ImageSize(BytesPerLine(images[i].bits, images[i].w), images[i].h) &&
        !images[i].segment.Empty()
  }

  /** Every segment ever allocated is owned by one slot or one image, or was
      destroyed, or is lost; and every image's segment is big enough. */
  ghost predicate Conserved(s: State) {
    && (forall i :: 0 <= i < |s.issued| ==> s.issued[i].shmid == i)
    && multiset(s.issued) == Owned(s) + multiset(s.destroyed) + multiset(s.lost)
    && BigEnough(s.images) && BigEnough(s.releases)
  }

  lemma WithoutImage(images: seq<Image>, k: nat)
    requires k < |images| && BigEnough(images)
    ensures BigEnough(Without(images, k))
    ensures multiset(Segments(images)) == multiset(Segments(Without(images, k))) + multiset{images[k].segment}
  {
    assert Segments(images) == Segments(images)[..k] + [images[k].segment] + Segments(images)[k + 1..];
    assert Segments(Without(images, k)) == Segments(images)[..k] + Segments(images)[k + 1..];
  }

  lemma WithImage(images: seq<Image>, image: Image)
    ensures multiset(Segments(images + [image])) == multiset(Segments(images)) + multiset{image.segment}
  {
    assert Segments(images + [image]) == Segments(images) + [image.segment];
  }

  lemma Rebalanced<T>(h: multiset<T>, h': multiset<T>, rest: multiset<T>, d: multiset<T>, g: multiset<T>,
    e: multiset<T>)
    requires h + g == h' + e
    ensures h + rest + d + g == h' + rest + (d + e)
  {
    forall x
      ensures (h + rest + d + g)[x] == (h' + rest + (d + e))[x]
    {
      assert (h + g)[x] == (h' + e)[x];
    }
  }

  /** The owners of a state, as one multiset: slots, then everything else. */
  function Total(held: multiset<Segment>, images: multiset<Segment>, releases: multiset<Segment>,
    destroyed: multiset<Segment>, lost: multiset<Segment>): multiset<Segment>
  {
    held + (images + releases + lost) + destroyed
  }

  lemma TotalIs(s: State)
    ensures Owned(s) + multiset(s.destroyed) + multiset(s.lost) ==
      Total(Held(s.slots), multiset(Segments(s.images)), multiset(Segments(s.releases)), multiset(s.destroyed),
        multiset(s.lost))
  {
  }

  /** Destroying an image that has left its owner puts its segment in the cache or
      destroys it, along with what was evicted. */
  lemma DestroyConserves(s: State, image: Image)
    requires !image.segment.Empty()
    requires forall i :: 0 <= i < |s.issued| ==> s.issued[i].shmid == i
    requires multiset(s.issued) == Owned(s) + multiset(s.destroyed) + multiset(s.lost) + multiset{image.segment}
    requires BigEnough(s.images) && BigEnough(s.releases)
    ensures Conserved(DestroyImage(s, image))
  {
    var t := DestroyImage(s, image);
    GoneIs(s, image);
    TotalIs(s);
    TotalIs(t);
    Rebalanced(Held(s.slots), Held(t.slots),
      multiset(Segments(s.images)) + multiset(Segments(s.releases)) + multiset(s.lost),
      multiset(s.destroyed), multiset{image.segment}, multiset(Gone(s.slots, image.segment)));
  }

  lemma GoneIs(s: State, image: Image)
    requires !image.segment.Empty()
    ensures var t := DestroyImage(s, image);
      && Held(s.slots) + multiset{image.segment} == Held(t.slots) + multiset(Gone(s.slots, image.segment))
      && multiset(t.destroyed) == multiset(s.destroyed) + multiset(Gone(s.slots, image.segment))
  {
    PutConserves(s.slots, image.segment, PlaceFor(s.slots, image.segment.size));
  }

  lemma HitConserves(s: State, k: nat, image: Image)
    requires Conserved(s) && k < |s.slots| && !s.slots[k].Empty()
    requires image.segment == s.slots[k] && BigEnough([image])
    ensures Conserved(s.(slots := Taken(s.slots, k), images := s.images + [image]))
  {
    TakenConserves(s.slots, k);
    WithImage(s.images, image);
    assert [image][0] == image;
  }

  lemma MissConserves(s: State, image: Image)
    requires Conserved(s) && image.segment.shmid == |s.issued| && BigEnough([image])
    ensures Conserved(s.(issued := s.issued + [image.segment], images := s.images + [image]))
    ensures Conserved(s.(issued := s.issued + [image.segment], lost := s.lost + [image.segment]))
  {
    WithImage(s.images, image);
    assert [image][0] == image;
  }

  lemma CreateConserves(s: State, a: Action)
    requires Conserved(s) && a.Create?
    ensures Conserved(Step(s, a))
  {
    var size := ImageSize(BytesPerLine(a.bits, a.w), a.h);
    match BestFit(s.slots, size)
    case Some(k) => HitConserves(s, k, Image(s.slots[k], a.w, a.h, a.bits));
    case None => MissConserves(s, Image(Segment(|s.issued|, size), a.w, a.h, a.bits));
  }

  lemma DispatchConserves(s: State, i: nat, recorded: bool)
    requires Conserved(s) && i < |s.images|
    ensures Conserved(Step(s, Dispatch(i, recorded)))
  {
    WithoutImage(s.images, i);
    WithImage(s.releases, s.images[i]);
  }

  lemma {:induction false} ClearedHoldsNothing(slots: seq<Segment>)
    requires forall j :: 0 <= j < |slots| ==> slots[j].Empty()
    ensures Held(slots) == multiset{}
  {
    if slots == [] {
    } else {
      ClearedHoldsNothing(slots[..|slots| - 1]);
    }
  }

  lemma EvictedConserves(s: State, slots: seq<Segment>, gone: seq<Segment>)
    requires Conserved(s) && Held(s.slots) == Held(slots) + multiset(gone)
    ensures Conserved(s.(slots := slots, destroyed := s.destroyed + gone))
  {
    var i, r, l := multiset(Segments(s.images)), multiset(Segments(s.releases)), multiset(s.lost);
    MovedOut(Held(s.slots), Held(slots), i, r, multiset(s.destroyed), l, multiset(gone));
    assert multiset(s.destroyed + gone) == multiset(s.destroyed) + multiset(gone);
  }

  lemma MovedOut<T>(h: multiset<T>, h': multiset<T>, i: multiset<T>, r: multiset<T>, d: multiset<T>,
    l: multiset<T>, g: multiset<T>)
    requires h == h' + g
    ensures h + i + r + d + l == h' + i + r + (d + g) + l
  {
  }

  lemma DestroyCacheConserves(s: State)
    requires Conserved(s)
    ensures Conserved(Step(s, DestroyCache))
  {
    ClearedHoldsNothing(Cleared(s.slots));
    OccupiedIsHeld(s.slots);
    var t := s.(slots := Cleared(s.slots), destroyed := s.destroyed + Occupied(s.slots));
    EvictedConserves(s, Cleared(s.slots), Occupied(s.slots));
    assert Step(s, DestroyCache) == t;
  }

  lemma StepConserves(s: State, a: Action)
    requires Conserved(s) && CanStep(s, a)
    ensures Conserved(Step(s, a))
  {
    match a
    case Create(_, _, _, _) => CreateConserves(s, a);
    case Destroy(i) =>
      WithoutImage(s.images, i);
      DestroyConserves(s.(images := Without(s.images, i)), s.images[i]);
    case Dispatch(i, recorded) => DispatchConserves(s, i, recorded);
    case Release(r) =>
      WithoutImage(s.releases, r);
      DestroyConserves(s.(releases := Without(s.releases, r)), s.releases[r]);
    case DestroyCache => DestroyCacheConserves(s);
  }

  function Begin(): State {
    State(seq(SLOTS, _ => Segment(-1, 0)), [], [], [], [], [])
  }

  function After(s: State, run: seq<Action>): State {
    if run == [] then s else Step(After(s, run[..|run| - 1]), run[|run| - 1])
  }

  /** Ownership over every run. */
  lemma {:induction false} RunConserves(run: seq<Action>)
    ensures Conserved(After(Begin(), run))
  {
    if run == [] {
      ClearedHoldsNothing(Begin().slots);
    } else {
      RunConserves(run[..|run| - 1]);
      var s, a := After(Begin(), run[..|run| - 1]), run[|run| - 1];
      if CanStep(s, a) {
        StepConserves(s, a);
      }
    }
  }

  /** A segment is in one place only: the owners it has, the times it was
      destroyed and the times it was lost add up to one. */
  lemma OneOwner(s: State, i: nat)
    requires Conserved(s) && i < |s.issued|
    ensures var g := s.issued[i];
      Held(s.slots)[g] + multiset(Segments(s.images))[g] + multiset(Segments(s.releases))[g] +
      multiset(s.destroyed)[g] + multiset(s.lost)[g] == 1
  {
    IssuedOnce(s.issued, i);
    assert multiset(s.issued)[s.issued[i]] == 1;
  }

  lemma {:induction false} IssuedOnce(issued: seq<Segment>, i: nat)
    requires i < |issued| && forall j :: 0 <= j < |issued| ==> issued[j].shmid == j
    ensures multiset(issued)[issued[i]] == 1
  {
    var n := |issued| - 1;
    assert issued == issued[..n] + [issued[n]];
    if i < n {
      IssuedOnce(issued[..n], i);
      assert issued[..n][i] == issued[i];
    } else {
      assert issued[i] !in issued[..n];
    }
  }

  /** The steps that lose a segment: an allocation that fails after the segment
      exists, and a draw command without a release record. */
  predicate Loses(s: State, a: Action) {
    CanStep(s, a) &&
    match a
    case Create(w, h, bits, outcome) =>
      (outcome.NotMapped? || outcome.NotAttached?) && BestFit(s.slots, ImageSize(BytesPerLine(bits, w), h)).None?
    case Dispatch(_, recorded) => !recorded
    case _ => false
  }

  lemma LostStep(s: State, a: Action)
    ensures |Step(s, a).lost| == |s.lost| + (if Loses(s, a) then 1 else 0)
  {
  }

  /** How many steps of a run lose a segment. */
  function Losses(s: State, run: seq<Action>): nat {
    if run == [] then 0
    else
      var before := run[..|run| - 1];
      Losses(s, before) + (if Loses(After(s, before), run[|run| - 1]) then 1 else 0)
  }

  /** As many segments are lost in a run as it has steps of these kinds; so none is
      lost exactly when there is no such step. */
  lemma {:induction false} LostExactly(run: seq<Action>)
    ensures |After(Begin(), run).lost| == Losses(Begin(), run)
  {
    if run == [] {
    } else {
      var before := run[..|run| - 1];
      LostExactly(before);
      LostStep(After(Begin(), before), run[|run| - 1]);
    }
  }

  /** In every run, an image's segment holds its pixels if they can be counted in 32
      bits. */
  lemma ImagesHoldPixels(run: seq<Action>, image: Image)
    requires image in After(Begin(), run).images || image in After(Begin(), run).releases
    requires PixelBytes(image.bits, image.w, image.h) < 0x1_0000_0000
    ensures image.segment.size >= PixelBytes(image.bits, image.w, image.h)
  {
    RunConserves(run);
    SizeHoldsPixelsIff(image.bits, image.w, image.h);
  }

  /* ---------- closing the display ---------- */

  /** Destroys the images one after the other, as `display_destroy_screen_images` does. */
  function DestroyImages(s: State): State
    decreases |s.images|
  {
    if s.images == [] then s else DestroyImages(Step(s, Destroy(0)))
  }

  /** `display_close` empties the cache before it destroys the screen images. */
  function Close(s: State): State {
    DestroyImages(Step(s, DestroyCache))
  }

  lemma {:induction false} FullHolds(slots: seq<Segment>)
    requires forall j :: 0 <= j < |slots| ==> !slots[j].Empty()
    ensures |Held(slots)| == |slots|
  {
    if slots == [] {
    } else {
      FullHolds(slots[..|slots| - 1]);
    }
  }

  /** With room in the cache a segment that is given back fills a slot, and nothing is
      destroyed. */
  lemma RoomKeeps(slots: seq<Segment>, segment: Segment)
    requires |Held(slots)| < |slots| && !segment.Empty()
    ensures Held(Put(slots, segment, PlaceFor(slots, segment.size))) == Held(slots) + multiset{segment}
    ensures Gone(slots, segment) == []
  {
    var p := PlaceFor(slots, segment.size);
    if !p.Fill? {
      FullHolds(slots);
      assert false;
    }
    PutConserves(slots, segment, p);
  }

  lemma FirstSegment(images: seq<Image>)
    requires images != []
    ensures multiset(Segments(images)) == multiset{images[0].segment} + multiset(Segments(Without(images, 0)))
  {
    assert Segments(images) == [images[0].segment] + Segments(Without(images, 0));
  }

  lemma {:induction false} ImagesFillCache(s: State)
    requires |Held(s.slots)| + |s.images| <= |s.slots| && BigEnough(s.images)
    ensures var t := DestroyImages(s);
      && Held(t.slots) == Held(s.slots) + multiset(Segments(s.images))
      && t.destroyed == s.destroyed && t.images == []
    decreases |s.images|
  {
    if s.images == [] {
      assert Segments(s.images) == [];
    } else {
      RoomKeeps(s.slots, s.images[0].segment);
      FirstSegment(s.images);
      ImagesFillCache(Step(s, Destroy(0)));
    }
  }

  /** Closing destroys what was cached and nothing else: with no more images than slots,
      the segments of all of them are in the cache afterwards. */
  lemma ClosingRefillsCache(s: State)
    requires |s.images| <= |s.slots| && BigEnough(s.images)
    ensures Held(Close(s).slots) == multiset(Segments(s.images))
    ensures Close(s).destroyed == s.destroyed + Occupied(s.slots)
    ensures Held(Close(s).slots) == multiset{} <==> s.images == []
  {
    ClearedHoldsNothing(Cleared(s.slots));
    ImagesFillCache(Step(s, DestroyCache));
    assert |multiset(Segments(s.images))| == |s.images|;
  }

  /* ---------- the whole shutdown ---------- */

  /** Frees the first `k` release records, or as many as there are. */
  function ReleaseFirst(s: State, k: nat): State
    decreases k
  {
    if k == 0 || s.releases == [] then s else ReleaseFirst(Step(s, Release(0)), k - 1)
  }

  /** `main` after the GUI ends: the screen images are destroyed, the Spice server frees
      the `served` draws it had been given, the display is closed, and the session
      frees the draws that were never delivered. */
  function Shutdown(s: State, served: nat): State {
    var t := Close(ReleaseFirst(DestroyImages(s), served));
    ReleaseFirst(t, |t.releases|)
  }

  lemma {:induction false} DestroyImagesKeeps(s: State)
    requires Conserved(s)
    ensures var t := DestroyImages(s);
      Conserved(t) && t.images == [] && t.releases == s.releases && |t.slots| == |s.slots| && t.issued == s.issued
    decreases |s.images|
  {
    if s.images == [] {
    } else {
      StepConserves(s, Destroy(0));
      DestroyImagesKeeps(Step(s, Destroy(0)));
    }
  }

  lemma ReleaseStep(s: State)
    requires s.releases != []
    ensures Step(s, Release(0)) == DestroyImage(s.(releases := s.releases[1..]), s.releases[0])
  {
    assert Without(s.releases, 0) == s.releases[1..];
  }

  lemma {:induction false} ReleaseFirstKeeps(s: State, k: nat)
    requires Conserved(s) && k <= |s.releases|
    ensures Conserved(ReleaseFirst(s, k))
    decreases k
  {
    if k == 0 {
    } else {
      ReleaseStep(s);
      StepConserves(s, Release(0));
      ReleaseFirstKeeps(Step(s, Release(0)), k - 1);
    }
  }

  lemma {:induction false} ReleaseFirstLeaves(s: State, k: nat)
    requires k <= |s.releases|
    ensures var t := ReleaseFirst(s, k);
      t.images == s.images && t.releases == s.releases[k..] && |t.slots| == |s.slots| && t.issued == s.issued
    decreases k
  {
    if k == 0 {
    } else {
      ReleaseStep(s);
      ReleaseFirstLeaves(Step(s, Release(0)), k - 1);
      assert s.releases[1..][k - 1..] == s.releases[k..];
    }
  }

  lemma ReleaseSlots(s: State, k: nat) returns (t: State)
    requires 0 < k && s.releases != []
    ensures ReleaseFirst(s, k) == ReleaseFirst(t, k - 1)
    ensures t.slots == AddOne(s.slots, s.releases[0].segment) && t.releases == s.releases[1..]
  {
    t := Step(s, Release(0));
    ReleaseStep(s);
  }

  lemma SegmentsTail(images: seq<Image>)
    requires images != []
    ensures Segments(images) != [] && Segments(images)[0] == images[0].segment
    ensures Segments(images)[1..] == Segments(images[1..])
  {
  }

  /** Freeing all records adds their segments to the cache in order. */
  lemma {:induction false} ReleasesAdd(s: State, k: nat)
    requires k == |s.releases|
    ensures ReleaseFirst(s, k).slots == AddAll(s.slots, Segments(s.releases))
    decreases k
  {
    if k == 0 {
      assert Segments(s.releases) == [];
    } else {
      var t := ReleaseSlots(s, k);
      ReleasesAdd(t, k - 1);
      SegmentsTail(s.releases);
      AddFirst(s.slots, Segments(s.releases));
    }
  }

  lemma {:induction false} NoneAtLeast(slots: seq<Segment>, size: nat)
    requires forall j :: 0 <= j < |slots| ==> slots[j].Empty()
    ensures AtLeast(slots, size) == 0
  {
    if slots == [] {
    } else {
      NoneAtLeast(slots[..|slots| - 1], size);
    }
  }

  /** When the display has been closed only the undelivered draws hold segments. */
  lemma ClosedLeaves(s: State, served: nat)
    requires Conserved(s) && served <= |s.releases|
    ensures var t := Close(ReleaseFirst(DestroyImages(s), served));
      && Conserved(t) && t.images == [] && t.releases == s.releases[served..] && t.issued == s.issued
      && |t.slots| == |s.slots| && forall j :: 0 <= j < |t.slots| ==> t.slots[j].Empty()
  {
    DestroyImagesKeeps(s);
    ReleaseFirstKeeps(DestroyImages(s), served);
    ReleaseFirstLeaves(DestroyImages(s), served);
    StepConserves(ReleaseFirst(DestroyImages(s), served), DestroyCache);
  }

  /** After the whole shutdown nothing is owned but by the cache, which holds the largest
      segments of the undelivered draws. */
  lemma ShutdownRemains(s: State, served: nat, size: nat)
    requires Conserved(s) && served <= |s.releases|
    ensures var t := Shutdown(s, served);
      && Conserved(t) && t.images == [] && t.releases == [] && t.issued == s.issued
      && AtLeast(t.slots, size) == Min(|s.slots|, AtLeast(Segments(s.releases[served..]), size))
  {
    ClosedLeaves(s, served);
    UndeliveredRemain(Close(ReleaseFirst(DestroyImages(s), served)), size);
  }

  lemma UndeliveredRemain(t: State, size: nat)
    requires Conserved(t) && forall j :: 0 <= j < |t.slots| ==> t.slots[j].Empty()
    ensures var u := ReleaseFirst(t, |t.releases|);
      && Conserved(u) && u.images == t.images && u.releases == [] && u.issued == t.issued
      && AtLeast(u.slots, size) == Min(|t.slots|, AtLeast(Segments(t.releases), size))
  {
    UndeliveredCounts(t, size);
    ReleaseFirstKeeps(t, |t.releases|);
    ReleaseFirstLeaves(t, |t.releases|);
    assert t.releases[|t.releases|..] == [];
  }

  lemma UndeliveredCounts(t: State, size: nat)
    requires BigEnough(t.releases) && forall j :: 0 <= j < |t.slots| ==> t.slots[j].Empty()
    ensures AtLeast(ReleaseFirst(t, |t.releases|).slots, size) == Min(|t.slots|, AtLeast(Segments(t.releases), size))
  {
    NoneAtLeast(t.slots, size);
    ReleasesAdd(t, |t.releases|);
    LargestKept(t.slots, Segments(t.releases), size);
  }

  /** So the shutdown destroys every segment that is not lost exactly when every draw had
      been delivered. */
  lemma ShutdownDestroysAllIff(s: State, served: nat)
    requires Conserved(s) && served <= |s.releases| && s.slots != []
    ensures var t := Shutdown(s, served);
      multiset(t.issued) == multiset(t.destroyed) + multiset(t.lost) <==> served == |s.releases|
  {
    var t, left := Shutdown(s, served), s.releases[served..];
    ShutdownRemains(s, served, 0);
    NoOwnersIff(t);
    NothingHeldIff(t.slots);
    AllAtLeastZero(left);
  }

  lemma NoOwnersIff(t: State)
    requires Conserved(t) && t.images == [] && t.releases == []
    ensures multiset(t.issued) == multiset(t.destroyed) + multiset(t.lost) <==> Held(t.slots) == multiset{}
  {
    assert Segments([]) == [];
    NothingAdded(Held(t.slots), multiset(t.destroyed) + multiset(t.lost));
    assert multiset(t.issued) == Held(t.slots) + (multiset(t.destroyed) + multiset(t.lost));
  }

  lemma NothingAdded<T>(h: multiset<T>, d: multiset<T>)
    ensures h + d == d <==> h == multiset{}
  {
    if h + d == d {
      forall x
        ensures h[x] == 0
      {
        assert (h + d)[x] == h[x] + d[x];
      }
    }
  }

  lemma {:induction false} NothingHeldIff(slots: seq<Segment>)
    ensures Held(slots) == multiset{} <==> AtLeast(slots, 0) == 0
  {
    if slots == [] {
    } else {
      NothingHeldIff(slots[..|slots| - 1]);
      assert slots[|slots| - 1].Empty() || slots[|slots| - 1] in Held(slots);
    }
  }

  lemma AllAtLeastZero(images: seq<Image>)
    requires BigEnough(images)
    ensures AtLeast(Segments(images), 0) == |images|
  {
    AllFit(Segments(images), 0);
  }

  /* ---------- what each step does ---------- */

  lemma UnsignedIs(n: nat)
    ensures Unsigned(n) < 0x1_0000_0000 && (n - Unsigned(n)) % 0x1_0000_0000 == 0
  {
  }

  /** Making an image takes a least cached segment that is big enough, if there is one,
      and allocates nothing; else it allocates one of exactly the size asked for, if that
      succeeds. */
  lemma CreateTakesLeast(s: State, a: Action, g: Segment)
    requires a.Create? && g in Held(s.slots) && ImageSize(BytesPerLine(a.bits, a.w), a.h) <= g.size
    ensures var t, size := Step(s, a), ImageSize(BytesPerLine(a.bits, a.w), a.h);
      && |t.images| == |s.images| + 1 && t.images[..|s.images|] == s.images
      && var i := t.images[|s.images|];
      && i.segment in Held(s.slots) && size <= i.segment.size <= g.size && i.w == a.w && i.h == a.h && i.bits == a.bits
      && Held(s.slots) == Held(t.slots) + multiset{i.segment}
      && t == s.(slots := t.slots, images := t.images)
  {
    var size := ImageSize(BytesPerLine(a.bits, a.w), a.h);
    GetIsLeast(s.slots, size);
    TakenConserves(s.slots, BestFit(s.slots, size).value);
  }

  lemma CreateAllocates(s: State, a: Action)
    requires a.Create? && forall g :: g in Held(s.slots) ==> g.size < ImageSize(BytesPerLine(a.bits, a.w), a.h)
    ensures var t, g := Step(s, a), Segment(|s.issued|, ImageSize(BytesPerLine(a.bits, a.w), a.h));
      && t.slots == s.slots && t.releases == s.releases && t.destroyed == s.destroyed
      && (a.outcome.Attached? ==> t.images == s.images + [Image(g, a.w, a.h, a.bits)] && t.lost == s.lost)
      && (!a.outcome.Attached? ==> t.images == s.images)
      && (a.outcome.NoSegment? ==> t.issued == s.issued && t.lost == s.lost)
      && (!a.outcome.NoSegment? ==> t.issued == s.issued + [g])
  {
    var size := ImageSize(BytesPerLine(a.bits, a.w), a.h);
    GetIsLeast(s.slots, size);
  }

  /** Dispatching an image hands it to a release record, or loses its segment without one;
      destroying an image or freeing a record takes exactly that one away, and its segment
      goes to the cache or is destroyed. */
  lemma DispatchMoves(s: State, i: nat, recorded: bool)
    requires i < |s.images|
    ensures var t := Step(s, Dispatch(i, recorded));
      && t.images == s.images[..i] + s.images[i + 1..] && t.slots == s.slots && t.destroyed == s.destroyed
      && t.issued == s.issued
      && (recorded ==> t.releases == s.releases + [s.images[i]] && t.lost == s.lost)
      && (!recorded ==> t.releases == s.releases && t.lost == s.lost + [s.images[i].segment])
  {
  }

  lemma DestroyMoves(s: State, i: nat)
    requires i < |s.images| && !s.images[i].segment.Empty()
    ensures var t := Step(s, Destroy(i));
      && t.images == s.images[..i] + s.images[i + 1..] && t.releases == s.releases
      && t.issued == s.issued && t.lost == s.lost
      && Held(s.slots) + multiset(s.destroyed) + multiset{s.images[i].segment} == Held(t.slots) + multiset(t.destroyed)
  {
    var u := s.(images := Without(s.images, i));
    GoneIs(u, s.images[i]);
    var t := DestroyImage(u, s.images[i]);
    Settled(Held(s.slots), Held(t.slots), multiset(s.destroyed), multiset{s.images[i].segment},
      multiset(Gone(s.slots, s.images[i].segment)));
  }

  lemma Settled<T>(h: multiset<T>, h': multiset<T>, d: multiset<T>, g: multiset<T>, e: multiset<T>)
    requires h + g == h' + e
    ensures h + d + g == h' + (d + e)
  {
    Rebalanced(h, h', multiset{}, d, g, e);
    assert h + multiset{} == h && h' + multiset{} == h';
  }

  lemma ReleaseMoves(s: State, r: nat)
    requires r < |s.releases| && !s.releases[r].segment.Empty()
    ensures var t := Step(s, Release(r));
      && t.releases == s.releases[..r] + s.releases[r + 1..] && t.images == s.images
      && t.issued == s.issued && t.lost == s.lost
      && Held(s.slots) + multiset(s.destroyed) + multiset{s.releases[r].segment}
         == Held(t.slots) + multiset(t.destroyed)
  {
    var u := s.(releases := Without(s.releases, r));
    GoneIs(u, s.releases[r]);
    var t := DestroyImage(u, s.releases[r]);
    Settled(Held(s.slots), Held(t.slots), multiset(s.destroyed), multiset{s.releases[r].segment},
      multiset(Gone(s.slots, s.releases[r].segment)));
  }

  /** Destroying the cache destroys all it holds and nothing else. */
  lemma DestroyCacheEmpties(s: State)
    ensures var t := Step(s, DestroyCache);
      && Held(t.slots) == multiset{} && multiset(t.destroyed) == multiset(s.destroyed) + Held(s.slots)
      && t.images == s.images && t.releases == s.releases && t.issued == s.issued && t.lost == s.lost
  {
    ClearedHoldsNothing(Cleared(s.slots));
    DestroyedAppend(s.destroyed, s.slots);
    assert Step(s, DestroyCache) == s.(slots := Cleared(s.slots), destroyed := s.destroyed + Occupied(s.slots));
  }

  lemma DestroyedAppend(destroyed: seq<Segment>, slots: seq<Segment>)
    ensures multiset(destroyed + Occupied(slots)) == multiset(destroyed) + Held(slots)
  {
    OccupiedIsHeld(slots);
  }
}
