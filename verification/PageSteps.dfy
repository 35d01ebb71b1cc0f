/** How the steps of the page allocator change the layout. */
module PageSteps {
  import opened Bitmaps
  import opened SizeClasses
  import opened PageSizes
  import opened PageAddresses
  import opened PageLists
  import opened PageLayout

  /** The same pool: what never changes. */
  ghost predicate SamePool(l: Layout, m: Layout) {
    m.sp == l.sp && m.caps == l.caps && |m.ps| == |l.ps| && |m.place| == |l.place| && |m.large| == |l.large|
  }

  /** The layouts agree about page q. */
  ghost predicate Agree(l: Layout, m: Layout, q: int) {
    0 <= q < |l.ps| == |l.place| && |m.ps| == |l.ps| && |m.place| == |l.place|
    && SameBody(l.ps[q], m.ps[q]) && m.place[q] == l.place[q] && IsLarge(m.large, q) == IsLarge(l.large, q)
  }

  lemma AgreeOk(l: Layout, m: Layout, q: int)
    requires SamePool(l, m) && Agree(l, m, q)
    ensures PageOk(l, q) ==> PageOk(m, q)
  {
  }

  /** All pages but x agree. */
  ghost predicate AgreeBut(l: Layout, m: Layout, x: int) {
    SamePool(l, m) && m.large == l.large && |l.ps| == |l.place|
    && forall q :: 0 <= q < |l.ps| && q != x ==> Agree(l, m, q)
  }

  /** All pages outside a group of 32 agree. */
  ghost predicate AgreeOff(l: Layout, m: Layout, g: int) {
    SamePool(l, m) && |l.ps| == |l.place| && forall q :: 0 <= q < |l.ps| && q / 32 != g ==> Agree(l, m, q)
  }

  ghost predicate OkBut(l: Layout, x: int) {
    Shape(l) && forall p :: 0 <= p < |l.ps| && p != x ==> PageOk(l, p)
  }

  ghost predicate OkOff(l: Layout, g: int) {
    Shape(l) && forall p :: 0 <= p < |l.ps| && p / 32 != g ==> PageOk(l, p)
  }

  lemma OkButStep(l: Layout, m: Layout, x: int)
    requires OkBut(l, x) && AgreeBut(l, m, x)
    ensures OkBut(m, x)
    ensures 0 <= x < |l.ps| ==> (PageStart(l, x) <==> PageStart(m, x))
  {
    hide PageOk, IsLarge, SameBody, Capacity, BucketPage, BucketToSize, MaxBucket, HeaderPages;
    forall p | 0 <= p < |l.ps| && p != x ensures PageOk(m, p) {
      AgreeOk(l, m, p);
    }
  }

  lemma OkOffStep(l: Layout, m: Layout, g: int)
    requires OkOff(l, g) && AgreeOff(l, m, g)
    ensures OkOff(m, g)
  {
    hide PageOk, IsLarge, SameBody, Capacity, BucketPage, BucketToSize, MaxBucket, HeaderPages;
    forall p | 0 <= p < |l.ps| && p / 32 != g ensures PageOk(m, p) {
      AgreeOk(l, m, p);
    }
  }

  /** Relinking a page and its list neighbours. */
  ghost predicate Relisted(l: Layout, m: Layout, p: int, k: int) {
    0 <= p < |l.ps| == |l.place| && m == l.(ps := m.ps, place := l.place[p := k]) && SameBodies(l.ps, m.ps)
  }

  lemma RelistedAgree(l: Layout, m: Layout, p: int, k: int)
    requires Relisted(l, m, p, k)
    ensures AgreeBut(l, m, p)
    ensures Shape(l) ==> (PageStart(l, p) <==> PageStart(m, p))
  {
    hide SameBody, IsLarge, HeaderPages, Capacity, BucketPage, BucketToSize, MaxBucket;
  }

  lemma FiledSame(l: Layout, m: Layout, p: int, k: int)
    requires SamePool(l, m) && 0 <= p < |l.ps| && SameBody(l.ps[p], m.ps[p]) && IsLarge(l.large, p) == IsLarge(m.large, p)
    ensures Filed(l, p, k) <==> Filed(m, p, k)
  {
  }

  /** A page comes off a free list. */
  lemma TakenOff(l: Layout, m: Layout, p: int, k: int)
    requires Sound(l, -1) && Relisted(l, m, p, -1) && l.place[p] == k && 0 <= k <= 1
    ensures Sound(m, p) && (IsLarge(m.large, p) <==> k == LARGE_FREE)
  {
    hide SameBody, IsLarge, HeaderPages, Capacity, BucketPage, BucketToSize, MaxBucket, InBucket;
    assert PageOk(l, p);
    RelistedAgree(l, m, p, -1);
    hide PageOk;
    OkButStep(l, m, p);
  }

  /** A page that fits a list goes on that list. */
  lemma PutOn(l: Layout, m: Layout, p: int, k: int)
    requires OkBut(l, p) && PageStart(l, p) && Relisted(l, m, p, k) && Filed(l, p, k)
    ensures Sound(m, -1)
  {
    RelistedAgree(l, m, p, k);
    FiledSame(l, m, p, k);
    OkButStep(l, m, p);
    assert PageOk(m, p) by {
      PutOnOk(m, p);
    }
    hide PageOk, SameBody, IsLarge, HeaderPages, Capacity, BucketPage, BucketToSize, MaxBucket, InBucket, Filed;
  }

  lemma PutOnOk(m: Layout, p: int)
    requires Shape(m) && PageStart(m, p) && Filed(m, p, m.place[p])
    ensures PageOk(m, p)
  {
  }

  // ----- What client data relies on -----

  /** Slots whose bytes hold a page header in use or belong to a large page in use. */
  ghost predicate InUse(l: Layout, p: int) {
    0 <= p < |l.ps| == |l.place|
    && (l.place[p] >= 2 || (l.place[p] == -1 && IsLarge(l.large, p) && l.place[p - p % 32] >= 2))
  }

  /** Pages in use are left exactly as they were, and no page comes into use. */
  ghost predicate Kept(l: Layout, m: Layout) {
    SamePool(l, m) && |l.ps| == |l.place|
    && (forall p :: 0 <= p < |l.ps| && InUse(l, p) ==> m.ps[p] == l.ps[p] && m.place[p] == l.place[p] && IsLarge(m.large, p) == IsLarge(l.large, p))
    && (forall p :: 0 <= p < |l.ps| && m.place[p] >= 2 ==> l.place[p] >= 2)
  }

  lemma KeptInUse(l: Layout, m: Layout, p: int)
    requires Kept(l, m) && InUse(l, p)
    ensures InUse(m, p)
  {
    hide TestBit;
    assert l.place[p] < 2 ==> InUse(l, p - p % 32);
  }

  lemma KeptTrans(l: Layout, m: Layout, n: Layout)
    requires Kept(l, m) && Kept(m, n)
    ensures Kept(l, n)
  {
    hide InUse, IsLarge;
    forall p | 0 <= p < |l.ps| && InUse(l, p) ensures n.ps[p] == l.ps[p] && n.place[p] == l.place[p] && IsLarge(n.large, p) == IsLarge(l.large, p) {
      KeptInUse(l, m, p);
      InUseRange(l, p);
    }
  }

  lemma InUseRange(l: Layout, p: int)
    ensures InUse(l, p) ==> 0 <= p < |l.ps|
    ensures 0 <= p < |l.ps| == |l.place| && l.place[p] >= 2 ==> InUse(l, p)
  {
  }

  lemma NotInUse(l: Layout, p: int)
    ensures 0 <= p < |l.place| && 0 <= l.place[p] < 2 ==> !InUse(l, p)
  {
  }

  lemma KeptSelf(l: Layout)
    requires |l.ps| == |l.place|
    ensures Kept(l, l)
  {
    hide IsLarge;
  }

  /** Moving a page between the free lists, or off and on them, leaves pages in use alone. */
  lemma RelistKept(l: Layout, m: Layout, p: int, k: int, k0: int)
    requires Relisted(l, m, p, k) && -1 <= k < 2 && 0 <= k0 < 2 && l.place[p] < 2 && !InUse(l, p)
    requires SameOff(l.ps, m.ps, l.place, k0, p)
    ensures Kept(l, m)
  {
    hide IsLarge, SameBody;
  }

  /** Rewriting the header of a page that is not in use, or flipping the size of such a group. */
  lemma IdleKept(l: Layout, m: Layout, g: int)
    requires SamePool(l, m) && |l.ps| == |l.place| && m.place == l.place
    requires forall q :: 0 <= q < |l.ps| && q / 32 == g ==> !InUse(l, q)
    requires forall q :: 0 <= q < |l.ps| && q / 32 != g ==> m.ps[q] == l.ps[q] && IsLarge(m.large, q) == IsLarge(l.large, q)
    ensures Kept(l, m)
  {
    hide IsLarge;
  }

  lemma LiveKept(l: Layout, m: Layout, p: int, i: int)
    requires Kept(l, m)
    ensures Live(l, p, i) <==> Live(m, p, i)
    ensures Live(l, p, i) ==> ElemAt(l, p, i) == ElemAt(m, p, i)
  {
    hide TestBit, IsLarge;
    if 0 <= p < |l.ps| {
      InUseRange(l, p);
    }
  }

  lemma MatchesKept(l: Layout, m: Layout, out: map<nat, Elem>)
    requires Kept(l, m) && Matches(l, out)
    ensures Matches(m, out)
  {
    hide Kept, Live, OffsetOf;
    KeptPool(l, m);
    forall off | off in out
      ensures Live(m, out[off].page, out[off].index) && ElemAt(m, out[off].page, out[off].index) == out[off]
    {
      LiveKept(l, m, out[off].page, out[off].index);
    }
    forall p, i {:trigger Live(m, p, i)} | Live(m, p, i)
      ensures Where(m.sp, m.caps, ElemAt(m, p, i)) in out && out[Where(m.sp, m.caps, ElemAt(m, p, i))] == ElemAt(m, p, i)
    {
      LiveKept(l, m, p, i);
    }
  }

  lemma KeptPool(l: Layout, m: Layout)
    requires Kept(l, m)
    ensures SamePool(l, m)
  {
  }

  // ----- Recombining and breaking up -----

  /** A group of 32 free small pages that can become a large page again. */
  ghost predicate Recombinable(l: Layout, g: int) {
    1 <= g && 32 * g + 32 <= |l.ps| == |l.place| && !IsLarge(l.large, 32 * g)
    && forall p :: 32 * g <= p < 32 * g + 32 ==> l.place[p] == SMALL_FREE
  }

  /** The place of page p once the recombinable groups below hi have become large pages. */
  ghost function PlaceAfter(l: Layout, hi: int, p: int): int
    requires 0 <= p < |l.place|
  {
    if p / 32 < hi && Recombinable(l, p / 32) then if p % 32 == 0 then LARGE_FREE else -1 else l.place[p]
  }

  ghost predicate Recombined(l: Layout, m: Layout, hi: int) {
    SamePool(l, m) && |l.ps| == |l.place|
    && forall p :: 0 <= p < |l.ps| ==>
      m.place[p] == PlaceAfter(l, hi, p)
      && (IsLarge(m.large, p) <==> IsLarge(l.large, p) || (p / 32 < hi && Recombinable(l, p / 32)))
  }

  lemma GroupBit(large: seq<Word>, g: int, p: int)
    requires |large| == 4 && 0 <= g < 256 && 0 <= p < 8192
    ensures IsLarge(SetBit(large, g), p) <==> p / 32 == g || IsLarge(large, p)
    ensures IsLarge(ClearBit(large, g), p) <==> p / 32 != g && IsLarge(large, p)
  {
    SetBitOnly(large, g, p / 32);
    ClearBitOnly(large, g, p / 32);
  }

  lemma GroupMarked(l: Layout, m: Layout, g: int)
    requires Sound(l, -1) && Recombinable(l, g) && m == l.(large := SetBit(l.large, g))
    ensures OkOff(m, g) && Kept(l, m)
    ensures forall p :: 0 <= p < |l.ps| ==> (IsLarge(m.large, p) <==> p / 32 == g || IsLarge(l.large, p))
  {
    hide PageOk, TestBit, IsLarge, Capacity, BucketPage, BucketToSize, SetBit, MaxBucket, HeaderPages;
    forall p | 0 <= p < |l.ps| ensures IsLarge(m.large, p) <==> p / 32 == g || IsLarge(l.large, p) {
      GroupBit(l.large, g, p);
    }
    IdleKept(l, m, g);
    OkOffStep(l, m, g);
  }

  lemma GroupStep(l: Layout, m: Layout, g: int, p: int, k: int)
    requires OkOff(l, g) && p / 32 == g && Relisted(l, m, p, k)
    ensures OkOff(m, g)
  {
    hide PageOk, IsLarge, Capacity, BucketPage, BucketToSize, SameBody, MaxBucket, HeaderPages;
    RelistedAgree(l, m, p, k);
    OkOffStep(l, m, g);
  }

  lemma GroupDone(l: Layout, g: int)
    requires OkOff(l, g) && 1 <= g && 32 * g + 32 <= |l.ps| && IsLarge(l.large, 32 * g)
    requires l.place[32 * g] == LARGE_FREE && forall p :: 32 * g < p < 32 * g + 32 ==> l.place[p] == -1
    ensures Sound(l, -1)
  {
    hide Capacity, BucketPage, BucketToSize, TestBit, InBucket, MaxBucket, HeaderPages;
    HeaderPagesBounds(l.sp);
    forall p | 0 <= p < |l.ps| ensures PageOk(l, p) {
      if p / 32 == g {
        assert IsLarge(l.large, p);
      }
    }
  }

  /** In a group of small pages, exactly the pages on the small free list have no elements in use. */
  lemma EmptyMeansFree(l: Layout, p: int)
    requires Sound(l, -1) && 32 <= p < |l.ps| && !IsLarge(l.large, p)
    ensures l.ps[p].elementsUsed == 0 <==> l.place[p] == SMALL_FREE
  {
    hide Capacity, BucketPage, BucketToSize, TestBit, MaxBucket, HeaderPages, LargePageBucket;
    HeaderPagesBounds(l.sp);
    assert PageOk(l, p);
    if l.place[p] >= 2 {
      CapAtLeastSix(l, BucketOf(l.place[p]));
    }
  }

  lemma CapAtLeastSix(l: Layout, b: nat)
    requires Shape(l) && b < |l.caps|
    ensures l.caps[b] >= 6
  {
    CapacityAtLeastSix(b, l.sp, l.caps[b]);
  }

  lemma SameGroup(large: seq<Word>, p: int, q: int)
    ensures p / 32 == q / 32 && 0 <= p < 8192 && 0 <= q < 8192 ==> (IsLarge(large, p) <==> IsLarge(large, q))
  {
  }

  lemma LargeFrom32(l: Layout, x: int)
    requires Sound(l, x) && Held(l, x) && IsLarge(l.large, x)
    ensures x % 32 == 0 && 32 <= x && x + 32 <= |l.ps|
    ensures forall p :: x <= p < x + 32 ==> l.place[p] == -1
  {
    hide Capacity, BucketPage, BucketToSize, TestBit, MaxBucket, HeaderPages, LargePageBucket, InBucket;
    HeaderPagesBounds(l.sp);
    assert PageOk(l, 0);
    SameGroup(l.large, x, 0);
    forall p | x < p < x + 32 ensures l.place[p] == -1 {
      assert PageOk(l, p);
    }
  }

  lemma GroupUnmarked(l: Layout, m: Layout, x: int)
    requires Sound(l, x) && Held(l, x) && IsLarge(l.large, x) && m == l.(large := ClearBit(l.large, x / 32))
    ensures OkOff(m, x / 32) && Kept(l, m)
    ensures forall p :: 0 <= p < |l.ps| ==> (IsLarge(m.large, p) <==> p / 32 != x / 32 && IsLarge(l.large, p))
  {
    hide PageOk, TestBit, IsLarge, Capacity, BucketPage, BucketToSize, ClearBit, MaxBucket, HeaderPages;
    LargeFrom32(l, x);
    forall p | 0 <= p < |l.ps| ensures IsLarge(m.large, p) <==> p / 32 != x / 32 && IsLarge(l.large, p) {
      GroupBit(l.large, x / 32, p);
    }
    forall q | 0 <= q < |l.ps| && q / 32 == x / 32 ensures !InUse(l, q) {
      assert x <= q < x + 32;
    }
    IdleKept(l, m, x / 32);
    OkOffStep(l, m, x / 32);
  }

  lemma BrokenUp(l: Layout, x: int)
    requires OkOff(l, x / 32) && 32 <= x && x % 32 == 0 && x + 32 <= |l.ps| && !IsLarge(l.large, x)
    requires l.place[x] == -1
    requires forall p :: x < p < x + 32 ==> l.place[p] == SMALL_FREE && l.ps[p].elementsUsed == 0
    ensures Sound(l, x) && Held(l, x)
  {
    hide Capacity, BucketPage, BucketToSize, TestBit, InBucket, MaxBucket, HeaderPages;
    HeaderPagesBounds(l.sp);
    forall p | 0 <= p < |l.ps| && p != x ensures PageOk(l, p) {
      if p / 32 == x / 32 {
        assert x <= p < x + 32;
        assert !IsLarge(l.large, p);
      }
    }
  }

  /** One group has become a large page; everything else is where it was. */
  ghost predicate GroupMade(l: Layout, m: Layout, g: int) {
    SamePool(l, m) && |l.ps| == |l.place|
    && forall p :: 0 <= p < |l.ps| ==>
      m.place[p] == (if p / 32 != g then l.place[p] else if p % 32 == 0 then LARGE_FREE else -1)
      && (IsLarge(m.large, p) <==> p / 32 == g || IsLarge(l.large, p))
  }

  /** The pages from i up to hi have left the small free list. */
  ghost predicate Dropped(l: Layout, m: Layout, i: int, hi: int) {
    SamePool(l, m) && m.large == l.large && |l.ps| == |l.place| && i <= hi <= i + 32 <= |l.ps|
    && forall p :: 0 <= p < |l.ps| ==> m.place[p] == if i <= p < hi then -1 else l.place[p]
  }

  lemma DropStep(l: Layout, m: Layout, n: Layout, i: int, hi: int)
    requires i % 32 == 0 && hi < i + 32 && Dropped(l, m, i, hi) && OkOff(m, i / 32) && Kept(l, m)
    requires Relisted(m, n, hi, -1) && m.place[hi] == SMALL_FREE && SameOff(m.ps, n.ps, m.place, SMALL_FREE, hi)
    ensures Dropped(l, n, i, hi + 1) && OkOff(n, i / 32) && Kept(l, n)
  {
    hide OkOff, Kept, SameBody, SameOff, IsLarge;
    GroupStep(m, n, i / 32, hi, -1);
    RelistKept(m, n, hi, -1, SMALL_FREE);
    KeptTrans(l, m, n);
  }

  lemma MadeDone(l: Layout, m: Layout, n: Layout, o: Layout, i: int)
    requires Sound(l, -1) && i % 32 == 0 && Recombinable(l, i / 32) && m == l.(large := SetBit(l.large, i / 32))
    requires Dropped(m, n, i, i + 32) && OkOff(n, i / 32) && Kept(m, n)
    requires Relisted(n, o, i, LARGE_FREE) && SameOff(n.ps, o.ps, n.place, LARGE_FREE, i)
    ensures Sound(o, -1) && Kept(l, o) && GroupMade(l, o, i / 32)
  {
    hide OkOff, Kept, Sound, SameBody, SameOff, IsLarge;
    GroupMarked(l, m, i / 32);
    GroupStep(n, o, i / 32, i, LARGE_FREE);
    assert !InUse(n, i);
    assert forall p :: i <= p < i + 32 <==> p / 32 == i / 32;
    RelistKept(n, o, i, LARGE_FREE, LARGE_FREE);
    KeptTrans(l, m, n);
    KeptTrans(l, n, o);
    GroupDone(o, i / 32);
  }

  lemma RecombinedNone(l: Layout)
    requires |l.ps| == |l.place|
    ensures Recombined(l, l, 1)
  {
    hide IsLarge;
    assert forall p :: 0 <= p && p / 32 < 1 ==> !Recombinable(l, p / 32);
  }

  /** A group that was not recombined yet is recombinable now exactly when it was before. */
  lemma StillRecombinable(l: Layout, m: Layout, g: int)
    requires Recombined(l, m, g)
    ensures Recombinable(m, g) <==> Recombinable(l, g)
  {
    hide IsLarge;
    if 1 <= g && 32 * g + 32 <= |l.ps| {
      forall p | 32 * g <= p < 32 * g + 32 ensures m.place[p] == l.place[p] {
        assert p / 32 == g;
      }
      assert 32 * g / 32 == g;
    }
  }

  lemma RecombinedStep(l: Layout, m: Layout, n: Layout, g: int)
    requires Recombined(l, m, g)
    requires if Recombinable(m, g) then GroupMade(m, n, g) else n == m
    ensures Recombined(l, n, g + 1)
  {
    hide IsLarge, Recombinable;
    StillRecombinable(l, m, g);
  }

  /** The test the code makes for a group. */
  lemma GroupTest(l: Layout, g: int)
    requires Sound(l, -1) && 1 <= g && 32 * g + 32 <= |l.ps| && !TestBit(l.large, g)
    ensures (forall p :: 32 * g <= p < 32 * g + 32 ==> l.ps[p].elementsUsed == 0) <==> Recombinable(l, g)
  {
    hide PageOk, Capacity, BucketPage, BucketToSize, MaxBucket, TestBit;
    assert 32 * g / 32 == g;
    forall p | 32 * g <= p < 32 * g + 32 ensures l.ps[p].elementsUsed == 0 <==> l.place[p] == SMALL_FREE {
      assert p / 32 == g;
      EmptyMeansFree(l, p);
    }
  }

  lemma AlreadyLarge(l: Layout, i: int)
    requires Shape(l) && i % 32 == 0 && 0 <= i < |l.ps| && TestBit(l.large, i / 32)
    ensures !Recombinable(l, i / 32)
  {
    hide TestBit;
    assert 32 * (i / 32) == i;
  }

  // ----- Getting a page -----

  /** No large page is free, and none can be made by recombining small pages. */
  ghost predicate NoLargePage(l: Layout) {
    (forall p :: 0 <= p < |l.place| ==> l.place[p] != LARGE_FREE) && forall g :: !Recombinable(l, g)
  }

  /** No page is free. */
  ghost predicate NoPage(l: Layout) {
    forall p :: 0 <= p < |l.place| ==> l.place[p] != SMALL_FREE && l.place[p] != LARGE_FREE
  }

  lemma RecombinedLarge(l: Layout, m: Layout)
    requires Shape(l) && Recombined(l, m, |l.ps| / 32)
    ensures (forall p :: 0 <= p < |m.place| ==> m.place[p] != LARGE_FREE) <==> NoLargePage(l)
  {
    hide IsLarge, Capacity, BucketPage, BucketToSize, MaxBucket;
    if g :| Recombinable(l, g) {
      assert 32 * g / 32 == g && 32 * g % 32 == 0;
      assert m.place[32 * g] == LARGE_FREE;
    }
    if p :| 0 <= p < |l.place| && l.place[p] == LARGE_FREE {
      assert !Recombinable(l, p / 32);
      assert m.place[p] == LARGE_FREE;
    }
  }

  lemma NoSmallNoGroup(l: Layout)
    requires forall p :: 0 <= p < |l.place| ==> l.place[p] != SMALL_FREE
    ensures NoLargePage(l) <==> NoPage(l)
  {
    hide IsLarge;
    forall g ensures !Recombinable(l, g) {
      assert 1 <= g && 32 * g + 32 <= |l.place| ==> l.place[32 * g] != SMALL_FREE;
    }
  }

  /** The pages between x and hi have gone on the small free list, with no elements in use. */
  ghost predicate Spread(l: Layout, m: Layout, x: int, hi: int) {
    SamePool(l, m) && m.large == l.large && |l.ps| == |l.place| && 0 <= x < hi <= x + 32 <= |l.ps|
    && (forall p :: 0 <= p < |l.ps| ==> m.place[p] == if x < p < hi then SMALL_FREE else l.place[p])
    && (forall p :: x < p < hi ==> m.ps[p].elementsUsed == 0)
    && m.ps[x] == l.ps[x]
  }

  lemma SpreadStep(l: Layout, m: Layout, m1: Layout, n: Layout, x: int, hi: int)
    requires x % 32 == 0 && Spread(l, m, x, hi) && hi < x + 32 && OkOff(m, x / 32) && Kept(l, m)
    requires !IsLarge(l.large, x) && forall p :: x <= p < x + 32 ==> l.place[p] == -1
    requires m1 == m.(ps := m.ps[hi := m.ps[hi].(elementsUsed := 0)])
    requires Relisted(m1, n, hi, SMALL_FREE) && SameOff(m1.ps, n.ps, m1.place, SMALL_FREE, hi)
    ensures Spread(l, n, x, hi + 1) && OkOff(n, x / 32) && Kept(l, n)
  {
    hide Kept, IsLarge, PageOk, Capacity, BucketPage, BucketToSize, MaxBucket;
    forall q | 0 <= q < |m.ps| && q / 32 == x / 32 ensures !InUse(m, q) {
      assert x <= q < x + 32;
      SameGroup(l.large, x, q);
    }
    IdleKept(m, m1, x / 32);
    OkOffStep(m, m1, x / 32);
    GroupStep(m1, n, x / 32, hi, SMALL_FREE);
    assert !InUse(m1, hi);
    RelistKept(m1, n, hi, SMALL_FREE, SMALL_FREE);
    KeptTrans(l, m, m1);
    KeptTrans(l, m1, n);
  }
}
