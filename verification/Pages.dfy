/** The page allocator of alloc.c for requests below the huge sizes, working in place on one pool. */
module Pages {
  import opened Wrappers
  import opened Powers
  import opened Bits
  import opened Logs
  import opened Bitmaps
  import opened FreeLists
  import opened SizeClasses
  import opened PageSizes
  import opened PageAddresses
  import opened PageLists
  import opened PageLayout
  import opened PageSteps
  import opened PageMoves
  import opened PageElements

  /** The size alloc_get looks up: aligned, and at least 1. */
  function RoundedSize(size: nat, align: nat): (r: nat)
    requires align >= 1
    ensures r >= 1
  {
    var s := AlignUp(size, align);
    if s == 0 then 1 else s
  }

  /** Every element a bucket can ever hold lies at a multiple of align. */
  ghost predicate AllAligned(sp: nat, cap: nat, b: nat, align: nat)
    requires align >= 1
  {
    forall e: Elem :: e.bucket == b && Holds(sp, cap, e) ==> OffsetOf(sp, cap, e) % align == 0
  }

  /** alloc_get keeps its alignment promise exactly for requests of at least one byte, or without an alignment. */
  lemma AlignmentExactly(sp: nat, cap: nat, size: nat, align: nat)
    requires sp >= 7 && OneBit(align)
    requires var b := SizeToBucket(RoundedSize(size, align));
             b < MaxBucket(sp + 5) && Capacity(b / 4, BucketToSize(b), BucketPage(b, sp), cap)
    ensures AllAligned(sp, cap, SizeToBucket(RoundedSize(size, align)), align) <==> size > 0 || align == 1
  {
    hide Capacity, BucketToSize, BucketPage, SizeToBucket, Pow2, OffsetOf, AlignUp, LargePageBucket;
    var b := SizeToBucket(RoundedSize(size, align));
    AlignUpLeast(size, align, 0);
    if size > 0 {
      var j := OneBitExponent(align);
      forall e: Elem | e.bucket == b && Holds(sp, cap, e) ensures OffsetOf(sp, cap, e) % align == 0 {
        ElementAligned(sp, cap, e, RoundedSize(size, align), j);
      }
    } else if align > 1 {
      BucketGalois(1, 0);
      CapacityAtLeastSix(0, sp, cap);
      ZeroSizeNotAligned(sp, cap, 32, 0, align);
      assert Holds(sp, cap, Elem(32, 0, 0)) && Holds(sp, cap, Elem(32, 1, 0));
    }
  }

  /** No page of bucket b has a free element, and no page can be had for it. */
  ghost predicate Exhausted(l: Layout, b: nat) {
    (forall p :: 0 <= p < |l.place| ==> l.place[p] != PageList(b))
    && if OnSmallPages(b, l.sp) then NoPage(l) else NoLargePage(l)
  }

  const ALL_ONES: Word := 0xFFFF_FFFF_FFFF_FFFF

  lemma Regroup32(q: int, p: int)
    ensures q * (32 * p) == q * 32 * p
  {
  }

  /** Where alloc_init puts a page. */
  function InitialPlace(sp: nat, p: int): int {
    if HeaderPages(sp) <= p < 32 then SMALL_FREE else if p >= 32 && p % 32 == 0 then LARGE_FREE else -1
  }

  /** The lists that alloc_init builds: pages and groups are put on them in ascending order. */
  function InitialLists(n: nat, header: nat, groups: nat): seq<seq<int>>
    requires header <= 32 && groups >= 1
  {
    seq(n, k => if k == SMALL_FREE then CountDown(header, 32 - header, 1) else if k == LARGE_FREE then CountDown(32, groups - 1, 32) else [])
  }

  lemma PoolCells(size: nat)
    requires PoolShape(size)
    ensures 128 <= size / Pow2(SmallPageBits(size) + 5) <= 256
  {
    EnoughPages(size);
  }

  lemma FirstGroupSmall(p: nat)
    requires p < 8192
    ensures IsLarge(ClearBit([ALL_ONES, ALL_ONES, ALL_ONES, ALL_ONES], 0), p) <==> p >= 32
  {
    var large := [ALL_ONES, ALL_ONES, ALL_ONES, ALL_ONES];
    hide ClearBit, TestBit;
    GroupBit(large, 0, p);
    FullWord(p / 32 % 64);
    TestBitIs(large, p / 32);
  }

  /** elements_per_page for every bucket. */
  method BucketCaps(sp: nat) returns (caps: seq<nat>)
    requires sp >= 7
    ensures |caps| == MaxBucket(sp + 5)
    ensures forall b :: 0 <= b < |caps| ==> Capacity(b / 4, BucketToSize(b), BucketPage(b, sp), caps[b])
  {
    hide Capacity, BucketToSize, Pow2, LargePageBucket, AlignUp, Fits;
    caps := [];
    var i := 0;
    while i < MaxBucket(sp + 5)
      invariant 0 <= i == |caps| <= MaxBucket(sp + 5)
      invariant forall b :: 0 <= b < i ==> Capacity(b / 4, BucketToSize(b), BucketPage(b, sp), caps[b])
    {
      SixFit(i, sp);
      var pagesize := if LargePageBucket(i, sp) then Pow2(sp + BITS_FROM_SMALL_TO_LARGE_PAGE) else Pow2(sp);
      var n := ElementsPerPage(i / INTER_BUCKET_SPACE, BucketToSize(i), pagesize);
      caps := caps + [n];
      i := i + 1;
    }
  }

  /** alloc_init has dealt with the pages below hi. */
  ghost predicate Started(l: Layout, hi: int) {
    Shape(l)
    && (forall p :: 0 <= p < |l.ps| ==> l.place[p] == if p < hi then InitialPlace(l.sp, p) else -1)
    && (forall p :: 0 <= p < |l.ps| ==> (IsLarge(l.large, p) <==> p >= 32))
    && (forall p :: 0 <= p < |l.ps| && p < hi && p < 32 && InitialPlace(l.sp, p) == SMALL_FREE ==> l.ps[p].elementsUsed == 0)
  }

  lemma StartedShape(l: Layout, hi: int)
    requires Started(l, hi)
    ensures |l.ps| == |l.place| && 64 <= |l.ps| <= 8192 && |l.ps| % 32 == 0 && 1 <= HeaderPages(l.sp) <= 4
    ensures hi < |l.ps| && 0 <= hi ==> l.place[hi] == -1
  {
    hide InitialPlace, IsLarge;
    HeaderPagesBounds(l.sp);
  }

  lemma StartedNone(l: Layout)
    requires Shape(l) && forall p :: 0 <= p < |l.ps| ==> (IsLarge(l.large, p) <==> p >= 32)
    requires forall p :: 0 <= p < |l.ps| ==> l.place[p] == -1
    ensures Started(l, HeaderPages(l.sp))
  {
    hide IsLarge, HeaderPages;
    HeaderPagesBounds(l.sp);
  }

  lemma StartedStep(l: Layout, m: Layout, n: Layout, p: nat, k: int)
    requires Started(l, p) && p < |l.ps| && m == l.(ps := l.ps[p := l.ps[p].(elementsUsed := 0)]) && Relisted(m, n, p, k)
    requires k == InitialPlace(l.sp, p)
    ensures Started(n, p + 1)
  {
    hide IsLarge, HeaderPages, Capacity, BucketToSize, BucketPage, MaxBucket;
  }

  /** The slots inside a large page are skipped. */
  lemma NextStarted(l: Layout, i: nat)
    requires Started(l, i + 1) && i % 32 == 0 && i >= 32
    ensures Started(l, i + 32)
  {
    hide IsLarge, HeaderPages, Shape;
  }

  lemma StartedSound(l: Layout, hi: int)
    requires Started(l, hi) && hi >= |l.ps|
    ensures Sound(l, -1)
  {
    hide IsLarge, HeaderPages, Shape, InBucket;
    StartedShape(l, hi);
    forall p | 0 <= p < |l.ps| ensures PageOk(l, p) {
    }
  }

  lemma StartedPlaces(l: Layout, hi: int)
    requires Started(l, hi) && hi >= |l.ps|
    ensures |l.ps| == |l.place| && forall p :: 0 <= p < |l.ps| ==> l.place[p] == InitialPlace(l.sp, p)
  {
    hide IsLarge, HeaderPages, InitialPlace;
  }

  lemma StartedMatches(l: Layout, hi: int)
    requires Started(l, hi)
    ensures Matches(l, map[])
  {
    hide IsLarge, HeaderPages, Shape, TestBit;
  }

  class Heap {
    const poolsize: nat
    /** small_page_bits(poolsize) */
    const spBits: nat
    /** elements_per_page of every bucket. */
    const caps: seq<nat>
    /** Bitmap of which pages are large. */
    var pagesize: seq<Word>
    /** The words at the start of every small page, read as a page header. */
    const pages: array<Page>
    /** The list heads of the pool's header: small_free_list, large_free_list, then page_list and full_list of each bucket. */
    const heads: array<nat>
    ghost var lists: seq<seq<int>>
    ghost var place: seq<int>
    /** The outstanding pointers. */
    ghost var out: map<nat, Elem>

    /** alloc_init.  The contents of the pool before the call are arbitrary. */
    constructor (size: nat)
      requires PoolShape(size)
      ensures Valid() && out == map[] && poolsize == size && fresh(pages) && fresh(heads)
      ensures forall p :: 0 <= p < pages.Length ==> place[p] == InitialPlace(spBits, p)
      ensures HeaderPages(spBits) <= 32 && pages.Length >= 32 && lists == InitialLists(|lists|, HeaderPages(spBits), pages.Length / 32)
    {
      hide Chained, Capacity, BucketToSize, BucketPage, Shape, IsLarge, Pow2, ClearBit, Sound, Matches, Started, InitialPlace;
      var sp := SmallPageBits(size);
      SmallPageBounds(size);
      var c := BucketCaps(sp);
      PoolCells(size);
      poolsize, spBits, caps := size, sp, c;
      // memset(head->pagesize, 0xFF), then clear_bit(head->pagesize, 0)
      pagesize := ClearBit([ALL_ONES, ALL_ONES, ALL_ONES, ALL_ONES], 0);
      pages := new Page[size / Pow2(sp + 5) * 32];
      heads := new nat[2 + 2 * |c|](_ => 0);
      lists := seq(2 + 2 * |c|, _ => []);
      place := seq(size / Pow2(sp + 5) * 32, _ => -1);
      out := map[];
      new;
      EmptyChained(pages[..], heads[..], lists, place);
      InitialShape();
      AddSmallPages();
      AddLargePages();
      StartedSound(Now(), pages.Length);
      StartedMatches(Now(), pages.Length);
      StartedPlaces(Now(), pages.Length);
    }

    /** Adding the small pages of the first group that the header leaves free. */
    method AddSmallPages()
      requires Linked() && spBits >= 7
      requires Shape(Now()) && forall p :: 0 <= p < pages.Length ==> (IsLarge(pagesize, p) <==> p >= 32) && place[p] == -1
      requires |lists| >= 2 && lists[SMALL_FREE] == []
      modifies pages, heads, `lists, `place
      ensures Linked() && Started(Now(), 32)
      ensures HeaderPages(spBits) <= 32 && lists == old(lists)[SMALL_FREE := CountDown(HeaderPages(spBits), 32 - HeaderPages(spBits), 1)]
    {
      hide Chained, Shape, IsLarge, Started, Pow2, InitialPlace, CountDown;
      CountDownNone(HeaderPages(spBits), 1);
      StartedNone(Now());
      HeaderPagesBounds(spBits);
      var i := Shr(AlignUp(HeaderSize(MaxBucket(spBits + 5)), Pow2(spBits)), spBits);
      while i < SMALL_PAGES_PER_LARGE_PAGE
        invariant HeaderPages(spBits) <= i <= 32 && Linked() && Started(Now(), i)
        invariant lists == old(lists)[SMALL_FREE := CountDown(HeaderPages(spBits), i - HeaderPages(spBits), 1)]
      {
        CountDownNext(HeaderPages(spBits), i - HeaderPages(spBits), 1);
        StartedShape(Now(), i);
        AddInitial(SMALL_FREE, i);
        i := i + 1;
      }
    }

    /** Adding the rest of the pool as large pages. */
    method AddLargePages()
      requires Fixed() && Linked() && Started(Now(), 32)
      requires |lists| >= 2 && lists[LARGE_FREE] == []
      modifies pages, heads, `lists, `place
      ensures Linked() && Started(Now(), pages.Length)
      ensures pages.Length >= 32 && lists == old(lists)[LARGE_FREE := CountDown(32, pages.Length / 32 - 1, 32)]
    {
      hide Chained, Shape, IsLarge, Started, Fixed, Pow2, HeaderPages, InitialPlace, CountDown;
      var i := SMALL_PAGES_PER_LARGE_PAGE;
      CountDownNone(32, 32);
      StartedShape(Now(), i);
      var more := LargePageFits(i);
      while more
        invariant 32 <= i <= pages.Length && i % 32 == 0 && Linked() && Started(Now(), i) && (more <==> i + 32 <= pages.Length)
        invariant lists == old(lists)[LARGE_FREE := CountDown(32, i / 32 - 1, 32)]
        decreases pages.Length - i
      {
        StartedShape(Now(), i);
        assert i < MAX_SMALL_PAGES;
        CountDownNext(32, i / 32 - 1, 32);
        AddInitial(LARGE_FREE, i);
        NextStarted(Now(), i);
        i := i + SMALL_PAGES_PER_LARGE_PAGE;
        more := LargePageFits(i);
      }
      StartedShape(Now(), i);
    }

    /** The loop test of alloc_init: whether one more large page fits the pool. */
    method LargePageFits(i: nat) returns (fits: bool)
      requires Fixed() && i % 32 == 0
      ensures fits <==> i + 32 <= pages.Length
    {
      InitialCells(i);
      fits := i * Pow2(spBits) + Pow2(spBits + BITS_FROM_SMALL_TO_LARGE_PAGE) <= poolsize;
    }

    /** A page header set to no elements in use and put on a free list. */
    method AddInitial(k: nat, p: nat)
      requires Linked() && k < 2 && p < pages.Length && Started(Now(), p) && p >= HeaderPages(spBits)
      requires if k == SMALL_FREE then p < 32 else p >= 32 && p % 32 == 0
      requires 1 <= HeaderPages(spBits) <= 4
      modifies pages, heads, `lists, `place
      ensures Linked() && Started(Now(), p + 1) && k < |old(lists)| && lists == Pushed(old(lists), k, p)
    {
      hide Chained, SameOff, IsLarge, Capacity, BucketToSize, BucketPage, Shape;
      StartedShape(Now(), p);
      ghost var l := Now();
      BodyWrite(p, pages[p].(elementsUsed := 0));
      pages[p] := pages[p].(elementsUsed := 0);
      ghost var m := Now();
      assert m.ps == l.ps[p := l.ps[p].(elementsUsed := 0)];
      AddToList(k, p);
      StartedStep(l, m, Now(), p, k);
    }

    lemma InitialShape()
      requires PoolShape(poolsize) && spBits == SmallPageBits(poolsize) && pages.Length == poolsize / Pow2(spBits + 5) * 32 == |place|
      requires pagesize == ClearBit([ALL_ONES, ALL_ONES, ALL_ONES, ALL_ONES], 0) && |caps| == MaxBucket(spBits + 5)
      requires forall b :: 0 <= b < |caps| ==> Capacity(b / 4, BucketToSize(b), BucketPage(b, spBits), caps[b])
      ensures Shape(Now()) && forall p :: 0 <= p < pages.Length ==> (IsLarge(pagesize, p) <==> p >= 32)
    {
      hide Capacity, BucketToSize, BucketPage, ClearBit, TestBit, Pow2;
      PoolCells(poolsize);
      SmallPageBounds(poolsize);
      forall p | 0 <= p < pages.Length ensures IsLarge(pagesize, p) <==> p >= 32 {
        FirstGroupSmall(p);
      }
    }

    lemma InitialCells(i: nat)
      requires Fixed() && i % 32 == 0
      ensures i * Pow2(spBits) + Pow2(spBits + 5) <= poolsize <==> i + 32 <= pages.Length
    {
      hide SmallPageBits, PoolShape;
      LargePower(spBits);
      DivMod(poolsize, Pow2(spBits + 5));
      var q, k := poolsize / Pow2(spBits + 5), i / 32;
      assert (k + 1) * Pow2(spBits + 5) == i * Pow2(spBits) + Pow2(spBits + 5) by {
        Regroup32(k, Pow2(spBits));
      }
      if k + 1 <= q {
        MulMono(k + 1, q, Pow2(spBits + 5));
      } else {
        MulMono(q + 1, k + 1, Pow2(spBits + 5));
      }
    }

    lemma PoolBytes()
      requires Fixed()
      ensures pages.Length * Pow2(spBits) <= poolsize < pages.Length * Pow2(spBits) + 32 * Pow2(spBits)
    {
      hide Pow2, SmallPageBits, PoolShape;
      DivMod(poolsize, Pow2(spBits + 5));
      LargePower(spBits);
      Regroup32(poolsize / Pow2(spBits + 5), Pow2(spBits));
    }

    ghost function Now(): Layout
      reads this, pages
    {
      Layout(spBits, caps, pagesize, pages[..], place)
    }

    ghost predicate Linked()
      reads this, pages, heads
    {
      Chained(pages[..], heads[..], lists, place)
      && |place| == pages.Length && |lists| == heads.Length == 2 + 2 * |caps|
    }

    ghost predicate Fixed() {
      PoolShape(poolsize) && spBits == SmallPageBits(poolsize)
      && pages.Length == poolsize / Pow2(spBits + 5) * 32
    }

    ghost predicate Valid()
      reads this, pages, heads
    {
      Fixed() && Linked() && Sound(Now(), -1) && Matches(Now(), out)
    }

    // ----- Lists -----

    method AddToList(k: nat, p: nat)
      requires Linked() && k < heads.Length && 0 < p < pages.Length && place[p] < 0
      modifies pages, heads, `lists, `place
      ensures Linked() && Relisted(old(Now()), Now(), p, k)
      ensures SameOff(old(pages[..]), pages[..], old(place), k, p)
      ensures pages[p].next == old(heads[k]) && pages[p].prev == 0
      ensures k < |old(lists)| && lists == Pushed(old(lists), k, p)
      ensures heads[..] == old(heads[..])[k := p]
    {
      hide Chained, SameBodies, SameOff;
      PushedOn(k, p);
      var h := heads[k];
      ghost var ps := pages[..];
      pages[p] := pages[p].(next := h);
      if h != 0 {
        assert pages[h].prev == 0;
        pages[h] := pages[h].(prev := p);
      }
      heads[k] := p;
      pages[p] := pages[p].(prev := 0);
      assert pages[..] == PushPages(ps, h, p);
      lists := lists[k := [p] + lists[k]];
      place := place[p := k];
    }

    lemma PushedOn(k: nat, p: nat)
      requires Linked() && k < heads.Length && 0 < p < pages.Length && place[p] < 0
      ensures |lists| == heads.Length && |place| == pages.Length
      ensures heads[k] < pages.Length && heads[k] != p && (heads[k] != 0 ==> pages[heads[k]].prev == 0)
      ensures Chained(PushPages(pages[..], heads[k], p), heads[..][k := p], lists[k := [p] + lists[k]], place[p := k])
      ensures SameBodies(pages[..], PushPages(pages[..], heads[k], p))
      ensures SameOff(pages[..], PushPages(pages[..], heads[k], p), place, k, p)
    {
      PushChained(pages[..], heads[..], lists, place, k, p);
    }

    lemma Deletable(k: nat, p: nat)
      requires Linked() && k < heads.Length && p < pages.Length && place[p] == k
      ensures 0 < p && p in lists[k]
      ensures pages[p].next < pages.Length && pages[p].prev < pages.Length && (pages[p].prev == 0 <==> heads[k] == p)
      ensures Chained(DeletePages(pages[..], p), DeleteHead(pages[..], heads[..], k, p), lists[k := Removed(lists[k], p)], place[p := -1])
      ensures SameBodies(pages[..], DeletePages(pages[..], p))
      ensures SameOff(pages[..], DeletePages(pages[..], p), place, k, p)
    {
      DeleteChained(pages[..], heads[..], lists, place, k, p);
    }

    method DelFromList(k: nat, p: nat)
      requires Linked() && k < heads.Length && p < pages.Length && place[p] == k
      modifies pages, heads, `lists, `place
      ensures Linked() && Relisted(old(Now()), Now(), p, -1)
      ensures k < |old(lists)| && lists == old(lists)[k := Removed(old(lists[k]), p)]
      ensures SameOff(old(pages[..]), pages[..], old(place), k, p)
      ensures forall l :: 0 <= l < heads.Length && l != k ==> heads[l] == old(heads[l])
    {
      hide Chained, SameBodies, SameOff, Removed;
      Deletable(k, p);
      ghost var ps, hs := pages[..], heads[..];
      var ph := pages[p];
      if ph.prev == 0 {
        heads[k] := ph.next;
      } else {
        pages[ph.prev] := pages[ph.prev].(next := ph.next);
      }
      if ph.next != 0 {
        pages[ph.next] := pages[ph.next].(prev := ph.prev);
      }
      assert pages[..] == DeletePages(ps, p);
      assert heads[..] == DeleteHead(ps, hs, k, p);
      lists := lists[k := Removed(lists[k], p)];
      place := place[p := -1];
    }

    lemma FirstOn(k: nat)
      requires Linked() && k < heads.Length
      ensures |lists| == heads.Length && |place| == pages.Length
      ensures heads[k] == 0 <==> forall x :: 0 <= x < |place| ==> place[x] != k
      ensures heads[k] != 0 ==> heads[k] < pages.Length && place[heads[k]] == k && pages[heads[k]].prev == 0
      ensures heads[k] == FrontOf(lists[k]) && (heads[k] == 0 <==> lists[k] == [])
    {
      FirstListed(pages[..], heads[..], lists, place, k);
    }

    method PopFromList(k: nat) returns (h: nat)
      requires Linked() && k < heads.Length
      modifies pages, heads, `lists, `place
      ensures h == 0 <==> forall x :: 0 <= x < |old(place)| ==> old(place)[x] != k
      ensures k < |old(lists)| && Grab(h, lists) == FirstOff(old(lists), k)
      ensures h == 0 ==> Linked() && Now() == old(Now()) && heads[..] == old(heads[..])
      ensures h != 0 ==> (
        && h < pages.Length && old(place)[h] == k && Linked() && Relisted(old(Now()), Now(), h, -1)
        && SameOff(old(pages[..]), pages[..], old(place), k, h) && pages[h].prev == 0)
      ensures forall l :: 0 <= l < heads.Length && l != k ==> heads[l] == old(heads[l])
    {
      hide Chained, SameBodies, SameOff;
      FirstOn(k);
      h := heads[k];
      if h != 0 {
        Deletable(k, h);
        ghost var ps, hs := pages[..], heads[..];
        heads[k] := pages[h].next;
        if heads[k] != 0 {
          pages[heads[k]] := pages[heads[k]].(prev := 0);
        }
        assert pages[..] == DeletePages(ps, h);
        assert heads[..] == DeleteHead(ps, hs, k, h);
        lists := lists[k := Removed(lists[k], h)];
        place := place[h := -1];
      }
    }

    // ----- Recombining small pages -----

    method AllEmpty(pgnum: nat) returns (empty: bool)
      requires pgnum + 32 <= pages.Length
      ensures empty <==> forall p :: pgnum <= p < pgnum + 32 ==> pages[p].elementsUsed == 0
    {
      var i := 0;
      while i < SMALL_PAGES_PER_LARGE_PAGE
        invariant 0 <= i <= 32 && forall p :: pgnum <= p < pgnum + i ==> pages[p].elementsUsed == 0
      {
        if pages[pgnum + i].elementsUsed != 0 {
          return false;
        }
        i := i + 1;
      }
      return true;
    }

    method DelLargeFromSmallFreeList(ph: nat)
      requires Linked() && OkOff(Now(), ph / 32) && ph % 32 == 0 && ph + 32 <= pages.Length
      requires forall p :: ph <= p < ph + 32 ==> place[p] == SMALL_FREE
      modifies pages, heads, `lists, `place
      ensures Linked() && OkOff(Now(), ph / 32) && Kept(old(Now()), Now()) && Dropped(old(Now()), Now(), ph, ph + 32)
      ensures |old(lists)| >= 2 && lists == old(lists)[SMALL_FREE := RemovedRun(old(lists[SMALL_FREE]), ph, 32)]
      ensures forall l :: 0 <= l < heads.Length && l != SMALL_FREE ==> heads[l] == old(heads[l])
    {
      hide Chained, OkOff, Kept, SameOff, Relisted, Removed;
      ghost var l0 := Now();
      KeptSelf(l0);
      var i := 0;
      while i < SMALL_PAGES_PER_LARGE_PAGE
        invariant 0 <= i <= 32 && Linked() && OkOff(Now(), ph / 32) && Kept(l0, Now()) && Dropped(l0, Now(), ph, ph + i)
        invariant lists == old(lists)[SMALL_FREE := RemovedRun(old(lists[SMALL_FREE]), ph, i)]
        invariant forall l :: 0 <= l < heads.Length && l != SMALL_FREE ==> heads[l] == old(heads[l])
      {
        ghost var m := Now();
        DelFromList(SMALL_FREE, ph + i);
        DropStep(l0, m, Now(), ph, ph + i);
        i := i + 1;
      }
    }

    method RecombineGroup(i: nat)
      requires Linked() && Sound(Now(), -1) && i % 32 == 0 && Recombinable(Now(), i / 32)
      modifies pages, heads, `pagesize, `lists, `place
      ensures Linked() && Sound(Now(), -1) && Kept(old(Now()), Now()) && GroupMade(old(Now()), Now(), i / 32)
      ensures |old(lists)| >= 2 && lists == GroupMoved(old(lists), i)
      ensures forall l :: 2 <= l < heads.Length ==> heads[l] == old(heads[l])
    {
      hide Chained, OkOff, Kept, SameOff, Relisted, PageOk, SetBit, RemovedRun;
      ghost var l := Now();
      GroupMarked(l, l.(large := SetBit(l.large, i / 32)), i / 32);
      pagesize := SetBit(pagesize, i / SMALL_PAGES_PER_LARGE_PAGE);
      ghost var m := Now();
      assert pages[..] == l.ps;
      DelLargeFromSmallFreeList(i);
      ghost var n := Now();
      AddToList(LARGE_FREE, i);
      MadeDone(l, m, n, Now(), i);
    }

    /** One turn of the loop of recombine_small_pages. */
    method RecombineTurn(i: nat)
      requires Linked() && Sound(Now(), -1) && i % 32 == 0 && 32 <= i && i + 32 <= pages.Length
      modifies pages, heads, `pagesize, `lists, `place
      ensures Linked() && Sound(Now(), -1) && Kept(old(Now()), Now())
      ensures if Recombinable(old(Now()), i / 32) then GroupMade(old(Now()), Now(), i / 32) else Now() == old(Now())
      ensures |old(lists)| >= 2 && lists == if Recombinable(old(Now()), i / 32) then GroupMoved(old(lists), i) else old(lists)
      ensures forall l :: 2 <= l < heads.Length ==> heads[l] == old(heads[l])
    {
      hide Chained, OkOff, Kept, PageOk, Recombinable, GroupMade, TestBit, Capacity, GroupMoved;
      KeptSelf(Now());
      if TestBit(pagesize, i / SMALL_PAGES_PER_LARGE_PAGE) {
        AlreadyLarge(Now(), i);
      } else {
        GroupTest(Now(), i / 32);
        var empty := AllEmpty(i);
        if empty {
          RecombineGroup(i);
        }
      }
    }

    method RecombineSmallPages()
      requires Fixed() && Linked() && Sound(Now(), -1)
      modifies pages, heads, `pagesize, `lists, `place
      ensures Linked() && Sound(Now(), -1) && Kept(old(Now()), Now())
      ensures Recombined(old(Now()), Now(), pages.Length / 32)
      ensures |old(lists)| >= 2 && lists == RecombinedLists(old(Now()), old(lists), pages.Length / 32)
      ensures forall l :: 2 <= l < heads.Length ==> heads[l] == old(heads[l])
    {
      hide Chained, Sound, Kept, Recombined, GroupMade, Shr, Recombinable, Fixed, GroupMoved;
      ghost var l := Now();
      Rested();
      KeptSelf(l);
      RecombinedNone(l);
      PoolGroups();
      var i := SMALL_PAGES_PER_LARGE_PAGE;
      var limit := Shr(poolsize, spBits + BITS_FROM_SMALL_TO_LARGE_PAGE) * SMALL_PAGES_PER_LARGE_PAGE;
      while i < limit
        invariant i % 32 == 0 && 32 <= i <= pages.Length
        invariant Linked() && Sound(Now(), -1) && Kept(l, Now()) && Recombined(l, Now(), i / 32)
        invariant |old(lists)| >= 2 && lists == RecombinedLists(l, old(lists), i / 32)
        invariant forall l :: 2 <= l < heads.Length ==> heads[l] == old(heads[l])
      {
        ghost var m := Now();
        StillRecombinable(l, m, i / 32);
        RecombineTurn(i);
        RecombinedStep(l, m, Now(), i / 32);
        KeptTrans(l, m, Now());
        i := i + SMALL_PAGES_PER_LARGE_PAGE;
      }
    }

    lemma Rested()
      requires Sound(Now(), -1)
      ensures |place| == pages.Length >= 64
    {
    }

    lemma PoolGroups()
      requires Fixed()
      ensures Shr(poolsize, spBits + 5) * 32 == pages.Length && pages.Length % 32 == 0
    {
      hide PoolShape, SmallPageBits, Pow2, Shr;
      ShrDiv(poolsize, spBits + 5);
    }

    // ----- Getting a page -----

    /** Taking a page off a free list. */
    method PopFree(k: nat) returns (h: nat)
      requires Linked() && Sound(Now(), -1) && k <= 1
      modifies pages, heads, `lists, `place
      ensures Linked() && Kept(old(Now()), Now())
      ensures h == 0 <==> forall p :: 0 <= p < |old(place)| ==> old(place)[p] != k
      ensures k < |old(lists)| && Grab(h, lists) == FirstOff(old(lists), k)
      ensures h == 0 ==> Now() == old(Now())
      ensures h != 0 ==> h < pages.Length && Sound(Now(), h) && pages[h].prev == 0 && (IsLarge(pagesize, h) <==> k == LARGE_FREE)
      ensures forall l :: 2 <= l < heads.Length ==> heads[l] == old(heads[l])
    {
      hide Chained, Sound, Kept, SameOff, Relisted, InUse, IsLarge, FirstOff;
      ghost var l := Now();
      Rested();
      KeptSelf(l);
      h := PopFromList(k);
      if h != 0 {
        TakenOff(l, Now(), h, k);
        NotInUse(l, h);
        RelistKept(l, Now(), h, -1, k);
      }
    }

    method GetLargePage() returns (page: nat)
      requires Fixed() && Linked() && Sound(Now(), -1)
      modifies pages, heads, `pagesize, `lists, `place
      ensures Linked() && Kept(old(Now()), Now())
      ensures page == 0 <==> NoLargePage(old(Now()))
      ensures |old(lists)| >= 2 && Grab(page, lists) == GrabLarge(old(Now()), old(lists))
      ensures page == 0 ==> Sound(Now(), -1)
      ensures page != 0 ==> page < pages.Length && Sound(Now(), page) && pages[page].prev == 0 && IsLarge(pagesize, page)
      ensures forall l :: 2 <= l < heads.Length ==> heads[l] == old(heads[l])
    {
      hide Chained, Sound, Shape, Kept, IsLarge, Recombined, Recombinable, RecombinedLists;
      ghost var l, lists0 := Now(), lists;
      WellShaped();
      FirstOn(LARGE_FREE);
      page := PopFree(LARGE_FREE);
      if page != 0 {
        return page;
      }
      RecombineSmallPages();
      ghost var m := Now();
      RecombinedLarge(l, m);
      page := PopFree(LARGE_FREE);
      KeptTrans(l, m, Now());
    }

    method BreakUpLargePage(lpage: nat) returns (page: nat)
      requires Linked() && Sound(Now(), lpage) && IsLarge(pagesize, lpage)
      modifies pages, heads, `pagesize, `lists, `place
      ensures Linked() && Sound(Now(), lpage) && Kept(old(Now()), Now()) && page == lpage
      ensures lpage < pages.Length && pages[lpage] == old(pages[lpage]) && !IsLarge(pagesize, lpage)
      ensures |old(lists)| >= 2 && lists == old(lists)[SMALL_FREE := CountDown(lpage + 1, 31, 1) + old(lists[SMALL_FREE])]
      ensures forall l :: 2 <= l < heads.Length ==> heads[l] == old(heads[l])
    {
      hide Chained, OkOff, Kept, SameOff, Relisted, PageOk, ClearBit, IsLarge, CountDown;
      ghost var l0 := Now();
      LargeFrom32(l0, lpage);
      GroupUnmarked(l0, l0.(large := ClearBit(l0.large, lpage / 32)), lpage);
      pagesize := ClearBit(pagesize, Shr(lpage, BITS_FROM_SMALL_TO_LARGE_PAGE));
      ghost var l := Now();
      KeptSelf(l);
      NoneSpread(lpage + 1, lists[SMALL_FREE]);
      var i := 1;
      while i < SMALL_PAGES_PER_LARGE_PAGE
        invariant 1 <= i <= 32 && Linked() && OkOff(Now(), lpage / 32) && Kept(l, Now()) && Spread(l, Now(), lpage, lpage + i)
        invariant |old(lists)| >= 2 && lists == old(lists)[SMALL_FREE := CountDown(lpage + 1, i - 1, 1) + old(lists[SMALL_FREE])]
        invariant forall l :: 2 <= l < heads.Length ==> heads[l] == old(heads[l])
      {
        SpreadNext(lpage + 1, i - 1, old(lists[SMALL_FREE]));
        SpreadOne(l, lpage, lpage + i);
        i := i + 1;
      }
      KeptTrans(l0, l, Now());
      BrokenUp(Now(), lpage);
      return lpage;
    }

    /** One turn of the loop of break_up_large_page. */
    method SpreadOne(ghost l: Layout, ghost x: nat, p: nat)
      requires Linked() && OkOff(Now(), x / 32) && Kept(l, Now()) && Spread(l, Now(), x, p)
      requires x % 32 == 0 && p < x + 32 && !IsLarge(l.large, x) && forall q :: x <= q < x + 32 ==> l.place[q] == -1
      modifies pages, heads, `lists, `place
      ensures Linked() && OkOff(Now(), x / 32) && Kept(l, Now()) && Spread(l, Now(), x, p + 1)
      ensures |old(lists)| >= 2 && lists == Pushed(old(lists), SMALL_FREE, p)
      ensures forall l :: 2 <= l < heads.Length ==> heads[l] == old(heads[l])
    {
      hide Chained, OkOff, Kept, SameOff, Relisted, IsLarge;
      ghost var m := Now();
      BodyWrite(p, pages[p].(elementsUsed := 0));
      pages[p] := pages[p].(elementsUsed := 0);
      ghost var m1 := Now();
      assert m1.ps == m.ps[p := m.ps[p].(elementsUsed := 0)];
      AddToList(SMALL_FREE, p);
      SpreadStep(l, m, m1, Now(), x, p);
    }

    /** Writing the part of a header after the links keeps the lists linked. */
    lemma BodyWrite(p: nat, pg: Page)
      requires Linked() && p < pages.Length && pg.next == pages[p].next && pg.prev == pages[p].prev
      ensures Chained(pages[..][p := pg], heads[..], lists, place)
    {
      BodyChained(pages[..], pages[..][p := pg], heads[..], lists, place);
    }

    method GetSmallPage() returns (page: nat)
      requires Fixed() && Linked() && Sound(Now(), -1)
      modifies pages, heads, `pagesize, `lists, `place
      ensures Linked() && Kept(old(Now()), Now())
      ensures page == 0 <==> NoPage(old(Now()))
      ensures |old(lists)| >= 2 && Grab(page, lists) == GrabSmall(old(Now()), old(lists))
      ensures page == 0 ==> Sound(Now(), -1)
      ensures page != 0 ==> page < pages.Length && Sound(Now(), page) && pages[page].prev == 0 && !IsLarge(pagesize, page)
      ensures forall l :: 2 <= l < heads.Length ==> heads[l] == old(heads[l])
    {
      hide Chained, Sound, Kept, IsLarge, NoLargePage, GrabLarge;
      ghost var l := Now();
      FirstOn(SMALL_FREE);
      page := PopFree(SMALL_FREE);
      if page != 0 {
        return page;
      }
      NoSmallNoGroup(l);
      page := GetLargePage();
      ghost var m := Now();
      if page != 0 {
        page := BreakUpLargePage(page);
        KeptTrans(l, m, Now());
      }
    }

    // ----- alloc_get -----

    /** From one list of a bucket, or of the free pages, to another. */
    method MoveToList(from: nat, to: nat, p: nat)
      requires Linked() && from < heads.Length && to < heads.Length && p < pages.Length && place[p] == from
      modifies pages, heads, `lists, `place
      ensures Linked() && Relisted(old(Now()), Now(), p, to) && Quiet(old(Now()), Now(), p)
      ensures from < |old(lists)| && to < |old(lists)| && lists == Moved(old(lists), from, to, p)
    {
      hide Chained, Removed;
      Deletable(from, p);
      DelFromList(from, p);
      AddToList(to, p);
      assert place == old(place)[p := to];
    }

    /** The branch of alloc_get that gets a page for a bucket without a partial page. */
    method NewPage(b: nat) returns (p: nat)
      requires Valid() && b < |caps| && heads[PageList(b)] == 0
      modifies pages, heads, `pagesize, `lists, `place
      ensures Linked() && Matches(Now(), out) && DataHeld(old(Now()), Now())
      ensures p == 0 <==> if OnSmallPages(b, spBits) then NoPage(old(Now())) else NoLargePage(old(Now()))
      ensures PageList(b) < |old(lists)| && lists == Stocked(old(Now()), old(lists), b, OnSmallPages(b, spBits))
      ensures if p == 0 then lists[PageList(b)] == [] else lists[PageList(b)] != [] && lists[PageList(b)][0] == p
      ensures p == 0 ==> Sound(Now(), -1) && heads[PageList(b)] == 0
      ensures p != 0 ==> p < pages.Length && Ready(Now(), b, p) && heads[PageList(b)] == p
    {
      hide Chained, Sound, Kept, IsLarge, LargePageBucket, NoLargePage, NoPage, Matches, DataHeld, PageList, Fixed, OnSmallPages, GrabLarge, GrabSmall;
      ghost var l := Now();
      BucketLists(b);
      FirstOn(PageList(b));
      BitsAtLeastSeven();
      SmallPageExactly(b, spBits);
      if LargePageBucket(b, spBits) {
        p := GetLargePage();
      } else {
        p := GetSmallPage();
      }
      MatchesKept(l, Now(), out);
      KeptData(l, Now());
      if p != 0 {
        InitPage(b, p, l);
      } else {
        FirstOn(PageList(b));
      }
    }

    /** A page that has been got becomes the only page of its bucket's partial list. */
    method InitPage(b: nat, p: nat, ghost l0: Layout)
      requires Linked() && b < |caps| && heads[PageList(b)] == 0 && p < pages.Length
      requires Sound(Now(), p) && IsLarge(pagesize, p) == LargePageBucket(b, spBits) && pages[p].prev == 0
      requires Matches(Now(), out) && DataHeld(l0, Now())
      modifies pages, heads, `lists, `place
      ensures Linked() && Ready(Now(), b, p) && heads[PageList(b)] == p
      ensures PageList(b) < |old(lists)| && lists == Pushed(old(lists), PageList(b), p)
      ensures Matches(Now(), out) && DataHeld(l0, Now())
    {
      hide Chained, Shape, PageOk, PageStart, IsLarge, LargePageBucket, Matches, DataHeld, Ready, LiveBut, Zeros, UsedSize;
      ghost var l := Now();
      ghost var k := PageList(b);
      StartPositive(l, p);
      ghost var ps, hs := pages[..], heads[..];
      heads[PageList(b)] := p;
      pages[p] := pages[p].(bucket := b, elementsUsed := 0, next := 0, used := Zeros(UsedSize(caps[b]) / 8));
      assert pages[..] == ps[p := NewHeader(ps[p], b, caps[b])];
      assert heads[..] == hs[k := p];
      AloneChained(ps, pages[..], hs, lists, place, k, p);
      lists := lists[k := [p] + lists[k]];
      place := place[p := k];
      FreshReady(l, Now(), b, p);
      MatchesSame(l, Now(), out);
      DataHeldTrans(l0, l, Now());
    }

    lemma StartPositive(l: Layout, p: int)
      requires Sound(l, p) && p != -1
      ensures 0 < p < |l.ps|
    {
      HeaderPagesBounds(l.sp);
    }

    /** The element alloc_get takes from the first partial page of a bucket. */
    method TakeElement(b: nat, ph: nat) returns (i: nat)
      requires Linked() && ph < pages.Length && Ready(Now(), b, ph) && Matches(Now(), out)
      modifies pages, heads, `lists, `place, `out
      ensures Linked() && Sound(Now(), -1) && Matches(Now(), out) && DataHeld(old(Now()), Now())
      ensures b < |caps| && i < caps[b] && pages[ph].bucket == b
      ensures var off := Where(spBits, caps, Elem(ph, i, b)); off !in old(out) && out == old(out)[off := Elem(ph, i, b)]
      ensures LowerOut(Now(), old(out), ph, i, b)
      ensures FullList(b) < |old(lists)| && lists == Filled(old(lists), b, ph, pages[ph].elementsUsed == caps[b])
    {
      hide Chained, Sound, Matches, DataHeld, Live, TestBit, Ready, Quiet, Relisted, OffsetOf, LowerOut, Moved;
      ghost var l := Now();
      ReadyPlace(l, b, ph);
      FreeBitExists(l, b, ph);
      i := FindFreeBit(pages[ph].used);
      LowerBits(l, b, ph, i, out);
      SetElement(ph, i);
      ghost var m := Now();
      BucketLists(b);
      if pages[ph].elementsUsed == caps[b] {
        MoveToList(PageList(b), FullList(b), ph);
        RelistedCount(m, Now(), ph, FullList(b));
      }
      TakenDone(l, m, Now(), b, ph, i, out);
      SameLower(l, Now(), out, ph, i, b);
      ghost var e := Elem(ph, i, b);
      out := out[Where(spBits, caps, e) := e];
    }

    lemma RelistedCount(l: Layout, m: Layout, p: int, k: int)
      requires Relisted(l, m, p, k)
      ensures 0 <= p < |m.ps| == |l.ps| && m.ps[p].elementsUsed == l.ps[p].elementsUsed && m.ps[p].bucket == l.ps[p].bucket
    {
    }

    lemma LowerBits(l: Layout, b: nat, p: nat, i: nat, out: map<nat, Elem>)
      requires Ready(l, b, p) && Matches(l, out) && l.ps[p].used != [] && i < 64 * |l.ps[p].used|
      requires forall j: nat :: j < i ==> TestBit(l.ps[p].used, j)
      requires !TestBit(l.ps[p].used, i)
      ensures i < l.caps[b] <= 64 * |l.ps[p].used| && LowerOut(l, out, p, i, b)
    {
      hide Matches, TestBit, LowerOut, OkBut, PageStart;
      FreeBitExists(l, b, p);
      LowerTaken(l, b, p, i, out);
    }

    lemma SameLower(l: Layout, n: Layout, out: map<nat, Elem>, p: nat, i: nat, b: nat)
      requires LowerOut(l, out, p, i, b) && n.sp == l.sp && n.caps == l.caps
      ensures LowerOut(n, out, p, i, b)
    {
      hide OffsetOf;
    }

    method SetElement(ph: nat, i: nat)
      requires Linked() && ph < pages.Length && i < 64 * |pages[ph].used|
      modifies pages
      ensures Linked() && pages[..] == old(pages[..])[ph := TakeBit(old(pages[ph]), i)]
    {
      hide Chained, SetBit;
      BodyWrite(ph, TakeBit(pages[ph], i));
      pages[ph] := pages[ph].(used := SetBit(pages[ph].used, i), elementsUsed := pages[ph].elementsUsed + 1);
    }

    lemma BucketLists(b: nat)
      requires Linked() && b < |caps|
      ensures 2 <= PageList(b) < heads.Length && 2 <= FullList(b) < heads.Length
    {
    }

    /** alloc_get for a request whose bucket is below the huge ones. */
    method Get(size: nat, align: nat) returns (r: Option<nat>)
      requires Valid() && OneBit(align) && SizeToBucket(RoundedSize(size, align)) < MaxBucket(spBits + 5)
      modifies this`pagesize, this`lists, this`place, this`out, pages, heads
      ensures Valid() && DataHeld(old(Now()), Now())
      ensures r.None? <==> Exhausted(old(Now()), SizeToBucket(RoundedSize(size, align)))
      ensures r.None? ==> out == old(out)
      ensures r.Some? ==> (
        && r.value !in old(out) && r.value in out && out == old(out)[r.value := out[r.value]]
        && out[r.value].bucket == SizeToBucket(RoundedSize(size, align))
        && r.value == Where(spBits, caps, out[r.value])
        && LowerOut(Now(), old(out), out[r.value].page, out[r.value].index, out[r.value].bucket))
      ensures r.Some? ==>
                var list := PageList(SizeToBucket(RoundedSize(size, align)));
                list < heads.Length && (old(heads[list]) != 0 ==> out[r.value].page == old(heads[list]))
      ensures r.Some? ==> (IsLarge(pagesize, out[r.value].page) <==> !OnSmallPages(out[r.value].bucket, spBits))
      ensures var b := SizeToBucket(RoundedSize(size, align));
              ListsGot(old(Now()), old(lists), Now(), lists, b, if r.None? then 0 else out[r.value].page)
      ensures r.Some? && (size > 0 || align == 1) ==> r.value % align == 0
    {
      hide Chained, Sound, Matches, DataHeld, Ready, AlignUp, SizeToBucket, Capacity, Fixed, PageHeaderSize, BucketToSize, LowerOut,
        NoLargePage, NoPage, LargePageBucket, Pow2, Stocked, Filled, OnSmallPages, ListsGot;
      var s := AlignUp(size, align);
      if s == 0 {
        s := 1;
      }
      var bucket := SizeToBucket(s);
      CapsBelow();
      BucketLists(bucket);
      FirstOn(PageList(bucket));
      ghost var l, lists0 := Now(), lists;
      DataHeldSelf(l);
      StockedAlready(l, lists0, bucket);
      if heads[PageList(bucket)] == 0 {
        var p := NewPage(bucket);
        if p == 0 {
          ListsSearched(l, lists0, Now(), lists, bucket);
          return None;
        }
      } else {
        FirstReady(l, bucket, heads[PageList(bucket)]);
      }
      var ph := heads[PageList(bucket)];
      ghost var m, stocked := Now(), lists;
      FirstOn(PageList(bucket));
      var i := TakeElement(bucket, ph);
      DataHeldTrans(l, m, Now());
      r := Some(OffsetOf(spBits, caps[bucket], Elem(ph, i, pages[ph].bucket)));
      ListsServed(l, lists0, stocked, Now(), lists, bucket, ph);
      GotAligned(r.value, size, align);
      GotSized(r.value);
    }

    /** An outstanding element lies in a page of its bucket's size. */
    lemma GotSized(off: nat)
      requires Valid() && off in out
      ensures IsLarge(pagesize, out[off].page) <==> !OnSmallPages(out[off].bucket, spBits)
    {
      hide Chained, Fixed, Live, Holds, OffsetOf, IsLarge, LargePageBucket, OnSmallPages, Capacity, BucketToSize, BucketPage, Sound, Matches,
        PageStart, Counted;
      BitsAtLeastSeven();
      var e := out[off];
      OutHolds(Now(), out, off);
      SmallPageExactly(e.bucket, spBits);
    }

    lemma CapsBelow()
      requires Sound(Now(), -1)
      ensures |caps| == MaxBucket(spBits + 5) && |place| == pages.Length
    {
    }

    lemma GotAligned(off: nat, size: nat, align: nat)
      requires Valid() && off in out && OneBit(align) && out[off].bucket == SizeToBucket(RoundedSize(size, align))
      ensures size > 0 || align == 1 ==> off % align == 0
    {
      hide Chained, Sound, Matches, SizeToBucket, Fixed, PageHeaderSize, BucketToSize, Pow2, OffsetOf, Live, Holds, InBucket;
      if size > 0 {
        var j := OneBitExponent(align);
        AlignUpLeast(size, align, 0);
        OutHolds(Now(), out, off);
        ElementAligned(spBits, CapOf(caps, out[off].bucket), out[off], RoundedSize(size, align), j);
      }
    }

    // ----- alloc_free and alloc_size -----

    method Free(free: nat)
      requires Valid() && free in out
      modifies this`lists, this`place, this`out, pages, heads
      ensures Valid() && out == old(out) - {free} && DataHeld(Now(), old(Now()))
      ensures var e := old(out)[free];
              FullList(e.bucket) < |old(lists)| && e.page < pages.Length && e.bucket < |caps|
              && var used := old(pages[e.page].elementsUsed);
                 lists == Emptied(old(lists), e.bucket, e.page, used == caps[e.bucket], used == 1,
                                  if IsLarge(pagesize, e.page) then LARGE_FREE else SMALL_FREE)
    {
      hide Chained, Sound, Matches, DataHeld, TestBit, Fixed, PageHeaderSize, BucketToSize, Pow2, Shr, AlignDown, OffsetOf, Live, Holds,
        PageStart, InBucket, Emptied;
      OutFound(Now(), out, free);
      OutHolds(Now(), out, free);
      var pgnum := Shr(free, spBits);
      var smallpage := true;
      LargeIndex(pgnum);
      OutShape(Now());
      if TestBit(pagesize, Shr(pgnum, BITS_FROM_SMALL_TO_LARGE_PAGE)) {
        smallpage := false;
        pgnum := AlignDown(pgnum, SMALL_PAGES_PER_LARGE_PAGE);
      }
      // A pointer to a page header would be a huge allocation; no element lies there.
      assert pgnum * Pow2(spBits) != free;
      var bucket := pages[pgnum].bucket;
      var pgoffset := free - pgnum * Pow2(spBits) - PageHeaderSize(bucket / INTER_BUCKET_SPACE, caps[bucket]);
      ReleaseElement(pgnum, pgoffset / BucketToSize(bucket), smallpage);
      out := out - {free};
    }

    lemma LargeIndex(pgnum: nat)
      ensures Shr(pgnum, 5) == pgnum / 32
    {
      ShrFiveSeven(pgnum);
    }

    /** Giving back element i of page pgnum. */
    method ReleaseElement(pgnum: nat, i: nat, smallpage: bool)
      requires Linked() && Sound(Now(), -1) && Matches(Now(), out) && Live(Now(), pgnum, i)
      requires pgnum < pages.Length && smallpage == !IsLarge(pagesize, pgnum)
      requires pages[pgnum].bucket == BucketOf(place[pgnum]) < |caps|
      modifies this`lists, this`place, pages, heads
      ensures Linked() && Sound(Now(), -1) && DataHeld(Now(), old(Now()))
      ensures var b := old(pages[pgnum].bucket);
              FullList(b) < |old(lists)|
              && var used := old(pages[pgnum].elementsUsed);
                 lists == Emptied(old(lists), b, pgnum, used == caps[b], used == 1, if smallpage then SMALL_FREE else LARGE_FREE)
      ensures Matches(Now(), out - {Where(spBits, caps, Elem(pgnum, i, BucketOf(old(place)[pgnum])))})
    {
      hide Chained, Sound, Matches, DataHeld, TestBit, OffsetOf, Live, PageStart, InBucket, Relisted, Quiet, OkBut, LiveBut, IsLarge, SameBodies, Moved;
      ghost var l := Now();
      ReleaseStart(l, pgnum, i);
      LiveRange(l, pgnum, i);
      var bucket := pages[pgnum].bucket;
      BucketLists(bucket);
      if pages[pgnum].elementsUsed == caps[bucket] {
        MoveToList(FullList(bucket), PageList(bucket), pgnum);
      }
      ghost var l1 := Now();
      assert pages[pgnum].elementsUsed == old(pages[pgnum].elementsUsed) && pages[pgnum].bucket == bucket by {
        if l.ps[pgnum].elementsUsed == caps[bucket] {
          RelistedCount(l, l1, pgnum, PageList(bucket));
        }
      }
      ReleaseMiddle(l, l1, bucket, pgnum, i);
      ClearElement(pgnum, i);
      ghost var m := Now();
      if pages[pgnum].elementsUsed == 0 {
        MoveToList(PageList(bucket), if smallpage then SMALL_FREE else LARGE_FREE, pgnum);
      }
      GivenDone(l, l1, m, Now(), bucket, pgnum, i, out);
    }

    lemma ReleaseMiddle(l: Layout, l1: Layout, b: nat, p: int, i: nat)
      requires Sound(l, -1) && Live(l, p, i) && b == BucketOf(l.place[p]) && b < |l.caps|
      requires if l.ps[p].elementsUsed == l.caps[b] then Relisted(l, l1, p, PageList(b)) else l1 == l
      ensures |l1.ps| == |l.ps| && 0 <= p < |l.ps| == |l1.place| && i < 64 * |l1.ps[p].used| && l1.ps[p].elementsUsed > 0
      ensures l1.place[p] == PageList(b)
    {
      hide Sound, Live, TestBit;
      StartGiving(l, l1, b, p, i);
      ReleaseStart(l, p, i);
      assert SameBody(l.ps[p], l1.ps[p]);
    }

    method ClearElement(ph: nat, i: nat)
      requires Linked() && ph < pages.Length && i < 64 * |pages[ph].used| && pages[ph].elementsUsed > 0
      modifies pages
      ensures Linked() && pages[..] == old(pages[..])[ph := GiveBit(old(pages[ph]), i)]
    {
      hide Chained, ClearBit;
      BodyWrite(ph, GiveBit(pages[ph], i));
      pages[ph] := pages[ph].(used := ClearBit(pages[ph].used, i), elementsUsed := pages[ph].elementsUsed - 1);
    }

    /** alloc_size: the size of the bucket the element was taken from. */
    method Size(p: nat) returns (size: nat)
      requires Valid() && p in out
      ensures size == BucketToSize(out[p].bucket)
    {
      hide Chained, Sound, Matches, TestBit, Fixed, PageHeaderSize, BucketToSize, Pow2, Shr, AlignDown, OffsetOf, Live, Holds;
      OutFound(Now(), out, p);
      var pgnum := Shr(p, spBits);
      LargeIndex(pgnum);
      OutShape(Now());
      if TestBit(pagesize, Shr(pgnum, BITS_FROM_SMALL_TO_LARGE_PAGE)) {
        pgnum := AlignDown(pgnum, SMALL_PAGES_PER_LARGE_PAGE);
      }
      assert pgnum * Pow2(spBits) != p;
      size := BucketToSize(pages[pgnum].bucket);
    }

    /** Clients may leave anything in the later small pages of a large page they own elements of. */
    method ClientWrite(q: nat, data: Page)
      requires Valid() && q < pages.Length && Inner(Now(), q)
      modifies pages
      ensures Valid() && pages[..] == old(pages[..])[q := data]
    {
      hide Chained, Sound, Matches, Fixed, Inner;
      ghost var l := Now();
      ghost var ps := pages[..];
      InnerWrite(l, q, data);
      InnerMatches(l, q, data, out);
      InnerUnlisted(l, q);
      UnlistedChained(ps, heads[..], lists, place, q, data);
      pages[q] := data;
      assert pages[..] == ps[q := data];
    }

    lemma BitsAtLeastSeven()
      requires Sound(Now(), -1)
      ensures spBits >= 7
    {
    }

    lemma WellShaped()
      requires Sound(Now(), -1)
      ensures Shape(Now())
    {
    }
  }
}
