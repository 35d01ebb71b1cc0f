/** Two runs that show where the page allocator and its check fall short. */
module PageRuns {
  import opened Powers
  import opened Bits
  import opened Logs
  import opened Bitmaps
  import opened SizeClasses
  import opened PageSizes
  import opened PageAddresses
  import opened PageLists
  import opened PageLayout
  import opened PageSteps
  import opened PageMoves
  import opened PageElements
  import opened PageExhaustion
  import opened PageCheck
  import opened PagePool
  import opened Pages

  // ----- Requests for no bytes -----

  lemma SmallestBucket(align: nat)
    requires OneBit(align)
    ensures SizeToBucket(RoundedSize(0, align)) == 0 && BucketToSize(0) == 1
  {
    AlignUpLeast(0, align, 0);
    BucketGalois(1, 0);
  }

  /** With one pointer outstanding in bucket 0, its page is the one that serves next. */
  lemma SamePageNext(h: Heap, a: nat)
    requires h.Valid() && a in h.out && h.out.Keys == {a} && h.out[a].bucket == 0
    ensures h.heads.Length > PageList(0) && h.heads[PageList(0)] == h.out[a].page != 0
    ensures exists p :: 0 <= p < |h.place| && h.place[p] == PageList(0)
  {
    hide Sound, Chained, Matches, Live, OffsetOf, PageStart, InBucket, Holds, FullPage;
    var l, e := h.Now(), h.out[a];
    OutHolds(l, h.out, a);
    SoundShape(l);
    BucketOfLists(0);
    NotFull(l, h.out, a);
    PartialNotFull(l, e.page, 0);
    h.FirstOn(PageList(0));
    var p := h.heads[PageList(0)];
    OnlyPage(l, h.out, a, p);
  }

  lemma OnlyElement(l: Layout, out: map<nat, Elem>, a: nat, p: int, i: int)
    requires Matches(l, out) && a in out && out.Keys == {a} && Live(l, p, i)
    ensures out[a].page == p && out[a].index == i
  {
    hide Live, OffsetOf;
    ElemIs(l, p, i);
    assert Where(l.sp, l.caps, ElemAt(l, p, i)) == a;
  }

  /** A page of bucket 0 has at least six elements, so one pointer does not fill it. */
  lemma NotFull(l: Layout, out: map<nat, Elem>, a: nat)
    requires Sound(l, -1) && Matches(l, out) && a in out && out.Keys == {a} && out[a].bucket == 0 && |l.caps| > 0
    ensures !FullPage(l, out[a].page, 0)
  {
    hide Sound, Live, OffsetOf;
    var p := out[a].page;
    FirstCap(l);
    var j := if out[a].index == 0 then 1 else 0;
    if Live(l, p, j) {
      OnlyElement(l, out, a, p, j);
    }
  }

  lemma FirstCap(l: Layout)
    requires Sound(l, -1) && |l.caps| > 0
    ensures l.caps[0] >= 6
  {
    CapAtLeastSix(l, 0);
  }

  lemma OnlyPage(l: Layout, out: map<nat, Elem>, a: nat, p: nat)
    requires Sound(l, -1) && Matches(l, out) && a in out && out.Keys == {a}
    requires p < |l.place| && l.place[p] >= 2
    ensures p == out[a].page
  {
    hide Sound, Live, OffsetOf, PageStart;
    SoundLengths(l);
    ListedStart(l, p);
    ListedOccupied(l, p);
    var i :| Live(l, p, i);
    OnlyElement(l, out, a, p, i);
  }

  lemma FirstIndex(l: Layout, out: map<nat, Elem>, e: Elem)
    requires out == map[] && LowerOut(l, out, e.page, e.index, e.bucket)
    ensures e.index == 0
  {
    hide OffsetOf;
    var first := Elem(e.page, 0, e.bucket);
    assert e.index > 0 ==> Where(l.sp, l.caps, first) in out;
  }

  lemma SecondIndex(l: Layout, a: nat, e: Elem, f: Elem)
    requires LowerOut(l, map[a := e], f.page, f.index, f.bucket)
    requires e.index == 0 && f.page == e.page && f.bucket == e.bucket && f != e
    ensures f.index == 1
  {
    hide OffsetOf;
    var next := Elem(f.page, 1, f.bucket);
    assert f.index > 1 ==> Where(l.sp, l.caps, next) in map[a := e];
  }

  lemma NextOffset(sp: nat, cap: nat, e: Elem, f: Elem)
    requires e.index == 0 && f == Elem(e.page, 1, 0) && e.bucket == 0
    ensures OffsetOf(sp, cap, f) == OffsetOf(sp, cap, e) + 1
  {
    assert BucketToSize(0) == 1;
  }

  lemma NotBoth(a: nat, align: nat)
    requires align > 1
    ensures !(a % align == 0 && (a + 1) % align == 0)
  {
    if a % align == 0 {
      SumMod(a, align);
    }
  }

  lemma SoundShape(l: Layout)
    requires Sound(l, -1)
    ensures l.sp >= 7 && |l.caps| == MaxBucket(l.sp + 5) > 0
  {
  }

  /** Two requests for no bytes on a fresh pool: neighbouring offsets, so that only one can be even. */
  method ZeroSizeRun(size: nat, align: nat) returns (a: nat, b: nat)
    requires PoolShape(size) && OneBit(align) && align > 1
    ensures b == a + 1 && !(a % align == 0 && b % align == 0)
  {
    hide Sound, Chained, Matches, Live, OffsetOf, PageStart, InBucket, Holds, FullPage, PoolShape, OneBit, AlignUp, SizeToBucket,
      BucketToSize, Exhausted, LowerOut, DataHeld, ListsGot, OnSmallPages;
    SmallestBucket(align);
    var h := new Heap(size);
    SoundShape(h.Now());
    FreedPoolServes(h.Now(), 0);
    var r := h.Get(0, align);
    a := r.value;
    ghost var e := h.out[a];
    assert h.out == map[a := e];
    FirstIndex(h.Now(), map[], e);
    SamePageNext(h, a);
    OnePointer(h.Now(), h.out, a);
    var s := h.Get(0, align);
    b := s.value;
    ghost var f := h.out[b];
    SecondIndex(h.Now(), a, e, f);
    NextOffset(h.spBits, CapOf(h.caps, 0), e, f);
    NotBoth(a, align);
  }

  /** One pointer does not exhaust the pool: its own page has room. */
  lemma OnePointer(l: Layout, out: map<nat, Elem>, a: nat)
    requires Sound(l, -1) && Matches(l, out) && a in out && out.Keys == {a} && out[a].bucket == 0
    requires exists p :: 0 <= p < |l.place| && l.place[p] == PageList(0)
    ensures !Exhausted(l, 0)
  {
  }

  // ----- A page of the wrong size on a full list -----

  /** A header whose bitmap says that all elements of bucket 0 are in use. */
  function FullHeader(pg: Page, cap: nat): Page {
    pg.(bucket := 0, elementsUsed := cap, used := AllOnes(cap))
  }

  function AllOnes(n: nat): (r: seq<Word>)
    ensures |r| == n && forall i :: 0 <= i < n ==> r[i] == ALL_ONES
  {
    seq(n, _ => ALL_ONES)
  }

  lemma FullCounted(pg: Page, cap: nat)
    ensures Counted(FullHeader(pg, cap), cap)
  {
    var used := AllOnes(cap);
    forall i: nat | i < cap ensures TestBit(used, i) {
      FullWord(i % 64);
      TestBitIs(used, i);
    }
    BitCountAll(used, cap);
  }

  /** Page 32, a large page, as it is put on the full list of bucket 0. */
  ghost predicate Misfiled(l: Layout, m: Layout) {
    SamePool(l, m) && m.large == l.large && |l.ps| == |l.place| > 32 && m.place == l.place[32 := FullList(0)]
    && (forall p :: 0 <= p < |l.ps| && p != 32 ==> SameBody(l.ps[p], m.ps[p]))
    && |l.caps| > 0 && m.ps[32].bucket == 0 && m.ps[32].elementsUsed == l.caps[0] && Counted(m.ps[32], l.caps[0])
  }

  lemma MisfiledPasses(l: Layout, m: Layout, im: Image, lists: seq<seq<int>>)
    requires Sound(l, -1) && l.place[32] == LARGE_FREE && Misfiled(l, m) && Framed(im) && ImageOf(im, m)
    requires Chained(im.ps, im.heads, lists, m.place)
    ensures Witness(im, lists, m.place)
  {
    hide Chained, Counted, IsLarge, Capacity, BucketPage, MaxBucket, HeaderPages, Shr, Pow2;
    HeaderPagesBounds(l.sp);
    LargeThirtyTwo(l);
    SmallBucketZero(l.sp);
    forall p | 0 <= p < |m.place| ensures Checked(im, p, m.place[p]) {
      if p != 32 {
        assert PageOk(l, p);
        AgreeOk(l, m, p);
        PageExactly(m, im, p);
      }
    }
  }

  lemma LargeThirtyTwo(l: Layout)
    requires Sound(l, -1) && |l.place| > 32 && l.place[32] == LARGE_FREE
    ensures IsLarge(l.large, 32)
  {
    hide TestBit, HeaderPages, InBucket;
    SoundLengths(l);
    assert PageOk(l, 32);
  }

  lemma SmallBucketZero(sp: nat)
    requires sp >= 7
    ensures !LargePageBucket(0, sp)
  {
    hide Shr;
    EighthOf(sp);
    assert BucketToSize(0) == 1;
  }

  /** No reading of the links makes the layout sound: page 32 starts the full list of a bucket for small pages. */
  lemma NeverSound(im: Image, lists: seq<seq<int>>, place: seq<int>)
    requires Framed(im) && im.heads[FullList(0)] == 32 && IsLarge(im.large, 32) && Chained(im.ps, im.heads, lists, place)
    ensures !Sound(Layout(im.sp, im.caps, im.large, im.ps, place), -1)
  {
    hide Chained, TestBit, HeaderPages, Capacity, BucketPage, BucketToSize, LargePageBucket, Shr, Pow2;
    var l := Layout(im.sp, im.caps, im.large, im.ps, place);
    ListedFull(im.ps, im.heads, lists, place);
    SmallBucketZero(im.sp);
    BucketOfLists(0);
    if Sound(l, -1) {
      FullInBucket(l);
    }
  }

  lemma ListedFull(ps: seq<Page>, heads: seq<nat>, lists: seq<seq<int>>, place: seq<int>)
    requires Chained(ps, heads, lists, place) && |heads| > FullList(0) && heads[FullList(0)] == 32
    ensures |place| > 32 && place[32] == FullList(0)
  {
    hide Chain, Listed;
    FirstListed(ps, heads, lists, place, FullList(0));
  }

  lemma FullInBucket(l: Layout)
    requires Sound(l, -1) && |l.place| > 32 && l.place[32] == FullList(0)
    ensures IsLarge(l.large, 32) == LargePageBucket(0, l.sp)
  {
    hide TestBit, HeaderPages, Capacity, BucketPage, BucketToSize, MaxBucket, LargePageBucket, Counted;
    assert PageOk(l, 32);
  }

  /** alloc_check returns true on a pool that breaks the allocator's invariant: it holds a large page on the full list of bucket 0. */
  method MisfiledPage() returns (ok: bool, ghost im: Image)
    ensures ok && Framed(im) && Consistent(im)
    ensures forall lists, place :: Chained(im.ps, im.heads, lists, place) ==>
              !Sound(Layout(im.sp, im.caps, im.large, im.ps, place), -1)
  {
    hide Sound, Chained, Matches, PageStart, InBucket, PoolShape, Consistent, Framed, Witness, Counted, SameBody, FullHeader, Misfiled,
      HeaderPages, IsLarge, SmallPageBits, Shr;
    LeastPool();
    var h := new Heap(0x10_0000);
    ghost var l := h.Now();
    SoundLengths(l);
    SoundShape(l);
    assert l.place[32] == LARGE_FREE;
    LargeThirtyTwo(l);
    Refile(h);
    im := View(h, []);
    assert h.pages[..] + [] == h.pages[..];
    ImageFramed(h);
    MisfiledPasses(l, h.Now(), im, h.lists);
    Accepted(im, h.lists, h.place);
    ok := CheckPool(h, []);
    forall lists, place | Chained(im.ps, im.heads, lists, place)
      ensures !Sound(Layout(im.sp, im.caps, im.large, im.ps, place), -1)
    {
      NeverSound(im, lists, place);
    }
  }

  lemma LeastPool()
    ensures PoolShape(0x10_0000) && SmallPageBits(0x10_0000) == 7
  {
    assert Pow2(12) == 4096;
    assert Ilog(127) == 7 by { IlogAtMost(127, 7); IlogAtMost(127, 6); assert Pow2(6) == 64; }
  }

  method Refile(h: Heap)
    requires h.Valid() && |h.caps| > 0 && h.pages.Length > 32 && h.place[32] == LARGE_FREE
    modifies h.pages, h.heads, h`lists, h`place
    ensures h.Linked() && h.heads.Length > FullList(0) && h.heads[FullList(0)] == 32
    ensures Misfiled(old(h.Now()), h.Now())
  {
    hide Sound, Chained, Matches;
    h.DelFromList(LARGE_FREE, 32);
    h.AddToList(FullList(0), 32);
    FullCounted(h.pages[32], h.caps[0]);
    h.BodyWrite(32, FullHeader(h.pages[32], h.caps[0]));
    h.pages[32] := FullHeader(h.pages[32], h.caps[0]);
  }

  lemma ImageFramed(h: Heap)
    requires h.poolsize == 0x10_0000 && h.spBits == 7 && h.pages.Length == 8192 && |h.pagesize| == 4
    requires |h.caps| == MaxBucket(12) && h.heads.Length == 2 + 2 * |h.caps|
    ensures Framed(View(h, []))
  {
    assert Pow2(7) == 128;
  }
}
