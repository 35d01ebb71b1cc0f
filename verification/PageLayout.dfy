/** What the page allocator keeps: every page is in exactly one place and its header agrees with that place. */
module PageLayout {
  import opened Bitmaps
  import opened SizeClasses
  import opened PageSizes
  import opened PageAddresses
  import opened PageLists

  /** The indices of the lists: two free lists, then two lists a bucket. */
  const SMALL_FREE: int := 0
  const LARGE_FREE: int := 1

  function PageList(bucket: nat): nat {
    2 + 2 * bucket
  }

  function FullList(bucket: nat): nat {
    3 + 2 * bucket
  }

  function BucketOf(k: nat): nat
    requires k >= 2
  {
    (k - 2) / 2
  }

  /**
    The state of a pool: page size, elements a page for every bucket, the bitmap of large
    pages, the page headers, and the list each page is on (-1 for none).
   */
  datatype Layout = Layout(sp: nat, caps: seq<nat>, large: seq<Word>, ps: seq<Page>, place: seq<int>)

  ghost predicate Shape(l: Layout) {
    l.sp >= 7 && |l.caps| == MaxBucket(l.sp + 5) && |l.large| == 4 && |l.ps| == |l.place|
    && |l.ps| % 32 == 0 && 64 <= |l.ps| <= 8192
    && forall b :: 0 <= b < |l.caps| ==> Capacity(b / 4, BucketToSize(b), BucketPage(b, l.sp), l.caps[b])
  }

  ghost predicate IsLarge(large: seq<Word>, p: int) {
    |large| == 4 && 0 <= p < 8192 && TestBit(large, p / 32)
  }

  /** A page starts here: past the header, and not inside a large page. */
  ghost predicate PageStart(l: Layout, p: int) {
    HeaderPages(l.sp) <= p < |l.ps| && (IsLarge(l.large, p) ==> p % 32 == 0)
  }

  /** The bitmap has room for all elements and the count of its set bits is right. */
  ghost predicate Counted(pg: Page, cap: nat) {
    cap <= 64 * |pg.used| && BitCount(pg.used, cap) == pg.elementsUsed
  }

  ghost predicate InBucket(l: Layout, p: int, b: nat) {
    0 <= p < |l.ps| && b < |l.caps| && LargePageBucket(b, l.sp) == IsLarge(l.large, p)
    && l.ps[p].bucket == b && Counted(l.ps[p], l.caps[b])
  }

  /** Pages on a partial list have a used and a free element; pages on a full list have no free one. */
  ghost predicate RightlyFull(l: Layout, p: int, k: nat)
    requires k >= 2 && InBucket(l, p, BucketOf(k))
  {
    if k % 2 == 0 then 0 < l.ps[p].elementsUsed < l.caps[BucketOf(k)]
    else l.ps[p].elementsUsed == l.caps[BucketOf(k)]
  }

  /** The header of a listed page fits the list it is on. */
  ghost predicate Filed(l: Layout, p: int, k: int)
    requires 0 <= p < |l.ps|
  {
    if k == SMALL_FREE then !IsLarge(l.large, p) && l.ps[p].elementsUsed == 0
    else if k == LARGE_FREE then IsLarge(l.large, p)
    else k >= 2 && InBucket(l, p, BucketOf(k)) && RightlyFull(l, p, k)
  }

  ghost predicate PageOk(l: Layout, p: int)
    requires 0 <= p < |l.ps| == |l.place|
  {
    (p < HeaderPages(l.sp) ==> !IsLarge(l.large, p))
    && if PageStart(l, p) then Filed(l, p, l.place[p]) else l.place[p] == -1
  }

  /** Every page but x is in its place; x, if there is one, is a page that has been taken off its list. */
  ghost predicate Sound(l: Layout, x: int) {
    Shape(l)
    && (forall p :: 0 <= p < |l.ps| && p != x ==> PageOk(l, p))
    && (x != -1 ==> Held(l, x))
  }

  ghost predicate Held(l: Layout, x: int) {
    PageStart(l, x) && |l.place| == |l.ps| && l.place[x] == -1
  }

  // ----- Outstanding elements -----

  ghost predicate Live(l: Layout, p: int, i: int) {
    0 <= p < |l.ps| == |l.place| && l.place[p] >= 2 && BucketOf(l.place[p]) < |l.caps|
    && 0 <= i < l.caps[BucketOf(l.place[p])] <= 64 * |l.ps[p].used|
    && TestBit(l.ps[p].used, i)
  }

  ghost function ElemAt(l: Layout, p: int, i: int): Elem
    requires Live(l, p, i)
  {
    Elem(p, i, BucketOf(l.place[p]))
  }

  function CapOf(caps: seq<nat>, b: nat): nat {
    if b < |caps| then caps[b] else 0
  }

  function Where(sp: nat, caps: seq<nat>, e: Elem): nat {
    OffsetOf(sp, CapOf(caps, e.bucket), e)
  }

  /** The outstanding pointers are exactly the addresses of the elements whose bits are set. */
  ghost predicate Matches(l: Layout, out: map<nat, Elem>) {
    (forall off :: off in out ==>
      Live(l, out[off].page, out[off].index) && ElemAt(l, out[off].page, out[off].index) == out[off]
      && Where(l.sp, l.caps, out[off]) == off)
    && (forall p, i {:trigger Live(l, p, i)} :: Live(l, p, i) ==>
      Where(l.sp, l.caps, ElemAt(l, p, i)) in out && out[Where(l.sp, l.caps, ElemAt(l, p, i))] == ElemAt(l, p, i))
  }

  lemma LiveHolds(l: Layout, x: int, p: int, i: int)
    requires Sound(l, x) && Live(l, p, i)
    ensures Holds(l.sp, CapOf(l.caps, BucketOf(l.place[p])), ElemAt(l, p, i))
    ensures PageStart(l, p) && InBucket(l, p, BucketOf(l.place[p]))
  {
    hide HeaderPages, BucketPage, BucketToSize, LargePageBucket, TestBit, BitCount, Capacity;
    if p != x {
      assert PageOk(l, p);
    }
  }

  /** Two live elements at different places do not overlap. */
  lemma LiveApart(l: Layout, x: int, p: int, i: int, q: int, j: int)
    requires Sound(l, x) && Live(l, p, i) && Live(l, q, j) && (p < q || (p == q && i < j))
    ensures var e, f := ElemAt(l, p, i), ElemAt(l, q, j);
            Where(l.sp, l.caps, e) + BucketToSize(e.bucket) <= Where(l.sp, l.caps, f)
  {
    hide HeaderPages, BucketPage, BucketToSize, LargePageBucket, TestBit, BitCount, Capacity, Holds, OffsetOf, Shape, MaxBucket;
    LiveHolds(l, x, p, i);
    LiveHolds(l, x, q, j);
    var e, f := ElemAt(l, p, i), ElemAt(l, q, j);
    if p == q {
      PageApart(l.sp, CapOf(l.caps, e.bucket), e, f);
    } else {
      StartsApart(l, p, q);
      PagesApart(l.sp, CapOf(l.caps, e.bucket), CapOf(l.caps, f.bucket), e, f);
    }
  }

  /** The next page after a large page starts 32 small pages later. */
  lemma StartsApart(l: Layout, p: int, q: int)
    requires Shape(l) && PageStart(l, p) && PageStart(l, q) && p < q
    ensures IsLarge(l.large, p) ==> p + 32 <= q
  {
    hide TestBit, HeaderPages, Capacity, BucketPage, BucketToSize;
    assert p <= q < p + 32 && p % 32 == 0 ==> q / 32 == p / 32;
  }

  /** Distinct outstanding pointers own disjoint byte ranges. */
  lemma OutApart(l: Layout, out: map<nat, Elem>, a: nat, b: nat)
    requires Sound(l, -1) && Matches(l, out) && a in out && b in out && a != b
    ensures a + BucketToSize(out[a].bucket) <= b || b + BucketToSize(out[b].bucket) <= a
  {
    hide Sound, Live, BucketToSize, OffsetOf;
    var e, f := out[a], out[b];
    if e.page < f.page || (e.page == f.page && e.index < f.index) {
      LiveApart(l, -1, e.page, e.index, f.page, f.index);
    } else if f.page < e.page || f.index < e.index {
      LiveApart(l, -1, f.page, f.index, e.page, e.index);
    } else {
      LiveSame(l, e, f);
    }
  }

  lemma LiveSame(l: Layout, e: Elem, f: Elem)
    requires Live(l, e.page, e.index) && Live(l, f.page, f.index)
    requires ElemAt(l, e.page, e.index) == e && ElemAt(l, f.page, f.index) == f
    requires e.page == f.page && e.index == f.index
    ensures e == f
  {
  }
}
