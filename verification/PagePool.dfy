/** alloc_check on a pool of the page allocator. */
module PagePool {
  import opened Logs
  import opened Powers
  import opened SizeClasses
  import opened PageSizes
  import opened PageLists
  import opened PageLayout
  import opened PageCheck
  import opened Pages

  /** What alloc_check sees of a pool: tail stands for the small pages behind the last whole large page. */
  ghost function View(h: Heap, tail: seq<Page>): Image
    reads h, h.pages, h.heads
  {
    Image(h.poolsize, h.spBits, h.caps, h.pagesize, h.pages[..] + tail, h.heads[..])
  }

  method CheckPool(h: Heap, tail: seq<Page>) returns (ok: bool)
    requires Framed(View(h, tail))
    ensures ok <==> Consistent(View(h, tail))
  {
    hide Framed, Consistent;
    ok := AllocCheck(Image(h.poolsize, h.spBits, h.caps, h.pagesize, h.pages[..] + tail, h.heads[..]));
  }

  /** Tail holds all small pages of the pool that no large page takes. */
  ghost predicate WholePool(h: Heap, tail: seq<Page>) {
    h.pages.Length + |tail| == Shr(h.poolsize, h.spBits) <= MAX_SMALL_PAGES
  }

  /** In every reachable state alloc_check returns true exactly when the pool's small pages make up whole large pages. */
  lemma ReachableExactly(h: Heap, tail: seq<Page>)
    requires h.Valid() && WholePool(h, tail)
    ensures Framed(View(h, tail))
    ensures Consistent(View(h, tail)) <==> Shr(h.poolsize, h.spBits) % 32 == 0
  {
    hide Chained, Consistent, Sound, Matches, Framed, Witness, Shape, Shr, PoolShape, SmallPageBits, Pow2;
    ReachableFramed(h, tail);
    assert tail == [] <==> (h.pages.Length + |tail|) % 32 == 0;
    if tail == [] {
      WholeAccepted(h);
    } else {
      TailUnaccounted(View(h, tail), h.pages[..], tail, h.lists, h.place);
    }
  }

  lemma WholeAccepted(h: Heap)
    requires h.Valid() && Framed(View(h, []))
    ensures Consistent(View(h, []))
  {
    hide Chained, Consistent, Sound, Matches, Framed, Witness, Shape, PoolShape, SmallPageBits;
    assert h.pages[..] + [] == h.pages[..];
    h.WellShaped();
    InvariantExactly(h.Now(), View(h, []), h.lists);
    Accepted(View(h, []), h.lists, h.place);
  }

  lemma Accepted(im: Image, lists: seq<seq<int>>, place: seq<int>)
    requires Witness(im, lists, place)
    ensures Consistent(im)
  {
    hide Witness;
  }

  lemma ReachableFramed(h: Heap, tail: seq<Page>)
    requires h.Valid() && WholePool(h, tail)
    ensures Framed(View(h, tail)) && h.pages.Length % 32 == 0 && h.pages.Length >= 64 && |tail| < 32
  {
    hide Chained, Matches, PageOk, Capacity, BucketPage, BucketToSize, MaxBucket, Shr, Pow2, PoolShape, SmallPageBits;
    h.PoolBytes();
    TailCells(h.pages.Length, |tail|, h.poolsize, h.spBits);
  }

  lemma TailCells(n: nat, t: nat, size: nat, k: nat)
    requires n * Pow2(k) <= size < n * Pow2(k) + 32 * Pow2(k) && n + t == Shr(size, k)
    ensures (n + t) * Pow2(k) <= size < (n + t) * Pow2(k) + Pow2(k) && t < 32
  {
    hide Pow2, Shr;
    ShrDiv(size, k);
    DivMod(size, Pow2(k));
    if t >= 32 {
      MulMono(n + 32, n + t, Pow2(k));
    }
  }
}
