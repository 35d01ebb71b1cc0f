/** Page geometry of alloc.c: page sizes, page headers, and the number of elements a page holds. */
module PageSizes {
  import opened Shared
  import opened Powers
  import opened Bits
  import opened Logs
  import opened SizeClasses

  const MAX_LARGE_PAGES: int := 256
  const BITS_FROM_SMALL_TO_LARGE_PAGE: int := 5
  const SMALL_PAGES_PER_LARGE_PAGE: int := 32
  const MAX_SMALL_PAGES: int := 8192
  const MAX_PAGE_OBJECT_ORDER: int := 3
  const CHAR_BIT: int := 8
  const BITS_PER_LONG: int := 64
  /** sizeof(struct page_header), and the part of it before the bitmap. */
  const PAGE_HEADER: int := 16
  const BITMAP_OFFSET: int := 8

  // ----- Page headers -----

  /** Bytes of the bitmap for a number of elements. */
  function UsedSize(numElements: nat): nat {
    AlignUp(numElements, BITS_PER_LONG) / CHAR_BIT
  }

  function PageHeaderSize(alignBits: nat, numElements: nat): nat {
    AlignUp(BITMAP_OFFSET + UsedSize(numElements), Pow2(alignBits))
  }

  lemma SixtyFour()
    ensures OneBit(64) && OneBit(32)
  {
    assert OneBit(2) && OneBit(4) && OneBit(8);
  }

  /** The bitmap has a whole number of words, enough for one bit an element, and no word too many. */
  lemma UsedWords(n: nat)
    ensures UsedSize(n) % 8 == 0 && n <= 8 * UsedSize(n) < n + 64
  {
    SixtyFour();
    AlignUpLeast(n, 64, 0);
  }

  lemma UsedSizeMono(m: nat, n: nat)
    requires m <= n
    ensures UsedSize(m) <= UsedSize(n)
  {
    SixtyFour();
    AlignUpLeast(n, 64, 0);
    AlignUpLeast(m, 64, AlignUp(n, 64));
  }

  /** The header is aligned, holds the bitmap, and is less than one alignment step longer than that. */
  lemma HeaderBounds(a: nat, n: nat)
    ensures Aligned(PageHeaderSize(a, n), a)
    ensures BITMAP_OFFSET + UsedSize(n) <= PageHeaderSize(a, n) < BITMAP_OFFSET + UsedSize(n) + Pow2(a)
  {
    OneBitPow2(a);
    AlignUpLeast(BITMAP_OFFSET + UsedSize(n), Pow2(a), 0);
  }

  lemma HeaderMono(a: nat, m: nat, n: nat)
    requires m <= n
    ensures PageHeaderSize(a, m) <= PageHeaderSize(a, n)
  {
    hide AlignUp, UsedSize;
    OneBitPow2(a);
    UsedSizeMono(m, n);
    HeaderBounds(a, n);
    AlignUpLeast(BITMAP_OFFSET + UsedSize(m), Pow2(a), PageHeaderSize(a, n));
  }

  // ----- Elements per page -----

  predicate Fits(a: nat, esize: nat, psize: nat, n: nat) {
    PageHeaderSize(a, n) + esize * n <= psize
  }

  lemma FitsFewer(a: nat, esize: nat, psize: nat, m: nat, n: nat)
    requires m <= n && Fits(a, esize, psize, n)
    ensures Fits(a, esize, psize, m)
  {
    HeaderMono(a, m, n);
    MulMono(m, n, esize);
    assert m * esize == esize * m && n * esize == esize * n;
  }

  /** The number of elements is the maximum: they fit, and one more would not. */
  ghost predicate Capacity(a: nat, esize: nat, psize: nat, n: nat) {
    Fits(a, esize, psize, n) && forall m: nat :: m > n ==> !Fits(a, esize, psize, m)
  }

  /** The two tests of check_bucket say that a number is the capacity. */
  lemma CapacityTest(a: nat, esize: nat, psize: nat, n: nat)
    ensures Capacity(a, esize, psize, n) <==> Fits(a, esize, psize, n) && !Fits(a, esize, psize, n + 1)
  {
    if !Fits(a, esize, psize, n + 1) {
      forall m: nat | m > n ensures !Fits(a, esize, psize, m) {
        if Fits(a, esize, psize, m) {
          FitsFewer(a, esize, psize, n + 1, m);
        }
      }
    }
  }

  /** elements_per_page. */
  method ElementsPerPage(a: nat, esize: nat, psize: nat) returns (num: nat)
    requires esize >= 1 && AlignUp(PAGE_HEADER, Pow2(a)) <= psize
    ensures Capacity(a, esize, psize, num)
  {
    hide AlignUp, UsedSize, Pow2, Capacity;
    var overhead := AlignUp(PAGE_HEADER, Pow2(a));
    QuotientNat(psize - overhead, esize);
    num := (psize - overhead) / esize;
    FirstGuess(a, esize, psize);
    NothingFits(a, esize, psize);
    while PageHeaderSize(a, num) + esize * num > psize
      invariant !Fits(a, esize, psize, num + 1)
      decreases num
    {
      num := num - 1;
    }
    CapacityTest(a, esize, psize, num);
  }

  lemma FirstGuess(a: nat, esize: nat, psize: nat)
    requires esize >= 1 && AlignUp(PAGE_HEADER, Pow2(a)) <= psize
    ensures var num := (psize - AlignUp(PAGE_HEADER, Pow2(a))) / esize; num >= 0 && !Fits(a, esize, psize, num + 1)
  {
    hide AlignUp, UsedSize, Pow2;
    var overhead := AlignUp(PAGE_HEADER, Pow2(a));
    var num := (psize - overhead) / esize;
    QuotientNat(psize - overhead, esize);
    DivMod(psize - overhead, esize);
    assert esize * (num + 1) == num * esize + esize;
    HeaderMono(a, 1, num + 1);
    UsedOne();
  }

  lemma NothingFits(a: nat, esize: nat, psize: nat)
    requires AlignUp(PAGE_HEADER, Pow2(a)) <= psize
    ensures Fits(a, esize, psize, 0)
  {
    HeaderMono(a, 0, 1);
    UsedOne();
  }

  lemma UsedOne()
    ensures UsedSize(1) == 8 && UsedSize(6) == 8
  {
    UsedWords(1);
    UsedWords(6);
  }

  // ----- Pools and buckets -----

  function SmallPageBits(poolsize: nat): nat
    requires poolsize >= MIN_USEFUL_SIZE
  {
    Ilog(poolsize / MAX_SMALL_PAGES - 1)
  }

  function MaxBucket(lpBits: nat): nat
    requires lpBits >= MAX_PAGE_OBJECT_ORDER
  {
    (lpBits - MAX_PAGE_OBJECT_ORDER) * INTER_BUCKET_SPACE
  }

  predicate LargePageBucket(bucket: nat, spBits: nat) {
    BucketToSize(bucket) > Shr(Pow2(spBits), MAX_PAGE_OBJECT_ORDER)
  }

  /** The size of the pages of a bucket. */
  function BucketPage(bucket: nat, spBits: nat): (r: nat) {
    Pow2(if LargePageBucket(bucket, spBits) then spBits + BITS_FROM_SMALL_TO_LARGE_PAGE else spBits)
  }

  lemma EighthOf(k: nat)
    requires k >= 3
    ensures Shr(Pow2(k), 3) == Pow2(k - 3) && Pow2(k) == 8 * Pow2(k - 3)
  {
    assert Pow2(k) == 2 * Pow2(k - 1) && Pow2(k - 1) == 2 * Pow2(k - 2);
    assert Shr(Pow2(k), 3) == Shr(Pow2(k - 1), 2) && Shr(Pow2(k - 1), 2) == Shr(Pow2(k - 2), 1);
  }

  /** An element takes at most an eighth of its page. */
  lemma EighthOfPage(b: nat, sp: nat)
    requires sp >= 3 && b < MaxBucket(sp + 5)
    ensures 8 * BucketToSize(b) <= BucketPage(b, sp)
  {
    hide BucketToSize, Pow2, Shr;
    BucketRange(b);
    EighthOf(sp);
    if LargePageBucket(b, sp) {
      EighthOf(sp + 5);
      Pow2Mono(b / 4, sp + 1);
      Pow2Next(sp + 1);
    }
  }

  /** Eight elements of bucket b fit a small page, headers aside. */
  predicate OnSmallPages(b: nat, sp: nat) {
    8 * BucketToSize(b) <= Pow2(sp)
  }

  /** A bucket has small pages exactly when eight of its elements fit one, headers aside; otherwise it has large ones. */
  lemma SmallPageExactly(b: nat, sp: nat)
    requires sp >= 3
    ensures BucketPage(b, sp) == Pow2(sp) <==> OnSmallPages(b, sp)
    ensures BucketPage(b, sp) == Pow2(sp + 5) <==> !OnSmallPages(b, sp)
    ensures LargePageBucket(b, sp) <==> !OnSmallPages(b, sp)
  {
    hide BucketToSize, Pow2, Shr;
    EighthOf(sp);
    LargePower(sp);
  }

  /** The buckets below max_bucket are those of which more than eight elements fit a page of 2^lp bytes, headers aside. */
  lemma MaxBucketExactly(b: nat, lp: nat)
    requires lp >= 3
    ensures b < MaxBucket(lp) <==> 8 * BucketToSize(b) < Pow2(lp)
  {
    hide BucketToSize, Pow2;
    EighthOf(lp);
    BucketRange(b);
    if b < MaxBucket(lp) {
      Pow2Mono(b / 4 + 1, lp - 3);
      Pow2Next(b / 4);
    } else {
      Pow2Mono(lp - 3, b / 4);
    }
  }

  lemma LargePower(sp: nat)
    ensures Pow2(sp + 5) == 32 * Pow2(sp)
  {
    Pow2Add(5, sp);
    assert Pow2(5) == 32;
  }

  lemma LeastPage(sp: nat, b: nat)
    requires sp >= 7
    ensures BucketPage(b, sp) >= 128
  {
    hide LargePageBucket;
    Pow2Mono(7, sp);
    LargePower(sp);
    assert Pow2(7) == 128;
  }

  /** A page of any bucket below max_bucket holds at least six elements. */
  lemma SixFit(b: nat, sp: nat)
    requires sp >= 7 && b < MaxBucket(sp + 5)
    ensures AlignUp(PAGE_HEADER, Pow2(b / 4)) <= BucketPage(b, sp)
    ensures Fits(b / 4, BucketToSize(b), BucketPage(b, sp), 6)
  {
    hide BucketToSize, Pow2, BucketPage, AlignUp, UsedSize;
    EighthOfPage(b, sp);
    BucketRange(b);
    LeastPage(sp, b);
    OneBitPow2(b / 4);
    AlignUpLeast(PAGE_HEADER, Pow2(b / 4), 0);
    UsedOne();
    HeaderBounds(b / 4, 6);
  }

  lemma CapacityAtLeastSix(b: nat, sp: nat, n: nat)
    requires sp >= 7 && b < MaxBucket(sp + 5) && Capacity(b / 4, BucketToSize(b), BucketPage(b, sp), n)
    ensures n >= 6
  {
    SixFit(b, sp);
  }

  // ----- Geometry of the pool -----

  /**
    The pool sizes the page allocator is made for: at most 256 large pages, as alloc_init
    asserts, and element counts that fit the 25 bits of elements_used.
   */
  predicate PoolShape(poolsize: nat) {
    poolsize >= MIN_USEFUL_SIZE
    && SmallPageBits(poolsize) <= 25
    && poolsize / Pow2(SmallPageBits(poolsize) + 5) <= MAX_LARGE_PAGES
  }

  lemma SmallPageBounds(poolsize: nat)
    requires poolsize >= MIN_USEFUL_SIZE
    ensures SmallPageBits(poolsize) >= 7
    ensures Pow2(SmallPageBits(poolsize) - 1) <= poolsize / 8192 - 1 < Pow2(SmallPageBits(poolsize))
  {
    var q := poolsize / 8192 - 1;
    IlogBounds(q);
    IlogAtMost(q, 6);
    assert Pow2(6) == 64;
  }

  /** The sizes for which the assert on the page number in alloc_init fails. */
  lemma PageLimitExact(poolsize: nat)
    requires poolsize >= MIN_USEFUL_SIZE
    ensures poolsize / Pow2(SmallPageBits(poolsize) + 5) > MAX_LARGE_PAGES <==> 0x10_1000 <= poolsize < 0x10_2000
  {
    SmallPageBounds(poolsize);
    var sp := SmallPageBits(poolsize);
    if sp == 7 {
      assert Pow2(12) == 4096 && Pow2(7) == 128;
    } else {
      Pow2Mono(7, sp - 1);
      assert Pow2(7) == 128;
      LargePower(sp);
      QuotientAtMost(poolsize, Pow2(sp + 5), 256);
    }
  }

  lemma QuotientAtMost(x: int, p: int, n: int)
    requires p > 0 && x < (n + 1) * p
    ensures x / p <= n
  {
    DivMod(x, p);
    if x / p > n {
      MulMono(n + 1, x / p, p);
    }
  }

  lemma MulBelow(q: int, n: int, p: int, x: int)
    requires p > 0 && q * p <= x <= n * p
    ensures q <= n
  {
    if q > n {
      MulMono(n + 1, q, p);
    }
  }

  /** There are at least 128 large pages. */
  lemma EnoughPages(poolsize: nat)
    requires poolsize >= MIN_USEFUL_SIZE
    ensures poolsize / Pow2(SmallPageBits(poolsize) + 5) >= 128
  {
    SmallPageBounds(poolsize);
    var sp := SmallPageBits(poolsize);
    DivMod(poolsize, Pow2(sp + 5));
    LargePower(sp);
    assert Pow2(sp) == 2 * Pow2(sp - 1);
    if poolsize / Pow2(sp + 5) < 128 {
      MulMono(poolsize / Pow2(sp + 5) + 1, 128, Pow2(sp + 5));
    }
  }

  /** sizeof(struct header) with its array of bucket states. */
  function HeaderSize(numBuckets: nat): nat
    requires numBuckets >= 1
  {
    56 + 8 * (numBuckets - 1)
  }

  /** The number of small pages the pool's header takes. */
  function HeaderPages(spBits: nat): nat {
    Shr(AlignUp(HeaderSize(MaxBucket(spBits + 5)), Pow2(spBits)), spBits)
  }

  lemma {:induction false} HeaderGrowth(sp: nat)
    requires sp >= 7
    ensures 28 + 8 * sp <= Pow2(sp)
  {
    if sp == 7 {
      assert Pow2(7) == 128;
    } else {
      HeaderGrowth(sp - 1);
    }
  }

  /** Aligning up and dividing is dividing with the quotient rounded up. */
  lemma AlignUpQuotient(x: nat, k: nat)
    ensures Shr(AlignUp(x, Pow2(k)), k) == Ceil(x, Pow2(k))
  {
    hide AlignUp, Ceil, Pow2, Shr, OneBit;
    var p := Pow2(k);
    OneBitPow2(k);
    AlignUpLeast(x, p, 0);
    var u := AlignUp(x, p);
    ShrDiv(u, k);
    DivMod(u, p);
    CeilQuotient(x, p, u / p);
    CeilQuotient(x, p, u / p - 1);
    assert (u / p - 1) * p == u / p * p - p;
  }

  /** The header takes at least one small page and at most four. */
  lemma HeaderPagesBounds(sp: nat)
    requires sp >= 7
    ensures 1 <= HeaderPages(sp) <= 4
    ensures HeaderPages(sp) == Ceil(HeaderSize(MaxBucket(sp + 5)), Pow2(sp))
  {
    hide AlignUp, Ceil, Pow2, Shr;
    HeaderGrowth(sp);
    AlignUpQuotient(HeaderSize(MaxBucket(sp + 5)), sp);
    CeilQuotient(HeaderSize(MaxBucket(sp + 5)), Pow2(sp), 4);
    CeilQuotient(HeaderSize(MaxBucket(sp + 5)), Pow2(sp), 0);
  }

  /** For small pages of at most 2^25 bytes the 25-bit element count and the 7-bit bucket number never overflow. */
  lemma FieldsWideEnough(sp: nat, b: nat, n: nat)
    requires 7 <= sp <= 25 && b < MaxBucket(sp + 5) && Capacity(b / 4, BucketToSize(b), BucketPage(b, sp), n)
    ensures n < 0x200_0000 && b < 128
  {
    hide BucketToSize, PageHeaderSize, Shr, UsedSize;
    HeaderBounds(b / 4, n);
    Pow2Mono(sp, 25);
    WideLimit();
    LargePower(sp);
    EighthOf(sp);
    var z := BucketToSize(b);
    if LargePageBucket(b, sp) {
      MulMono(Pow2(sp - 3), z, n);
      MulBelow(n, 256, Pow2(sp - 3), 256 * Pow2(sp - 3));
    } else {
      MulMono(1, z, n);
    }
  }

  lemma WideLimit()
    ensures Pow2(25) == 0x200_0000
  {
    Pow2Add(5, 5);
    Pow2Add(10, 10);
    Pow2Add(20, 5);
    assert Pow2(5) == 32;
  }

  /** The capacities of all buckets. */
  ghost predicate AllCapacities(sp: nat, caps: seq<nat>) {
    |caps| == MaxBucket(sp + 5)
    && forall b :: 0 <= b < |caps| ==> Capacity(b / 4, BucketToSize(b), BucketPage(b, sp), caps[b])
  }

  /** Bucket 0 of a small page of 2^26 bytes or more has 2^25 elements or more. */
  lemma FieldTooNarrow(sp: nat, n: nat)
    requires sp >= 26 && Capacity(0, BucketToSize(0), BucketPage(0, sp), n)
    ensures n >= 0x200_0000
  {
    hide PageHeaderSize, Shr, UsedSize;
    assert BucketToSize(0) == 1;
    WideLimit();
    Pow2Next(25);
    Pow2Mono(26, sp);
    EighthOf(sp);
    Pow2Mono(0, sp - 3);
    HeaderBounds(0, 0x200_0000);
    UsedWords(0x200_0000);
    assert Pow2(0) == 1;
    assert Fits(0, 1, BucketPage(0, sp), 0x200_0000);
  }

  /** The 25 bits of elements_used hold every bucket's count exactly for small pages of at most 2^25 bytes. */
  lemma FieldsExactly(sp: nat, caps: seq<nat>)
    requires sp >= 7 && AllCapacities(sp, caps)
    ensures (forall b :: 0 <= b < |caps| ==> caps[b] < 0x200_0000) <==> sp <= 25
    ensures |caps| <= 128 <==> sp <= 30
  {
    hide Capacity, BucketPage, BucketToSize;
    if sp <= 25 {
      forall b | 0 <= b < |caps| ensures caps[b] < 0x200_0000 {
        FieldsWideEnough(sp, b, caps[b]);
      }
    } else {
      FieldTooNarrow(sp, caps[0]);
    }
  }

  /** The pool size from which the field is too narrow. */
  lemma FieldLimit(poolsize: nat)
    requires poolsize >= MIN_USEFUL_SIZE
    ensures SmallPageBits(poolsize) <= 25 <==> poolsize < 0x40_0000_2000
  {
    IlogAtMost(poolsize / 8192 - 1, 25);
    WideLimit();
  }
}
