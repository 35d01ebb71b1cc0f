/** Where the elements of a page lie, and how alloc_free finds its way back from an offset. */
module PageAddresses {
  import opened Powers
  import opened Bits
  import opened Logs
  import opened SizeClasses
  import opened PageSizes

  /** One element: its page, its place in the page, and the page's bucket. */
  datatype Elem = Elem(page: nat, index: nat, bucket: nat)

  /** (char *)ph + page_header_size(...) + i * bucket_to_size(bucket), as an offset from the pool. */
  function OffsetOf(sp: nat, cap: nat, e: Elem): (r: nat) {
    MulMono(0, e.page, Pow2(sp));
    MulMono(0, e.index, BucketToSize(e.bucket));
    e.page * Pow2(sp) + PageHeaderSize(e.bucket / 4, cap) + e.index * BucketToSize(e.bucket)
  }

  /** An element that a page of its bucket can hold. */
  ghost predicate Holds(sp: nat, cap: nat, e: Elem) {
    sp >= 7 && e.bucket < MaxBucket(sp + 5)
    && Capacity(e.bucket / 4, BucketToSize(e.bucket), BucketPage(e.bucket, sp), cap)
    && e.index < cap
    && (LargePageBucket(e.bucket, sp) ==> e.page % 32 == 0)
  }

  /** An element lies after its page's header and bitmap and ends inside the page. */
  lemma InsidePage(sp: nat, cap: nat, e: Elem)
    requires Holds(sp, cap, e)
    ensures e.page * Pow2(sp) + BITMAP_OFFSET + UsedSize(cap) <= OffsetOf(sp, cap, e)
    ensures OffsetOf(sp, cap, e) + BucketToSize(e.bucket) <= e.page * Pow2(sp) + BucketPage(e.bucket, sp)
  {
    hide PageHeaderSize, BucketToSize, BucketPage, Pow2, UsedSize;
    var z := BucketToSize(e.bucket);
    HeaderBounds(e.bucket / 4, cap);
    MulMono(0, e.index, z);
    MulMono(e.index + 1, cap, z);
    assert (e.index + 1) * z == e.index * z + z;
    assert cap * z == z * cap;
  }

  /** Elements of one page do not overlap. */
  lemma PageApart(sp: nat, cap: nat, e: Elem, f: Elem)
    requires e.page == f.page && e.bucket == f.bucket && e.index < f.index
    ensures OffsetOf(sp, cap, e) + BucketToSize(e.bucket) <= OffsetOf(sp, cap, f)
  {
    hide PageHeaderSize, BucketToSize, Pow2;
    MulMono(e.index + 1, f.index, BucketToSize(e.bucket));
  }

  /** Elements of pages that do not overlap do not overlap. */
  lemma PagesApart(sp: nat, capE: nat, capF: nat, e: Elem, f: Elem)
    requires Holds(sp, capE, e) && Holds(sp, capF, f)
    requires e.page < f.page && (LargePageBucket(e.bucket, sp) ==> e.page + 32 <= f.page)
    ensures OffsetOf(sp, capE, e) + BucketToSize(e.bucket) <= OffsetOf(sp, capF, f)
  {
    hide OffsetOf, BucketToSize, Pow2, UsedSize, LargePageBucket, Capacity, Holds;
    InsidePage(sp, capE, e);
    InsidePage(sp, capF, f);
    LargePower(sp);
    MulMono(e.page + 1, f.page, Pow2(sp));
    if LargePageBucket(e.bucket, sp) {
      MulMono(e.page + 32, f.page, Pow2(sp));
    }
  }

  /** offset >> sp, rounded down to a large page when told so. */
  function PageOf(sp: nat, offset: nat, large: bool): nat {
    if large then AlignDown(Shr(offset, sp), SMALL_PAGES_PER_LARGE_PAGE) else Shr(offset, sp)
  }

  lemma QuotientWithin(x: int, d: int, p: int, n: int)
    requires d > 0 && p * d <= x < (p + n) * d
    ensures p <= x / d < p + n
  {
    DivMod(x, d);
    if x / d < p {
      MulMono(x / d + 1, p, d);
    } else if x / d >= p + n {
      MulMono(p + n, x / d, d);
    }
  }

  lemma ShiftedInto(x: nat, k: nat, p: nat, n: nat)
    requires p * Pow2(k) <= x < (p + n) * Pow2(k)
    ensures p <= Shr(x, k) < p + n
  {
    hide Pow2, Shr;
    ShrDiv(x, k);
    QuotientWithin(x, Pow2(k), p, n);
  }

  lemma DownTo(x: nat, p: nat)
    requires p % 32 == 0 && p <= x < p + 32
    ensures AlignDown(x, 32) == p
  {
    SixtyFour();
    AlignDownGreatest(x, 32, p);
  }

  /** Page number and element number are recovered from the offset, which is never a page start. */
  lemma Recover(sp: nat, cap: nat, e: Elem)
    requires Holds(sp, cap, e)
    ensures var large := LargePageBucket(e.bucket, sp);
            var off := OffsetOf(sp, cap, e);
            PageOf(sp, off, large) == e.page && Shr(off, sp) / 32 == e.page / 32
            && e.page * Pow2(sp) + PageHeaderSize(e.bucket / 4, cap) <= off
            && (off - e.page * Pow2(sp) - PageHeaderSize(e.bucket / 4, cap)) / BucketToSize(e.bucket) == e.index
            && off != e.page * Pow2(sp)
  {
    hide BucketToSize, Pow2, UsedSize, LargePageBucket, PageHeaderSize, AlignDown, Shr, Capacity, MaxBucket;
    var off := OffsetOf(sp, cap, e);
    var z := BucketToSize(e.bucket);
    InsidePage(sp, cap, e);
    LargePower(sp);
    var n := if LargePageBucket(e.bucket, sp) then 32 else 1;
    assert (e.page + n) * Pow2(sp) == e.page * Pow2(sp) + n * Pow2(sp);
    ShiftedInto(off, sp, e.page, n);
    if LargePageBucket(e.bucket, sp) {
      DownTo(Shr(off, sp), e.page);
    }
    MulMod(e.index, z);
    MulMono(0, e.index, z);
  }

  /** An element for a request that is a positive multiple of 2^j lies at a multiple of 2^j. */
  lemma ElementAligned(sp: nat, cap: nat, e: Elem, s: nat, j: nat)
    requires Holds(sp, cap, e) && s >= 1 && Aligned(s, j) && e.bucket == SizeToBucket(s)
    ensures Aligned(OffsetOf(sp, cap, e), j)
  {
    hide BucketToSize, Pow2, UsedSize, LargePageBucket, PageHeaderSize, Capacity, MaxBucket, Aligned, SizeToBucket;
    var z := BucketToSize(e.bucket);
    BucketAligned(s, j);
    HeaderBounds(e.bucket / 4, cap);
    AlignedDown(PageHeaderSize(e.bucket / 4, cap), e.bucket / 4, j);
    ScaledAligned(e.index, z, j);
    PageAligned(sp, e, j);
    SumAligned(e.page * Pow2(sp), PageHeaderSize(e.bucket / 4, cap), j);
    SumAligned(e.page * Pow2(sp) + PageHeaderSize(e.bucket / 4, cap), e.index * z, j);
  }

  lemma PageAligned(sp: nat, e: Elem, j: nat)
    requires sp >= 7 && e.bucket < MaxBucket(sp + 5) && j <= e.bucket / 4
    requires LargePageBucket(e.bucket, sp) ==> e.page % 32 == 0
    ensures Aligned(e.page * Pow2(sp), j)
  {
    hide BucketToSize, Pow2, Aligned, Shr;
    EighthOfPage(e.bucket, sp);
    BucketRange(e.bucket);
    Pow2Mono(j, e.bucket / 4);
    if LargePageBucket(e.bucket, sp) {
      LargePower(sp);
      Pow2Below(j, sp + 5);
      PowerAligned(sp + 5, j);
      ScaledAligned(e.page / 32, Pow2(sp + 5), j);
      assert e.page / 32 * (32 * Pow2(sp)) == e.page * Pow2(sp) by {
        assert e.page == e.page / 32 * 32;
      }
    } else {
      Pow2Below(j, sp);
      PowerAligned(sp, j);
      ScaledAligned(e.page, Pow2(sp), j);
    }
  }

  /** A request for no bytes gets no alignment: of two neighbours in bucket 0 one has an odd offset. */
  lemma ZeroSizeNotAligned(sp: nat, cap: nat, page: nat, i: nat, align: nat)
    requires align % 2 == 0 && align > 0
    ensures OffsetOf(sp, cap, Elem(page, i, 0)) % align != 0 || OffsetOf(sp, cap, Elem(page, i + 1, 0)) % align != 0
  {
    var a := OffsetOf(sp, cap, Elem(page, i, 0));
    assert BucketToSize(0) == 1;
    if a % align == 0 && (a + 1) % align == 0 {
      SumMod(a, align);
    }
  }

  lemma SumMod(a: nat, align: nat)
    requires align > 1 && a % align == 0
    ensures (a + 1) % align == 1
  {
    DivMod(a, align);
    DivModUnique(a + 1, align, a / align, 1);
  }
}
