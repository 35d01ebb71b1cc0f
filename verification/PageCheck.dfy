/** alloc_check: what the code's own consistency check accepts, for pools without huge allocations. */
module PageCheck {
  import opened Powers
  import opened Bits
  import opened Logs
  import opened Bitmaps
  import opened SizeClasses
  import opened PageSizes
  import opened FreeLists
  import opened PageLists
  import opened PageLayout
  import opened PageSteps

  /** What the check reads: the pool's header and the page headers.  Nothing is known about their contents. */
  datatype Image = Image(poolsize: nat, sp: nat, caps: seq<nat>, large: seq<Word>, ps: seq<Page>, heads: seq<nat>)

  ghost predicate Framed(im: Image) {
    im.sp >= 7 && |im.large| == 4 && |im.caps| == MaxBucket(im.sp + 5) && |im.heads| == 2 + 2 * |im.caps|
    && 64 <= |im.ps| <= 8192 && |im.ps| * Pow2(im.sp) <= im.poolsize < |im.ps| * Pow2(im.sp) + Pow2(im.sp)
  }

  // ----- One page of a list -----

  /** The tests made on page x when it turns up on list k. */
  ghost predicate Passes(im: Image, k: nat, x: int) {
    0 <= x < |im.ps|
    && if k == SMALL_FREE then !IsLarge(im.large, x)
       else if k == LARGE_FREE then IsLarge(im.large, x) && x % 32 == 0 && x + 32 <= |im.ps|
       else BucketOf(k) < |im.caps| && PassesBucket(im, k, BucketOf(k), x)
  }

  /** The full list is not checked for pages of the wrong size, unless they are also misplaced. */
  ghost predicate PassesBucket(im: Image, k: nat, b: nat, x: int)
    requires 0 <= x < |im.ps| && b < |im.caps|
  {
    var pg, cap, lp := im.ps[x], im.caps[b], LargePageBucket(b, im.sp);
    (lp ==> x + 32 <= |im.ps|)
    && (if k % 2 == 0 then IsLarge(im.large, x) == lp && (lp ==> x % 32 == 0)
        else IsLarge(im.large, x) != lp && lp ==> x % 32 == 0)
    && (if k % 2 == 0 then 0 < pg.elementsUsed < cap else pg.elementsUsed == cap)
    && Counted(pg, cap) && pg.bucket == b
  }

  /** out_of_bounds; page numbers have 16 bits, so shifting one up and down loses nothing. */
  predicate OutOfBounds(pgnum: nat, sp: nat, pagesize: nat, poolsize: nat) {
    pgnum * Pow2(sp) > poolsize || pgnum * Pow2(sp) + pagesize > poolsize
  }

  lemma BoundsExactly(im: Image, pgnum: nat)
    requires Framed(im)
    ensures OutOfBounds(pgnum, im.sp, Pow2(im.sp), im.poolsize) <==> pgnum >= |im.ps|
    ensures OutOfBounds(pgnum, im.sp, Pow2(im.sp + 5), im.poolsize) <==> pgnum + 32 > |im.ps|
  {
    hide Pow2, MaxBucket;
    LargePower(im.sp);
    Product(pgnum, |im.ps|, Pow2(im.sp), im.poolsize);
  }

  lemma Product(a: nat, n: nat, p: int, x: int)
    requires p >= 1 && n * p <= x < n * p + p
    ensures a * p + p > x <==> a >= n
    ensures a * p + 32 * p > x <==> a + 32 > n
    ensures a * p > x ==> a > n
  {
    if a >= n {
      MulMono(n, a, p);
    } else {
      MulMono(a + 1, n, p);
    }
    if a + 32 > n {
      MulMono(n + 1, a + 32, p);
    } else {
      MulMono(a + 32, n, p);
    }
    if a <= n {
      MulMono(a, n, p);
    }
  }

  method CheckPage(im: Image, k: nat, i: nat) returns (ok: bool)
    requires Framed(im) && k < |im.heads|
    ensures ok <==> Passes(im, k, i)
  {
    hide TestBit, BitCount, Pow2, BucketToSize, LargePageBucket;
    BoundsExactly(im, i);
    if k == SMALL_FREE {
      if OutOfBounds(i, im.sp, Pow2(im.sp), im.poolsize) {
        return false;
      }
      return !TestBit(im.large, i / 32);
    }
    if k == LARGE_FREE {
      if OutOfBounds(i, im.sp, Pow2(im.sp + BITS_FROM_SMALL_TO_LARGE_PAGE), im.poolsize) {
        return false;
      }
      return TestBit(im.large, i / 32) && i % SMALL_PAGES_PER_LARGE_PAGE == 0;
    }
    ok := CheckBucketPage(im, k, i);
  }

  /** The tests check_bucket makes on one page of the partial list or the full list. */
  method CheckBucketPage(im: Image, k: nat, i: nat) returns (ok: bool)
    requires Framed(im) && 2 <= k < |im.heads|
    ensures ok <==> Passes(im, k, i)
  {
    hide TestBit, BitCount, Pow2, BucketToSize, LargePageBucket;
    BoundsExactly(im, i);
    var bindex := BucketOf(k);
    var lpBucket := LargePageBucket(bindex, im.sp);
    if OutOfBounds(i, im.sp, Pow2(if lpBucket then im.sp + BITS_FROM_SMALL_TO_LARGE_PAGE else im.sp), im.poolsize) {
      return false;
    }
    if k % 2 == 0 {
      if TestBit(im.large, i / 32) != lpBucket {
        return false;
      }
      if lpBucket && i % SMALL_PAGES_PER_LARGE_PAGE != 0 {
        return false;
      }
    } else {
      if TestBit(im.large, i / 32) != lpBucket {
        if lpBucket && i % SMALL_PAGES_PER_LARGE_PAGE != 0 {
          return false;
        }
      }
    }
    ok := CheckCounts(im.ps[i], im.caps[bindex], k % 2 == 0, bindex);
  }

  method CheckCounts(pg: Page, cap: nat, partial: bool, bindex: nat) returns (ok: bool)
    ensures ok <==> (if partial then 0 < pg.elementsUsed < cap else pg.elementsUsed == cap) && Counted(pg, cap) && pg.bucket == bindex
  {
    hide TestBit, BitCount;
    if partial {
      if pg.elementsUsed == 0 || pg.elementsUsed >= cap {
        return false;
      }
    } else if pg.elementsUsed != cap {
      return false;
    }
    // The record may be too short for the bitmap; in memory there is always a word to read.
    if cap > 64 * |pg.used| {
      return false;
    }
    var count := CountBits(pg.used, cap);
    return pg.elementsUsed == count && pg.bucket == bindex;
  }

  // ----- One list -----

  /** A well linked list all of whose pages pass, none of them seen before. */
  ghost predicate GoodList(im: Image, k: nat, c: seq<int>, seen: seq<Word>) {
    k < |im.heads| && |seen| == 128 && |im.ps| <= 8192 && Chain(im.ps, im.heads[k], c)
    && forall x :: x in c ==> Passes(im, k, x) && !Seen(seen, x)
  }

  ghost predicate Seen(seen: seq<Word>, x: int) {
    |seen| == 128 && 0 <= x < 8192 && TestBit(seen, x)
  }

  function NextIn(c: seq<int>, j: int, next: nat): int
    requires 0 <= j < |c|
  {
    if j + 1 < |c| then c[j + 1] else LinkTo(next)
  }

  function LastIn(c: seq<int>): int {
    if c == [] then -1 else c[|c| - 1]
  }

  /** The part of a list that has been walked: its last page points to next. */
  ghost predicate Walked(im: Image, k: nat, c: seq<int>, next: nat) {
    k < |im.heads| && Within(c, |im.ps|) && Distinct(c)
    && LinkTo(im.heads[k]) == (if c == [] then LinkTo(next) else c[0])
    && forall j :: 0 <= j < |c| ==> LinkTo(im.ps[c[j]].prev) == PrevOf(c, j) && LinkTo(im.ps[c[j]].next) == NextIn(c, j, next)
  }

  lemma WalkedNone(im: Image, k: nat)
    requires k < |im.heads|
    ensures Walked(im, k, [], im.heads[k])
  {
  }

  lemma WalkedOne(im: Image, k: nat, c: seq<int>, i: nat)
    requires Walked(im, k, c, i) && 0 < i < |im.ps| && i !in c && LinkTo(im.ps[i].prev) == LastIn(c)
    ensures Walked(im, k, c + [i], im.ps[i].next)
  {
    var d := c + [i];
    forall j | 0 <= j < |d|
      ensures LinkTo(im.ps[d[j]].prev) == PrevOf(d, j) && LinkTo(im.ps[d[j]].next) == NextIn(d, j, im.ps[i].next)
    {
      if j < |c| {
        assert d[j] == c[j];
        assert NextIn(c, j, i) == NextIn(d, j, im.ps[i].next);
      }
    }
  }

  lemma WalkedAll(im: Image, k: nat, c: seq<int>)
    requires Walked(im, k, c, 0)
    ensures Chain(im.ps, im.heads[k], c)
  {
    forall j | 0 <= j < |c|
      ensures Links(im.ps)[c[j]].next == NextOf(c, j) && Links(im.ps)[c[j]].prev == PrevOf(c, j)
    {
      assert LinkTo(im.ps[c[j]].next) == NextIn(c, j, 0);
    }
    hide Links, LinkTo, NextIn;
    assert LinkTo(0) == -1 by { NoLink(); }
  }

  lemma NoLink()
    ensures LinkTo(0) == -1
  {
  }

  lemma ChainAt(ps: seq<Page>, head: nat, d: seq<int>, j: int)
    requires Chain(ps, head, d) && 0 <= j < |d|
    ensures 0 <= d[j] < |ps| && LinkTo(ps[d[j]].next) == NextOf(d, j) && LinkTo(ps[d[j]].prev) == PrevOf(d, j)
  {
  }

  lemma ChainDistinct(ps: seq<Page>, head: nat, d: seq<int>)
    requires Chain(ps, head, d)
    ensures Distinct(d) && LinkTo(head) == Head(d)
  {
  }

  lemma WalkedAt(im: Image, k: nat, c: seq<int>, next: nat)
    requires Walked(im, k, c, next)
    ensures LinkTo(im.heads[k]) == (if c == [] then LinkTo(next) else c[0])
    ensures c != [] ==> 0 <= c[|c| - 1] < |im.ps| && LinkTo(im.ps[c[|c| - 1]].next) == LinkTo(next)
  {
  }

  /** A list that starts with the walked part goes on with the next page. */
  lemma GoesOn(im: Image, k: nat, c: seq<int>, next: nat, d: seq<int>)
    requires Walked(im, k, c, next) && Chain(im.ps, im.heads[k], d) && c <= d
    ensures next == 0 ==> d == c
    ensures next != 0 ==> |c| < |d| && d[|c|] == next && next !in c && c + [next] <= d
    ensures next != 0 ==> 0 < next < |im.ps| && LinkTo(im.ps[next].prev) == LastIn(c)
  {
    WalkedAt(im, k, c, next);
    ChainDistinct(im.ps, im.heads[k], d);
    hide Walked, Chain;
    assert forall j :: 0 <= j < |c| ==> d[j] == c[j];
    if c != [] {
      ChainAt(im.ps, im.heads[k], d, |c| - 1);
    }
    if |c| < |d| {
      ChainAt(im.ps, im.heads[k], d, |c|);
    }
  }

  /** Every good list begins with the walked part. */
  ghost predicate Leads(im: Image, k: nat, c: seq<int>, seen: seq<Word>) {
    forall d :: GoodList(im, k, d, seen) ==> c <= d
  }

  lemma LeadsOn(im: Image, k: nat, c: seq<int>, i: nat, seen: seq<Word>)
    requires Walked(im, k, c, i) && i != 0 && Leads(im, k, c, seen)
    ensures Leads(im, k, c + [i], seen)
  {
    hide Walked, Chain;
    forall d | GoodList(im, k, d, seen) ensures c + [i] <= d {
      GoesOn(im, k, c, i, d);
    }
  }

  /** When one of the tests on page i fails there is no good list. */
  lemma Blocked(im: Image, k: nat, c: seq<int>, i: nat, seen0: seq<Word>)
    requires Walked(im, k, c, i) && i != 0 && Leads(im, k, c, seen0)
    requires !Passes(im, k, i) || LinkTo(im.ps[i].prev) != LastIn(c) || Seen(seen0, i) || i in c
    ensures !exists d :: GoodList(im, k, d, seen0)
  {
    hide Walked, Chain, Passes, Seen;
    forall d ensures !GoodList(im, k, d, seen0) {
      if GoodList(im, k, d, seen0) {
        GoesOn(im, k, c, i, d);
      }
    }
  }

  lemma Finished(im: Image, k: nat, c: seq<int>, seen0: seq<Word>)
    requires Walked(im, k, c, 0) && Leads(im, k, c, seen0) && |seen0| == 128 && |im.ps| <= 8192
    requires forall x :: x in c ==> Passes(im, k, x) && !Seen(seen0, x)
    ensures GoodList(im, k, c, seen0) && forall d :: GoodList(im, k, d, seen0) ==> d == c
  {
    hide Passes, Seen;
    WalkedAll(im, k, c);
    forall d | GoodList(im, k, d, seen0) ensures d == c {
      hide Walked, Chain;
      GoesOn(im, k, c, 0, d);
    }
  }

  lemma SeenSet(seen: seq<Word>, i: nat, x: int)
    requires |seen| == 128 && i < 8192
    ensures Seen(SetBit(seen, i), x) <==> x == i || Seen(seen, x)
  {
    if 0 <= x < 8192 {
      SetBitOnly(seen, i, x);
    }
  }

  lemma SeenCount(seen: seq<Word>, i: nat)
    requires |seen| == 128 && i < 8192 && !Seen(seen, i)
    ensures BitCount(SetBit(seen, i), 8192) == BitCount(seen, 8192) + 1
  {
    hide TestBit, SetBit;
    forall x: nat | x < 8192 ensures TestBit(SetBit(seen, i), x) <==> x == i || TestBit(seen, x) {
      SetBitOnly(seen, i, x);
    }
    BitCountChange(seen, SetBit(seen, i), i, 8192);
  }

  /** One of the four list walks of alloc_check and check_bucket. */
  method CheckList(im: Image, k: nat, seen0: seq<Word>) returns (ok: bool, seen: seq<Word>, ghost c: seq<int>)
    requires Framed(im) && k < |im.heads| && |seen0| == 128
    ensures |seen| == 128
    ensures ok <==> exists d :: GoodList(im, k, d, seen0)
    ensures ok ==> GoodList(im, k, c, seen0) && forall d :: GoodList(im, k, d, seen0) ==> d == c
    ensures ok ==> forall x :: Seen(seen, x) <==> Seen(seen0, x) || x in c
  {
    hide Framed, Walked, Passes, Seen, TestBit, SetBit, BitCount, GoodList, Leads, Chain;
    FramedPages(im);
    seen, c := seen0, [];
    var prev := 0;
    var i := im.heads[k];
    WalkedNone(im, k);
    LeadsNone(im, k, seen0);
    while i != 0
      invariant |seen| == 128 && Walked(im, k, c, i) && Leads(im, k, c, seen0)
      invariant LinkTo(prev) == LastIn(c)
      invariant forall x :: x in c ==> Passes(im, k, x) && !Seen(seen0, x)
      invariant forall x :: Seen(seen, x) <==> Seen(seen0, x) || x in c
      decreases 8192 - BitCount(seen, 8192)
    {
      ok := CheckPage(im, k, i);
      if !ok {
        Blocked(im, k, c, i, seen0);
        return false, seen, c;
      }
      PassesRange(im, k, i);
      if im.ps[i].prev != prev {
        Blocked(im, k, c, i, seen0);
        return false, seen, c;
      }
      SeenIs(seen, i);
      if TestBit(seen, i) {
        Blocked(im, k, c, i, seen0);
        return false, seen, c;
      }
      SeenCount(seen, i);
      forall x ensures Seen(SetBit(seen, i), x) <==> x == i || Seen(seen, x) {
        SeenSet(seen, i, x);
      }
      LeadsOn(im, k, c, i, seen0);
      WalkedOne(im, k, c, i);
      seen := SetBit(seen, i);
      c := c + [i];
      prev := i;
      i := im.ps[i].next;
    }
    Finished(im, k, c, seen0);
    ok := true;
  }

  lemma FramedPages(im: Image)
    requires Framed(im)
    ensures |im.ps| <= 8192 && |im.large| == 4
  {
  }

  lemma LeadsNone(im: Image, k: nat, seen: seq<Word>)
    ensures Leads(im, k, [], seen)
  {
  }

  lemma PassesRange(im: Image, k: nat, i: int)
    requires Passes(im, k, i)
    ensures 0 <= i < |im.ps|
  {
  }

  lemma SeenIs(seen: seq<Word>, i: int)
    requires |seen| == 128 && 0 <= i < 8192
    ensures Seen(seen, i) <==> TestBit(seen, i)
  {
  }

  // ----- The whole check -----

  ghost predicate CapsOk(im: Image, n: nat) {
    n <= |im.caps| && forall b :: 0 <= b < n ==> Capacity(b / 4, BucketToSize(b), BucketPage(b, im.sp), im.caps[b])
  }

  /** A page is in the header, on a list whose tests it passes, or inside a large page. */
  ghost predicate Checked(im: Image, x: int, k: int) {
    -1 <= k < |im.heads|
    && (x < HeaderPages(im.sp) ==> k == -1)
    && (k >= 0 ==> Passes(im, k, x))
    && (k == -1 && x >= HeaderPages(im.sp) ==> IsLarge(im.large, x) && x % 32 != 0)
  }

  ghost predicate Witness(im: Image, lists: seq<seq<int>>, place: seq<int>) {
    Chained(im.ps, im.heads, lists, place) && CapsOk(im, |im.caps|)
    && forall x :: 0 <= x < |place| ==> Checked(im, x, place[x])
  }

  /** What alloc_check accepts. */
  ghost predicate Consistent(im: Image) {
    exists lists, place :: Witness(im, lists, place)
  }

  /** The lists in ls have been walked. */
  ghost predicate Walking(im: Image, ls: seq<seq<int>>, place: seq<int>, seen: seq<Word>) {
    |ls| <= |im.heads| && |place| == |im.ps| <= 8192 && |seen| == 128
    && (forall j :: 0 <= j < |ls| ==> Chain(im.ps, im.heads[j], ls[j]))
    && Listed(ls, place)
    && (forall x :: 0 <= x < |place| ==> -1 <= place[x] < |ls|)
    && (forall x :: 0 <= x < |place| && place[x] >= 0 ==> Passes(im, place[x], x) && x >= HeaderPages(im.sp))
    && (forall x :: Seen(seen, x) <==> 0 <= x < HeaderPages(im.sp) || (0 <= x < |place| && place[x] >= 0))
  }

  /** Nothing else could have been walked. */
  ghost predicate Forced(im: Image, ls: seq<seq<int>>) {
    forall lists, place :: Witness(im, lists, place) ==> ls <= lists
  }

  ghost function Placed(place: seq<int>, c: seq<int>, k: int): (r: seq<int>)
    ensures |r| == |place| && forall x :: 0 <= x < |place| ==> r[x] == if x in c then k else place[x]
  {
    seq(|place|, x requires 0 <= x < |place| => if x in c then k else place[x])
  }

  lemma WalkingOn(im: Image, ls: seq<seq<int>>, place: seq<int>, seen: seq<Word>, c: seq<int>, now: seq<Word>)
    requires Walking(im, ls, place, seen) && |ls| < |im.heads| && GoodList(im, |ls|, c, seen) && |now| == 128
    requires forall x :: Seen(now, x) <==> Seen(seen, x) || x in c
    ensures Walking(im, ls + [c], Placed(place, c, |ls|), now)
  {
    hide Seen, Chain, HeaderPages;
    GoodRange(im, |ls|, c, seen);
    hide Passes;
    var p := Placed(place, c, |ls|);
    ListedMore(ls, place, c);
  }

  lemma GoodRange(im: Image, k: nat, c: seq<int>, seen: seq<Word>)
    requires GoodList(im, k, c, seen)
    ensures forall x :: x in c ==> 0 <= x < |im.ps|
  {
    hide PassesBucket, Chain, Seen, IsLarge;
  }

  lemma ListedMore(ls: seq<seq<int>>, place: seq<int>, c: seq<int>)
    requires Listed(ls, place) && forall x :: x in c ==> 0 <= x < |place| && place[x] == -1
    requires forall x :: 0 <= x < |place| ==> place[x] < |ls|
    ensures Listed(ls + [c], Placed(place, c, |ls|))
  {
    var now, p := ls + [c], Placed(place, c, |ls|);
    forall k, x {:trigger x in now[k]} | 0 <= k < |now| ensures x in now[k] <==> 0 <= x < |p| && p[x] == k {
      if k < |ls| {
        assert x in ls[k] <==> 0 <= x < |place| && place[x] == k;
      }
    }
  }

  /** Walked lists put a page where every witness puts it. */
  lemma SamePlace(ls: seq<seq<int>>, place: seq<int>, lists: seq<seq<int>>, at: seq<int>, x: int)
    requires Listed(ls, place) && Listed(lists, at) && |place| == |at| && ls <= lists && 0 <= x < |place|
    requires -1 <= place[x] < |ls| && -1 <= at[x] < |lists|
    ensures place[x] >= 0 ==> at[x] == place[x]
    ensures |lists| == |ls| ==> at[x] == place[x]
  {
    if place[x] >= 0 {
      assert x in ls[place[x]];
      assert x in lists[place[x]];
    }
    if at[x] >= 0 {
      assert x in lists[at[x]];
      assert at[x] < |ls| ==> x in ls[at[x]];
    }
  }

  lemma WitnessPlace(im: Image, ls: seq<seq<int>>, place: seq<int>, seen: seq<Word>, lists: seq<seq<int>>, at: seq<int>, x: int)
    requires Walking(im, ls, place, seen) && Witness(im, lists, at) && ls <= lists && |ls| == |im.heads| && 0 <= x < |place|
    ensures Checked(im, x, place[x])
  {
    hide Passes, HeaderPages, IsLarge, Chain, CapsOk, Seen, Listed;
    assert Checked(im, x, at[x]);
    SamePlace(ls, place, lists, at, x);
  }

  /** The next list of any witness is good. */
  lemma WitnessGood(im: Image, ls: seq<seq<int>>, place: seq<int>, seen: seq<Word>, lists: seq<seq<int>>, at: seq<int>)
    requires Walking(im, ls, place, seen) && |ls| < |im.heads| && Witness(im, lists, at) && ls <= lists
    ensures |ls| < |lists| && GoodList(im, |ls|, lists[|ls|], seen)
  {
    hide Seen, Chain, HeaderPages, Passes, CapsOk;
    var k := |ls|;
    assert Chain(im.ps, im.heads[k], lists[k]);
    forall x | x in lists[k] ensures Passes(im, k, x) && !Seen(seen, x) {
      assert 0 <= x < |at| && at[x] == k;
      assert Checked(im, x, at[x]);
      SamePlace(ls, place, lists, at, x);
    }
  }

  /** The next list of the pool: lists are walked in the order of their indices. */
  method StepList(im: Image, ghost ls: seq<seq<int>>, ghost place: seq<int>, seen: seq<Word>, k: nat)
    returns (ok: bool, ghost ls1: seq<seq<int>>, ghost place1: seq<int>, seen1: seq<Word>)
    requires Framed(im) && Walking(im, ls, place, seen) && Forced(im, ls) && k == |ls| < |im.heads|
    ensures ok ==> Walking(im, ls1, place1, seen1) && Forced(im, ls1) && |ls1| == |ls| + 1
    ensures !ok ==> !Consistent(im)
  {
    hide Framed, GoodList, Seen, Chain, Passes, HeaderPages, Witness, Listed;
    ghost var c;
    ok, seen1, c := CheckList(im, k, seen);
    ls1, place1 := ls + [c], Placed(place, c, k);
    forall lists, at | Witness(im, lists, at) ensures ok && ls + [c] <= lists {
      WitnessGood(im, ls, place, seen, lists, at);
    }
    if ok {
      WalkingOn(im, ls, place, seen, c, seen1);
    }
  }

  /** The loop that marks the pages of the header. */
  method MarkHeader(im: Image) returns (seen: seq<Word>)
    requires Framed(im)
    ensures |seen| == 128 && forall x :: Seen(seen, x) <==> 0 <= x < HeaderPages(im.sp)
  {
    hide Seen, SetBit, HeaderPages, Pow2, Ceil, Shr;
    HeaderPagesBounds(im.sp);
    var headerSize := HeaderSize(MaxBucket(im.sp + BITS_FROM_SMALL_TO_LARGE_PAGE));
    seen := Zeros(128);
    ghost var t := 0;
    var i := 0;
    UnseenZeros();
    CeilQuotient(headerSize, Pow2(im.sp), 0);
    while i < headerSize
      invariant |seen| == 128 && 0 <= t <= HeaderPages(im.sp) && i == t * Pow2(im.sp)
      invariant i < headerSize <==> t < HeaderPages(im.sp)
      invariant forall x :: Seen(seen, x) <==> 0 <= x < t
      decreases HeaderPages(im.sp) - t
    {
      ShrProduct(t, im.sp);
      forall x ensures Seen(SetBit(seen, t), x) <==> x == t || Seen(seen, x) {
        SeenSet(seen, t, x);
      }
      seen := SetBit(seen, Shr(i, im.sp));
      i := i + Pow2(im.sp);
      t := t + 1;
      CeilQuotient(headerSize, Pow2(im.sp), t);
      NextProduct(t, Pow2(im.sp));
    }
  }

  lemma NextProduct(t: int, p: int)
    ensures (t - 1) * p + p == t * p
  {
  }

  lemma ShrProduct(t: nat, k: nat)
    ensures t * Pow2(k) >= 0 && Shr(t * Pow2(k), k) == t
  {
    MulMono(0, t, Pow2(k));
    ShrDiv(t * Pow2(k), k);
    MulMod(t, Pow2(k));
  }

  lemma UnseenZeros()
    ensures forall x :: !Seen(Zeros(128), x)
  {
    hide Zeros;
    forall x | 0 <= x < 8192 ensures !TestBit(Zeros(128), x) {
      AndZero(Pow2(x % 64));
    }
  }

  lemma WalkingNone(im: Image, seen: seq<Word>)
    requires Framed(im) && |seen| == 128 && forall x :: Seen(seen, x) <==> 0 <= x < HeaderPages(im.sp)
    ensures Walking(im, [], seq(|im.ps|, _ => -1), seen) && Forced(im, [])
  {
    hide Seen, HeaderPages, Witness;
  }

  /** The buckets: whether their page capacities are the maximum, and their two lists. */
  method CheckBuckets(im: Image, ghost ls0: seq<seq<int>>, ghost place0: seq<int>, seen0: seq<Word>)
    returns (ok: bool, ghost ls: seq<seq<int>>, ghost place: seq<int>, seen: seq<Word>)
    requires Framed(im) && Walking(im, ls0, place0, seen0) && Forced(im, ls0) && |ls0| == 2
    ensures ok ==> Walking(im, ls, place, seen) && Forced(im, ls) && |ls| == |im.heads| && CapsOk(im, |im.caps|)
    ensures !ok ==> !Consistent(im)
  {
    hide Walking, Forced, Witness, Capacity, BucketToSize, BucketPage;
    ls, place, seen := ls0, place0, seen0;
    var i := 0;
    while i < |im.caps|
      invariant 0 <= i <= |im.caps| && |ls| == 2 + 2 * i && Walking(im, ls, place, seen) && Forced(im, ls) && CapsOk(im, i)
    {
      ok := CheckCapacity(im, i);
      if !ok {
        NoCapacity(im, i);
        return;
      }
      ok, ls, place, seen := StepList(im, ls, place, seen, PageList(i));
      if !ok {
        return;
      }
      ok, ls, place, seen := StepList(im, ls, place, seen, FullList(i));
      if !ok {
        return;
      }
      i := i + 1;
    }
    ok := true;
  }

  /** Whether the elements fit the page and one more would not. */
  method CheckCapacity(im: Image, bindex: nat) returns (ok: bool)
    requires Framed(im) && bindex < |im.caps|
    ensures ok <==> Capacity(bindex / 4, BucketToSize(bindex), BucketPage(bindex, im.sp), im.caps[bindex])
  {
    hide Capacity, BucketToSize, PageHeaderSize, LargePageBucket, Pow2;
    var n := im.caps[bindex];
    var esize := BucketToSize(bindex);
    var pagesize := if LargePageBucket(bindex, im.sp) then Pow2(im.sp + BITS_FROM_SMALL_TO_LARGE_PAGE) else Pow2(im.sp);
    CapacityTest(bindex / 4, esize, pagesize, n);
    if PageHeaderSize(bindex / INTER_BUCKET_SPACE, n) + esize * n > pagesize {
      return false;
    }
    if PageHeaderSize(bindex / INTER_BUCKET_SPACE, n + 1) + esize * (n + 1) <= pagesize {
      return false;
    }
    return true;
  }

  lemma NoCapacity(im: Image, b: nat)
    requires b < |im.caps| && !Capacity(b / 4, BucketToSize(b), BucketPage(b, im.sp), im.caps[b])
    ensures !Consistent(im)
  {
    hide Capacity, BucketToSize, BucketPage, Chained, Checked;
  }

  /** Whether every page has been seen. */
  method CheckAccounted(im: Image, ghost ls: seq<seq<int>>, ghost place: seq<int>, seen: seq<Word>) returns (ok: bool)
    requires Framed(im) && Walking(im, ls, place, seen) && Forced(im, ls) && |ls| == |im.heads| && CapsOk(im, |im.caps|)
    ensures ok <==> Consistent(im)
  {
    hide Framed, Walking, Forced, CapsOk, TestBit, HeaderPages, Consistent, Checked;
    FramedPages(im);
    WalkingLengths(im, ls, place, seen);
    PoolPages(im);
    var i := 0;
    while i < Shr(im.poolsize, im.sp)
      invariant 0 <= i && forall x :: 0 <= x < i && x < |im.ps| ==> Checked(im, x, place[x])
      invariant i % 32 != 0 ==> !IsLarge(im.large, i)
    {
      WalkedPage(im, ls, place, seen, i);
      if !TestBit(seen, i) {
        Unaccounted(im, ls, place, seen, i);
        return false;
      }
      if TestBit(im.large, i / 32) {
        LargeSkipped(im, ls, place, seen, i);
        i := i + SMALL_PAGES_PER_LARGE_PAGE - 1;
      } else {
        SameGroup(im.large, i, i + 1);
      }
      i := i + 1;
    }
    Accounted(im, ls, place, seen);
    return true;
  }

  lemma PoolPages(im: Image)
    requires Framed(im)
    ensures Shr(im.poolsize, im.sp) == |im.ps|
  {
    hide MaxBucket;
    ShrDiv(im.poolsize, im.sp);
    DivModUnique(im.poolsize, Pow2(im.sp), |im.ps|, im.poolsize - |im.ps| * Pow2(im.sp));
  }

  lemma WalkingLengths(im: Image, ls: seq<seq<int>>, place: seq<int>, seen: seq<Word>)
    requires Walking(im, ls, place, seen)
    ensures |place| == |im.ps| && |seen| == 128
  {
  }

  /** A page that has been seen is in order. */
  lemma WalkedPage(im: Image, ls: seq<seq<int>>, place: seq<int>, seen: seq<Word>, x: int)
    requires Walking(im, ls, place, seen) && |ls| == |im.heads| && 0 <= x < |im.ps|
    ensures TestBit(seen, x) ==> Checked(im, x, place[x])
    ensures !TestBit(seen, x) ==> x >= HeaderPages(im.sp) && place[x] == -1
  {
    hide TestBit, Passes, HeaderPages, IsLarge, Chain, Listed;
    SeenIs(seen, x);
  }

  lemma Unaccounted(im: Image, ls: seq<seq<int>>, place: seq<int>, seen: seq<Word>, x: int)
    requires Walking(im, ls, place, seen) && Forced(im, ls) && |ls| == |im.heads| && 0 <= x < |im.ps|
    requires x >= HeaderPages(im.sp) && place[x] == -1 && (x % 32 != 0 ==> !IsLarge(im.large, x))
    ensures !Consistent(im)
  {
    hide Passes, HeaderPages, IsLarge, Witness, Listed, Chain;
    forall lists, at ensures !Witness(im, lists, at) {
      if Witness(im, lists, at) {
        WitnessPlace(im, ls, place, seen, lists, at, x);
      }
    }
  }

  lemma LargeSkipped(im: Image, ls: seq<seq<int>>, place: seq<int>, seen: seq<Word>, i: int)
    requires Walking(im, ls, place, seen) && |ls| == |im.heads| && 0 <= i < |im.ps| && i % 32 == 0
    requires IsLarge(im.large, i)
    ensures forall x :: i < x < i + 32 && x < |im.ps| ==> Checked(im, x, place[x])
  {
    hide TestBit, Passes, HeaderPages, IsLarge, Chain, Listed, Seen;
    forall x | i < x < i + 32 && x < |im.ps| ensures Checked(im, x, place[x]) {
      SameGroup(im.large, i, x);
      hide Walking;
      WalkedPage(im, ls, place, seen, x);
    }
  }

  lemma Accounted(im: Image, ls: seq<seq<int>>, place: seq<int>, seen: seq<Word>)
    requires Walking(im, ls, place, seen) && |ls| == |im.heads| && CapsOk(im, |im.caps|)
    requires forall x :: 0 <= x < |place| ==> Checked(im, x, place[x])
    ensures Consistent(im)
  {
    hide Checked, CapsOk, Seen, Passes, Chain;
    assert Witness(im, ls, place);
  }

  /** alloc_check. */
  method AllocCheck(im: Image) returns (ok: bool)
    requires Framed(im)
    ensures ok <==> Consistent(im)
  {
    hide Framed, Walking, Forced, Consistent, CapsOk, Seen;
    var seen := MarkHeader(im);
    ghost var ls: seq<seq<int>>, place := [], seq(|im.ps|, _ => -1);
    WalkingNone(im, seen);
    EnoughHeads(im);
    ok, ls, place, seen := StepList(im, ls, place, seen, SMALL_FREE);
    if !ok {
      return;
    }
    ok, ls, place, seen := StepList(im, ls, place, seen, LARGE_FREE);
    if !ok {
      return;
    }
    ok, ls, place, seen := CheckBuckets(im, ls, place, seen);
    if !ok {
      return;
    }
    ok := CheckAccounted(im, ls, place, seen);
  }

  lemma EnoughHeads(im: Image)
    requires Framed(im)
    ensures |im.heads| >= 2
  {
  }

  // ----- The check and the invariant -----

  /** What the invariant asks of a page and alloc_check does not look at. */
  ghost predicate Unchecked(l: Layout, x: int)
    requires 0 <= x < |l.ps| == |l.place|
  {
    (x < HeaderPages(l.sp) ==> !IsLarge(l.large, x))
    && (l.place[x] == SMALL_FREE ==> l.ps[x].elementsUsed == 0)
    && (l.place[x] >= 2 && l.place[x] % 2 == 1 && BucketOf(l.place[x]) < |l.caps| ==>
      LargePageBucket(BucketOf(l.place[x]), l.sp) == IsLarge(l.large, x) && (IsLarge(l.large, x) ==> x % 32 == 0))
  }

  ghost predicate ImageOf(im: Image, l: Layout) {
    im.sp == l.sp && im.caps == l.caps && im.large == l.large && im.ps == l.ps
  }

  lemma PageExactly(l: Layout, im: Image, p: int)
    requires Shape(l) && Framed(im) && ImageOf(im, l) && 0 <= p < |l.ps|
    ensures PageOk(l, p) <==> Checked(im, p, l.place[p]) && Unchecked(l, p)
  {
    hide TestBit, HeaderPages, Capacity, BucketPage, BucketToSize, LargePageBucket, BitCount, MaxBucket;
    HeaderPagesBounds(l.sp);
    if l.place[p] < 0 {
      NoNegative(l, p);
    } else {
      FiledPasses(l, im, p, l.place[p]);
    }
  }

  lemma NoNegative(l: Layout, p: int)
    requires 0 <= p < |l.ps| == |l.place| && l.place[p] < 0
    ensures !Filed(l, p, l.place[p])
  {
  }

  /** On a list: filed rightly exactly when the page passes the tests and the rest of the invariant holds. */
  lemma FiledPasses(l: Layout, im: Image, p: int, k: nat)
    requires Shape(l) && Framed(im) && ImageOf(im, l) && 0 <= p < |l.ps| && l.place[p] == k
    ensures PageStart(l, p) && Filed(l, p, k) ==> k < |im.heads| && Passes(im, k, p)
    ensures k < |im.heads| && Passes(im, k, p) && Unchecked(l, p) ==> (p >= HeaderPages(l.sp) ==> PageStart(l, p)) && Filed(l, p, k)
    ensures PageStart(l, p) && Filed(l, p, k) ==> Unchecked(l, p)
  {
    hide TestBit, HeaderPages, Capacity, BucketPage, BucketToSize, LargePageBucket, BitCount, MaxBucket, IsLarge;
  }

  /** The invariant is what alloc_check accepts, and three things it does not look at. */
  lemma InvariantExactly(l: Layout, im: Image, lists: seq<seq<int>>)
    requires Shape(l) && Framed(im) && ImageOf(im, l) && Chained(im.ps, im.heads, lists, l.place)
    ensures Sound(l, -1) <==> Witness(im, lists, l.place) && forall x :: 0 <= x < |l.ps| ==> Unchecked(l, x)
  {
    hide PageOk, Checked, Unchecked, Chained, Capacity, BucketPage, BucketToSize, MaxBucket;
    forall p | 0 <= p < |l.ps| ensures PageOk(l, p) <==> Checked(im, p, l.place[p]) && Unchecked(l, p) {
      PageExactly(l, im, p);
    }
  }

  // ----- Pages behind the last whole large page -----

  /** Two lists along the same links agree. */
  lemma {:induction false} ChainsAgree(ps: seq<Page>, head: nat, s: seq<int>, t: seq<int>, i: nat)
    requires Chain(ps, head, s) && Chain(ps, head, t) && i <= |s|
    ensures i <= |t| && s[..i] == t[..i]
  {
    hide Chain;
    ChainDistinct(ps, head, s);
    ChainDistinct(ps, head, t);
    if i > 0 {
      ChainsAgree(ps, head, s, t, i - 1);
      ChainAt(ps, head, s, i - 1);
      if i > 1 {
        ChainAt(ps, head, s, i - 2);
        ChainAt(ps, head, t, i - 2);
        assert s[..i - 1][i - 2] == t[..i - 1][i - 2];
      }
      assert s[..i] == s[..i - 1] + [s[i - 1]];
      assert t[..i] == t[..i - 1] + [t[i - 1]];
    }
  }

  lemma ChainUnique(ps: seq<Page>, head: nat, s: seq<int>, t: seq<int>)
    requires Chain(ps, head, s) && Chain(ps, head, t)
    ensures s == t
  {
    hide Chain;
    ChainsAgree(ps, head, s, t, |s|);
    ChainsAgree(ps, head, t, s, |t|);
    assert s == s[..|s|] && t == t[..|t|];
  }

  lemma ChainLonger(ps: seq<Page>, tail: seq<Page>, head: nat, s: seq<int>)
    requires Chain(ps, head, s)
    ensures Chain(ps + tail, head, s)
  {
    forall j | 0 <= j < |s|
      ensures 0 <= s[j] < |ps| && Links(ps + tail)[s[j]].next == NextOf(s, j) && Links(ps + tail)[s[j]].prev == PrevOf(s, j)
    {
      ChainAt(ps, head, s, j);
      assert (ps + tail)[s[j]] == ps[s[j]];
    }
    ChainDistinct(ps, head, s);
  }

  /** A small page behind the pages that the lists can name is never accounted for. */
  lemma TailUnaccounted(im: Image, ps: seq<Page>, tail: seq<Page>, lists: seq<seq<int>>, place: seq<int>)
    requires Framed(im) && im.ps == ps + tail && tail != [] && |ps| % 32 == 0 && |ps| >= 32
    requires Chained(ps, im.heads, lists, place)
    ensures !Consistent(im)
  {
    hide Framed, HeaderPages, Passes, CapsOk, Chain, IsLarge;
    FramedHeader(im);
    var x := |ps|;
    forall ls, at ensures !Witness(im, ls, at) {
      if Witness(im, ls, at) {
        TailListed(im, ps, tail, lists, place, ls, at);
      }
    }
  }

  lemma FramedHeader(im: Image)
    requires Framed(im)
    ensures HeaderPages(im.sp) <= 4
  {
    HeaderPagesBounds(im.sp);
  }

  /** In a consistent image the lists are the ones the links spell, and the first page of the tail is on none of them. */
  lemma TailListed(im: Image, ps: seq<Page>, tail: seq<Page>, lists: seq<seq<int>>, place: seq<int>, ls: seq<seq<int>>, at: seq<int>)
    requires im.ps == ps + tail && tail != [] && Chained(ps, im.heads, lists, place)
    requires Chained(im.ps, im.heads, ls, at)
    ensures |at| > |ps| && (at[|ps|] < 0 || at[|ps|] >= |im.heads|)
  {
    hide Chain;
    var x := |ps|;
    if 0 <= at[x] < |im.heads| {
      var k := at[x];
      assert x !in lists[k];
      assert x in ls[k];
      assert Chain(im.ps, im.heads[k], ls[k]) && Chain(ps, im.heads[k], lists[k]);
      ChainLonger(ps, tail, im.heads[k], lists[k]);
      ChainUnique(im.ps, im.heads[k], lists[k], ls[k]);
    }
  }
}
