/** How taking and giving back one element changes the layout and the outstanding pointers. */
module PageElements {
  import opened Powers
  import opened Bits
  import opened Logs
  import opened Bitmaps
  import opened SizeClasses
  import opened PageSizes
  import opened PageAddresses
  import opened PageLists
  import opened PageLayout
  import opened PageSteps

  // ----- Outstanding pointers -----

  /** The layouts have the same live elements, but for element i of page p. */
  ghost predicate LiveBut(l: Layout, m: Layout, p: int, i: int) {
    SamePool(l, m)
    && forall q, j {:trigger Live(l, q, j)} {:trigger Live(m, q, j)} :: q != p || j != i ==>
      (Live(l, q, j) <==> Live(m, q, j)) && (Live(l, q, j) ==> ElemAt(l, q, j) == ElemAt(m, q, j))
  }

  lemma LiveButTrans(l: Layout, m: Layout, n: Layout, p: int, i: int)
    requires LiveBut(l, m, p, i) && LiveBut(m, n, p, i)
    ensures LiveBut(l, n, p, i)
  {
    hide Live;
  }

  /** An element becomes live: its address is new. */
  lemma MatchesGain(l: Layout, n: Layout, out: map<nat, Elem>, p: int, i: int)
    requires Matches(l, out) && LiveBut(l, n, p, i) && !Live(l, p, i) && Live(n, p, i) && Sound(n, -1)
    ensures var e := ElemAt(n, p, i);
            Where(n.sp, n.caps, e) !in out && Matches(n, out[Where(n.sp, n.caps, e) := e])
  {
    hide Live, Sound, OffsetOf, BucketToSize;
    var e := ElemAt(n, p, i);
    var off := Where(n.sp, n.caps, e);
    if off in out {
      var f := out[off];
      assert Live(l, f.page, f.index);
      assert Live(n, f.page, f.index);
      Distinct(n, p, i, f.page, f.index);
      assert false;
    }
    var now := out[off := e];
    forall x | x in now
      ensures Live(n, now[x].page, now[x].index) && ElemAt(n, now[x].page, now[x].index) == now[x]
        && Where(n.sp, n.caps, now[x]) == x
    {
      if x != off {
        assert Live(l, out[x].page, out[x].index);
        assert Live(n, out[x].page, out[x].index);
      } else {
        ElemIs(n, p, i);
      }
    }
    forall q, j {:trigger Live(n, q, j)} | Live(n, q, j)
      ensures Where(n.sp, n.caps, ElemAt(n, q, j)) in now && now[Where(n.sp, n.caps, ElemAt(n, q, j))] == ElemAt(n, q, j)
    {
      if q != p || j != i {
        assert Live(l, q, j);
      }
    }
  }

  lemma ElemIs(l: Layout, p: int, i: int)
    requires Live(l, p, i)
    ensures ElemAt(l, p, i).page == p && ElemAt(l, p, i).index == i
  {
  }

  /** Different live elements have different addresses. */
  lemma Distinct(l: Layout, p: int, i: int, q: int, j: int)
    requires Sound(l, -1) && Live(l, p, i) && Live(l, q, j) && (p != q || i != j)
    ensures Where(l.sp, l.caps, ElemAt(l, p, i)) != Where(l.sp, l.caps, ElemAt(l, q, j))
  {
    hide Live, Sound, OffsetOf, BucketToSize;
    if p < q || (p == q && i < j) {
      LiveApart(l, -1, p, i, q, j);
    } else {
      LiveApart(l, -1, q, j, p, i);
    }
  }

  /** An element stops being live. */
  lemma MatchesLoss(l: Layout, n: Layout, out: map<nat, Elem>, p: int, i: int)
    requires Matches(l, out) && LiveBut(l, n, p, i) && Live(l, p, i) && !Live(n, p, i) && Sound(l, -1)
    ensures Matches(n, out - {Where(l.sp, l.caps, ElemAt(l, p, i))})
  {
    hide Live, Sound, OffsetOf, BucketToSize;
    var off := Where(l.sp, l.caps, ElemAt(l, p, i));
    var now := out - {off};
    forall x | x in now
      ensures Live(n, now[x].page, now[x].index) && ElemAt(n, now[x].page, now[x].index) == now[x]
        && Where(n.sp, n.caps, now[x]) == x
    {
      assert Live(l, out[x].page, out[x].index);
      assert out[x].page != p || out[x].index != i;
    }
    forall q, j {:trigger Live(n, q, j)} | Live(n, q, j)
      ensures Where(n.sp, n.caps, ElemAt(n, q, j)) in now && now[Where(n.sp, n.caps, ElemAt(n, q, j))] == ElemAt(n, q, j)
    {
      assert Live(l, q, j);
      Distinct(l, p, i, q, j);
    }
  }

  lemma MatchesSame(l: Layout, n: Layout, out: map<nat, Elem>)
    requires Matches(l, out) && LiveBut(l, n, -1, -1)
    ensures Matches(n, out)
  {
    hide OffsetOf, BucketToSize, TestBit;
    forall x | x in out
      ensures Live(n, out[x].page, out[x].index) && ElemAt(n, out[x].page, out[x].index) == out[x]
    {
      assert Live(l, out[x].page, out[x].index);
    }
    forall q, j {:trigger Live(n, q, j)} | Live(n, q, j)
      ensures Where(n.sp, n.caps, ElemAt(n, q, j)) in out && out[Where(n.sp, n.caps, ElemAt(n, q, j))] == ElemAt(n, q, j)
    {
      assert Live(l, q, j);
    }
  }

  /** Moving a page between lists of its bucket changes no element. */
  lemma LiveMoved(l: Layout, m: Layout, p: int, k: int)
    requires Relisted(l, m, p, k) && l.place[p] >= 2 && k >= 2 && BucketOf(k) == BucketOf(l.place[p])
    ensures forall a, b :: LiveBut(l, m, a, b)
  {
    hide TestBit;
    forall q, j ensures (Live(l, q, j) <==> Live(m, q, j)) && (Live(l, q, j) ==> ElemAt(l, q, j) == ElemAt(m, q, j)) {
      if 0 <= q < |l.ps| {
        assert SameBody(l.ps[q], m.ps[q]);
      }
    }
  }

  /** So does putting a page without live elements on a list. */
  lemma LiveIdle(l: Layout, m: Layout, p: int, k: int)
    requires Relisted(l, m, p, k)
    requires forall j :: !Live(l, p, j) && !Live(m, p, j)
    ensures forall a, b :: LiveBut(l, m, a, b)
  {
    hide TestBit;
    forall q, j ensures (Live(l, q, j) <==> Live(m, q, j)) && (Live(l, q, j) ==> ElemAt(l, q, j) == ElemAt(m, q, j)) {
      if 0 <= q < |l.ps| && q != p {
        assert SameBody(l.ps[q], m.ps[q]);
      }
    }
  }

  /** A change to one bit of a page's bitmap. */
  lemma LiveBit(l: Layout, m: Layout, p: int, i: int)
    requires SamePool(l, m) && m.place == l.place && 0 <= p < |l.ps| && m.ps == l.ps[p := m.ps[p]]
    requires |m.ps[p].used| == |l.ps[p].used|
    requires forall j :: 0 <= j < 64 * |l.ps[p].used| && j != i ==> (TestBit(m.ps[p].used, j) <==> TestBit(l.ps[p].used, j))
    ensures LiveBut(l, m, p, i)
  {
    hide TestBit;
  }

  // ----- Taking an element -----

  /** Page p of bucket b is on the partial list and has a free element. */
  ghost predicate Ready(l: Layout, b: nat, p: int) {
    OkBut(l, p) && PageStart(l, p) && l.place[p] == PageList(b) && InBucket(l, p, b) && l.ps[p].elementsUsed < l.caps[b]
  }

  lemma FirstReady(l: Layout, b: nat, p: int)
    requires Sound(l, -1) && 0 <= p < |l.ps| && l.place[p] == PageList(b)
    ensures Ready(l, b, p)
  {
    hide TestBit, Capacity, BucketPage, BucketToSize, MaxBucket, HeaderPages, LargePageBucket;
    assert PageOk(l, p);
  }

  lemma FreeBitExists(l: Layout, b: nat, p: int)
    requires Ready(l, b, p)
    ensures exists k: nat :: k < l.caps[b] <= 64 * |l.ps[p].used| && !TestBit(l.ps[p].used, k)
  {
    hide TestBit, OkBut, PageStart;
    BitCountAll(l.ps[p].used, l.caps[b]);
  }

  function TakeBit(pg: Page, i: nat): Page
    requires i < 64 * |pg.used|
  {
    pg.(used := SetBit(pg.used, i), elementsUsed := pg.elementsUsed + 1)
  }

  function GiveBit(pg: Page, i: nat): Page
    requires i < 64 * |pg.used| && pg.elementsUsed > 0
  {
    pg.(used := ClearBit(pg.used, i), elementsUsed := pg.elementsUsed - 1)
  }

  lemma TakeCounted(pg: Page, cap: nat, i: nat)
    requires Counted(pg, cap) && i < cap && !TestBit(pg.used, i)
    ensures Counted(TakeBit(pg, i), cap) && TestBit(TakeBit(pg, i).used, i)
    ensures forall j :: 0 <= j < 64 * |pg.used| && j != i ==> (TestBit(TakeBit(pg, i).used, j) <==> TestBit(pg.used, j))
  {
    hide TestBit, SetBit;
    var used := SetBit(pg.used, i);
    forall j: nat | j < 64 * |pg.used| ensures TestBit(used, j) <==> j == i || TestBit(pg.used, j) {
      SetBitOnly(pg.used, i, j);
    }
    BitCountChange(pg.used, used, i, cap);
  }

  lemma GiveCounted(pg: Page, cap: nat, i: nat)
    requires Counted(pg, cap) && i < cap && TestBit(pg.used, i)
    ensures pg.elementsUsed > 0 && Counted(GiveBit(pg, i), cap) && !TestBit(GiveBit(pg, i).used, i)
    ensures forall j :: 0 <= j < 64 * |pg.used| && j != i ==> (TestBit(GiveBit(pg, i).used, j) <==> TestBit(pg.used, j))
  {
    hide TestBit, ClearBit;
    var used := ClearBit(pg.used, i);
    forall j: nat | j < 64 * |pg.used| ensures TestBit(used, j) <==> j != i && TestBit(pg.used, j) {
      ClearBitOnly(pg.used, i, j);
    }
    BitCountChange(used, pg.used, i, cap);
  }

  lemma BodyAgree(l: Layout, m: Layout, p: int)
    requires Shape(l) && 0 <= p < |l.ps| == |m.ps| && m == l.(ps := l.ps[p := m.ps[p]])
    ensures AgreeBut(l, m, p)
  {
    hide IsLarge, Capacity, BucketPage, BucketToSize, MaxBucket;
  }

  /** The header after a bit has been set. */
  lemma ElementTaken(l: Layout, m: Layout, b: nat, p: int, i: nat)
    requires Ready(l, b, p) && i < l.caps[b] <= 64 * |l.ps[p].used| && !TestBit(l.ps[p].used, i)
    requires m == l.(ps := l.ps[p := TakeBit(l.ps[p], i)])
    ensures OkBut(m, p) && PageStart(m, p) && InBucket(m, p, b) && 0 < m.ps[p].elementsUsed <= m.caps[b]
    ensures LiveBut(l, m, p, i) && !Live(l, p, i) && Live(m, p, i) && ElemAt(m, p, i) == Elem(p, i, b)
    ensures m.ps[p].elementsUsed < m.caps[b] ==> Sound(m, -1)
  {
    hide TestBit, PageStart, IsLarge, SetBit, BitCount, Capacity, BucketPage, BucketToSize, MaxBucket, LargePageBucket;
    TakeCounted(l.ps[p], l.caps[b], i);
    BodyAgree(l, m, p);
    OkButStep(l, m, p);
    LiveBit(l, m, p, i);
    BucketOfLists(b);
    if m.ps[p].elementsUsed < m.caps[b] {
      PutOnOk(m, p);
      hide PageOk;
    }
  }

  lemma BucketOfLists(b: nat)
    ensures BucketOf(PageList(b)) == b && BucketOf(FullList(b)) == b && PageList(b) % 2 == 0 && FullList(b) % 2 == 1
  {
  }

  /** Filling the last free element sends the page to the full list. */
  lemma ElementFiled(l: Layout, m: Layout, b: nat, p: int, k: nat)
    requires OkBut(l, p) && PageStart(l, p) && l.place[p] == PageList(b) && InBucket(l, p, b)
    requires Relisted(l, m, p, k)
    requires if k == FullList(b) then l.ps[p].elementsUsed == l.caps[b] else k == PageList(b) && 0 < l.ps[p].elementsUsed < l.caps[b]
    ensures Sound(m, -1) && forall a, b :: LiveBut(l, m, a, b)
  {
    hide OkBut, PageStart, InBucket, SameBodies;
    BucketOfLists(b);
    PutOn(l, m, p, k);
    LiveMoved(l, m, p, k);
  }

  lemma ZeroBits(n: nat, i: nat)
    requires i < 64 * n
    ensures !TestBit(Zeros(n), i)
  {
    AndZero(Pow2(i % 64));
  }

  /** The header alloc_get writes into a page it has just got. */
  function NewHeader(pg: Page, b: nat, cap: nat): Page {
    Page(0, pg.prev, 0, b, Zeros(UsedSize(cap) / 8))
  }

  lemma NewCounted(pg: Page, b: nat, cap: nat)
    ensures Counted(NewHeader(pg, b, cap), cap)
    ensures forall j :: 0 <= j < 64 * |NewHeader(pg, b, cap).used| ==> !TestBit(NewHeader(pg, b, cap).used, j)
  {
    hide TestBit, Zeros;
    UsedWords(cap);
    var n := UsedSize(cap) / 8;
    assert |Zeros(n)| == n;
    forall j | 0 <= j < 64 * n ensures !TestBit(Zeros(n), j) {
      ZeroBits(n, j);
    }
    BitCountAll(Zeros(n), cap);
  }

  /** A new page is ready to serve, and holds no live element yet. */
  lemma FreshReady(l: Layout, m: Layout, b: nat, p: int)
    requires Sound(l, p) && Held(l, p) && b < |l.caps| && IsLarge(l.large, p) == LargePageBucket(b, l.sp) && l.ps[p].prev == 0
    requires m == l.(ps := l.ps[p := NewHeader(l.ps[p], b, l.caps[b])], place := l.place[p := PageList(b)])
    ensures Ready(m, b, p) && LiveBut(l, m, -1, -1) && DataHeld(l, m)
  {
    hide IsLarge, Capacity, BucketPage, BucketToSize, MaxBucket, LargePageBucket, HeaderPages, TestBit, BitCount, NewHeader;
    NewCounted(l.ps[p], b, l.caps[b]);
    CapAtLeastSix(l, b);
    HeaderFields(l.ps[p], b, l.caps[b]);
    BucketOfLists(b);
    OkButStep(l, m, p);
    FreshLive(l, m, b, p);
  }

  lemma HeaderFields(pg: Page, b: nat, cap: nat)
    ensures NewHeader(pg, b, cap).bucket == b && NewHeader(pg, b, cap).elementsUsed == 0
  {
  }

  lemma FreshLive(l: Layout, m: Layout, b: nat, p: int)
    requires Held(l, p) && b < |l.caps|
    requires m == l.(ps := l.ps[p := NewHeader(l.ps[p], b, l.caps[b])], place := l.place[p := PageList(b)])
    ensures LiveBut(l, m, -1, -1)
  {
    hide NewHeader, TestBit, IsLarge, PageStart;
    InRange(l, p);
    NewCounted(l.ps[p], b, l.caps[b]);
    forall q, j ensures (Live(l, q, j) <==> Live(m, q, j)) && (Live(l, q, j) ==> ElemAt(l, q, j) == ElemAt(m, q, j)) {
    }
  }

  lemma InRange(l: Layout, p: int)
    requires Held(l, p)
    ensures 0 <= p < |l.ps|
  {
  }

  // ----- Client data in the later small pages of a large page -----

  /** Slot q lies inside a large page that holds elements. */
  ghost predicate Inner(l: Layout, q: int) {
    0 <= q < |l.ps| == |l.place| && l.place[q] == -1 && IsLarge(l.large, q) && l.place[q - q % 32] >= 2
  }

  /** What clients may have written there stays. */
  ghost predicate DataHeld(l: Layout, m: Layout) {
    |m.ps| == |l.ps| && forall q :: 0 <= q < |l.ps| && Inner(l, q) ==> Inner(m, q) && m.ps[q] == l.ps[q]
  }

  lemma DataHeldTrans(l: Layout, m: Layout, n: Layout)
    requires DataHeld(l, m) && DataHeld(m, n)
    ensures DataHeld(l, n)
  {
    hide Inner;
  }

  lemma KeptData(l: Layout, m: Layout)
    requires Kept(l, m)
    ensures DataHeld(l, m)
  {
    hide IsLarge;
    forall q | 0 <= q < |l.ps| && Inner(l, q) ensures Inner(m, q) && m.ps[q] == l.ps[q] {
      assert InUse(l, q) && InUse(l, q - q % 32);
    }
  }

  /** Pages that are on no list do not notice what happens to page p. */
  ghost predicate Quiet(l: Layout, m: Layout, p: int) {
    SamePool(l, m) && m.large == l.large && |l.ps| == |l.place|
    && forall q :: 0 <= q < |l.ps| && q != p ==> m.place[q] == l.place[q] && (l.place[q] == -1 ==> m.ps[q] == l.ps[q])
  }

  lemma QuietSelf(l: Layout, p: int)
    ensures |l.ps| == |l.place| ==> Quiet(l, l, p)
  {
  }

  lemma QuietTrans(l: Layout, m: Layout, n: Layout, p: int)
    requires Quiet(l, m, p) && Quiet(m, n, p)
    ensures Quiet(l, n, p)
  {
  }

  lemma QuietData(l: Layout, m: Layout, p: int)
    requires Quiet(l, m, p) && 0 <= p < |l.ps| && l.place[p] >= 2
    ensures m.place[p] >= 2 ==> DataHeld(l, m)
    ensures m.place[p] >= 0 ==> DataHeld(m, l)
  {
    hide IsLarge;
  }

  /** From the ready page to the page with one more element, filed on the right list. */
  lemma TakenDone(l: Layout, m: Layout, n: Layout, b: nat, p: int, i: nat, out: map<nat, Elem>)
    requires Ready(l, b, p) && i < l.caps[b] <= 64 * |l.ps[p].used| && !TestBit(l.ps[p].used, i)
    requires m == l.(ps := l.ps[p := TakeBit(l.ps[p], i)])
    requires if m.ps[p].elementsUsed == m.caps[b] then Relisted(m, n, p, FullList(b)) && Quiet(m, n, p) else n == m
    requires Matches(l, out)
    ensures var e := Elem(p, i, b);
            Sound(n, -1) && DataHeld(l, n) && Where(l.sp, l.caps, e) !in out && Matches(n, out[Where(l.sp, l.caps, e) := e])
    ensures |n.ps| == |l.ps| && n.ps[p].bucket == b
  {
    TakenBucket(l, m, n, b, p, i);
    hide Matches, DataHeld, Live, LiveBut, OkBut, PageStart, TestBit, InBucket, Sound, TakeBit, Shape, SameBodies;
    ReadyPlace(l, b, p);
    ElementTaken(l, m, b, p, i);
    TakenQuiet(l, m, p);
    var k := if m.ps[p].elementsUsed == m.caps[b] then FullList(b) else PageList(b);
    if m.ps[p].elementsUsed == m.caps[b] {
      ElementFiled(m, n, b, p, k);
      LiveButTrans(l, m, n, p, i);
      LiveMovedAt(m, n, p, i, FullList(b), b);
      QuietTrans(l, m, n, p);
    }
    QuietData(l, n, p);
    MatchesGain(l, n, out, p, i);
  }

  /** The elements of page p before i are outstanding. */
  ghost predicate LowerOut(l: Layout, out: map<nat, Elem>, p: nat, i: nat, b: nat) {
    forall j: nat :: j < i ==>
      Where(l.sp, l.caps, Elem(p, j, b)) in out && out[Where(l.sp, l.caps, Elem(p, j, b))] == Elem(p, j, b)
  }

  lemma LowerTaken(l: Layout, b: nat, p: nat, i: nat, out: map<nat, Elem>)
    requires Ready(l, b, p) && Matches(l, out) && i < l.caps[b] <= 64 * |l.ps[p].used|
    requires forall j: nat :: j < i ==> TestBit(l.ps[p].used, j)
    ensures LowerOut(l, out, p, i, b)
  {
    hide TestBit, OffsetOf, OkBut, PageStart;
    ReadyPlace(l, b, p);
    BucketOfLists(b);
    forall j: nat | j < i
      ensures Where(l.sp, l.caps, Elem(p, j, b)) in out && out[Where(l.sp, l.caps, Elem(p, j, b))] == Elem(p, j, b)
    {
      assert Live(l, p, j) && ElemAt(l, p, j) == Elem(p, j, b);
    }
  }

  lemma ReadyPlace(l: Layout, b: nat, p: int)
    requires Ready(l, b, p)
    ensures 0 <= p < |l.ps| == |l.place| && l.place[p] == PageList(b) >= 2 && b < |l.caps|
  {
  }

  lemma TakenBucket(l: Layout, m: Layout, n: Layout, b: nat, p: int, i: nat)
    requires 0 <= p < |l.ps| && InBucket(l, p, b) && i < 64 * |l.ps[p].used| && m == l.(ps := l.ps[p := TakeBit(l.ps[p], i)])
    requires n == m || SameBodies(m.ps, n.ps)
    ensures |n.ps| == |l.ps| && n.ps[p].bucket == b
  {
    hide SetBit, Counted, LargePageBucket, IsLarge;
    assert n == m || SameBody(m.ps[p], n.ps[p]);
  }

  lemma TakenQuiet(l: Layout, m: Layout, p: int)
    requires 0 <= p < |l.ps| == |l.place| && |m.ps| == |l.ps| && m == l.(ps := l.ps[p := m.ps[p]])
    ensures Quiet(l, m, p)
  {
  }

  lemma LiveMovedAt(m: Layout, n: Layout, p: int, i: int, k: nat, b: nat)
    requires Live(m, p, i) && Relisted(m, n, p, k) && m.place[p] >= 2 && BucketOf(m.place[p]) == b && k == FullList(b)
    ensures Live(n, p, i) && ElemAt(n, p, i) == Elem(p, i, b)
  {
    hide TestBit;
    BucketOfLists(b);
    assert SameBody(m.ps[p], n.ps[p]);
  }

  // ----- Giving an element back -----

  lemma ReleaseStart(l: Layout, p: int, i: int)
    requires Sound(l, -1) && Live(l, p, i)
    ensures var b := BucketOf(l.place[p]);
            OkBut(l, p) && PageStart(l, p) && InBucket(l, p, b) && 0 < l.ps[p].elementsUsed <= l.caps[b]
            && l.place[p] == if l.ps[p].elementsUsed == l.caps[b] then FullList(b) else PageList(b)
  {
    hide TestBit, Capacity, BucketPage, BucketToSize, MaxBucket, HeaderPages, LargePageBucket;
    assert PageOk(l, p);
    CapAtLeastSix(l, BucketOf(l.place[p]));
  }

  /** Page p of bucket b has come to the partial list with at least one element in use. */
  ghost predicate Giving(l: Layout, b: nat, p: int) {
    OkBut(l, p) && PageStart(l, p) && l.place[p] == PageList(b) && InBucket(l, p, b)
  }

  lemma MovedGiving(l: Layout, m: Layout, b: nat, p: int)
    requires OkBut(l, p) && PageStart(l, p) && l.place[p] == FullList(b) && InBucket(l, p, b) && Relisted(l, m, p, PageList(b))
    ensures Giving(m, b, p) && forall a, c :: LiveBut(l, m, a, c)
  {
    hide IsLarge, Capacity, BucketPage, BucketToSize, MaxBucket, LargePageBucket, HeaderPages, TestBit, BitCount;
    BucketOfLists(b);
    RelistedAgree(l, m, p, PageList(b));
    OkButStep(l, m, p);
    LiveMoved(l, m, p, PageList(b));
    assert SameBody(l.ps[p], m.ps[p]);
  }

  lemma ElementGiven(l: Layout, m: Layout, b: nat, p: int, i: nat)
    requires Giving(l, b, p) && i < l.caps[b] && TestBit(l.ps[p].used, i)
    requires l.ps[p].elementsUsed > 0 && m == l.(ps := l.ps[p := GiveBit(l.ps[p], i)])
    ensures Giving(m, b, p) && m.ps[p].elementsUsed < m.caps[b]
    ensures LiveBut(l, m, p, i) && Live(l, p, i) && !Live(m, p, i)
    ensures m.ps[p].elementsUsed > 0 ==> Sound(m, -1)
    ensures m.ps[p].elementsUsed == 0 ==> forall j :: !Live(m, p, j)
  {
    hide TestBit, PageStart, IsLarge, ClearBit, BitCount, Capacity, BucketPage, BucketToSize, MaxBucket, LargePageBucket;
    GiveCounted(l.ps[p], l.caps[b], i);
    BodyAgree(l, m, p);
    OkButStep(l, m, p);
    LiveBit(l, m, p, i);
    BucketOfLists(b);
    BitCountAll(m.ps[p].used, m.caps[b]);
    if m.ps[p].elementsUsed > 0 {
      PutOnOk(m, p);
      hide PageOk;
    }
  }

  /** A page whose last element has gone goes on the free list of its size. */
  lemma PageFreed(l: Layout, m: Layout, b: nat, p: int, k: nat)
    requires Giving(l, b, p) && l.ps[p].elementsUsed == 0 && (forall j :: !Live(l, p, j))
    requires Relisted(l, m, p, k) && k == if IsLarge(l.large, p) then LARGE_FREE else SMALL_FREE
    ensures Sound(m, -1) && forall a, c :: LiveBut(l, m, a, c)
  {
    hide PageStart, IsLarge, InBucket, OkBut, SameBodies, TestBit;
    PutOn(l, m, p, k);
    LiveIdle(l, m, p, k);
  }

  /** From the page with the element in use to the page without it, filed on the right list. */
  lemma GivenDone(l: Layout, l1: Layout, m: Layout, n: Layout, b: nat, p: int, i: nat, out: map<nat, Elem>)
    requires Sound(l, -1) && Live(l, p, i) && b == BucketOf(l.place[p]) && b < |l.caps| && Matches(l, out)
    requires if l.ps[p].elementsUsed == l.caps[b] then Relisted(l, l1, p, PageList(b)) && Quiet(l, l1, p) else l1 == l
    requires i < 64 * |l1.ps[p].used| && l1.ps[p].elementsUsed > 0 && m == l1.(ps := l1.ps[p := GiveBit(l1.ps[p], i)])
    requires if m.ps[p].elementsUsed > 0 then n == m
      else Relisted(m, n, p, if IsLarge(l.large, p) then LARGE_FREE else SMALL_FREE) && Quiet(m, n, p)
    ensures Sound(n, -1) && DataHeld(n, l) && Matches(n, out - {Where(l.sp, l.caps, Elem(p, i, b))})
  {
    hide Matches, DataHeld, Live, LiveBut, OkBut, PageStart, TestBit, InBucket, GiveBit, Shape, SameBodies, Sound, Quiet;
    ReleaseStart(l, p, i);
    LiveRange(l, p, i);
    StartGiving(l, l1, b, p, i);
    QuietSelf(l, p);
    ElementGiven(l1, m, b, p, i);
    LiveButTrans(l, l1, m, p, i);
    TakenQuiet(l1, m, p);
    QuietTrans(l, l1, m, p);
    if m.ps[p].elementsUsed == 0 {
      PageFreed(m, n, b, p, if IsLarge(l.large, p) then LARGE_FREE else SMALL_FREE);
      LiveButTrans(l, m, n, p, i);
      QuietTrans(l, m, n, p);
      NotLiveFree(n, p, i);
    }
    NewPlace(l, l1, m, n, b, p);
    QuietData(l, n, p);
    MatchesLoss(l, n, out, p, i);
  }

  lemma NewPlace(l: Layout, l1: Layout, m: Layout, n: Layout, b: nat, p: int)
    requires 0 <= p < |l.ps| == |l.place|
    requires l1 == l || Relisted(l, l1, p, PageList(b))
    requires |m.ps| == |l1.ps| && m == l1.(ps := l1.ps[p := m.ps[p]]) && l.place[p] >= 2
    requires n == m || exists k :: 0 <= k <= 1 && Relisted(m, n, p, k)
    ensures |n.place| == |l.place| && n.place[p] >= 0
  {
    hide SameBodies;
  }

  lemma NotLiveFree(n: Layout, p: int, i: int)
    ensures 0 <= p < |n.place| && n.place[p] < 2 ==> !Live(n, p, i)
  {
  }

  lemma LiveRange(l: Layout, p: int, i: int)
    requires Live(l, p, i)
    ensures 0 <= p < |l.ps| == |l.place| && l.place[p] >= 2 && 0 <= i < l.caps[BucketOf(l.place[p])] <= 64 * |l.ps[p].used|
    ensures TestBit(l.ps[p].used, i) && ElemAt(l, p, i) == Elem(p, i, BucketOf(l.place[p])) && BucketOf(l.place[p]) < |l.caps|
  {
    hide TestBit;
  }

  lemma StartGiving(l: Layout, l1: Layout, b: nat, p: int, i: nat)
    requires Sound(l, -1) && Live(l, p, i) && b == BucketOf(l.place[p]) && b < |l.caps|
    requires if l.ps[p].elementsUsed == l.caps[b] then Relisted(l, l1, p, PageList(b)) else l1 == l
    ensures Giving(l1, b, p) && LiveBut(l, l1, p, i) && i < l1.caps[b] && i < 64 * |l1.ps[p].used| && TestBit(l1.ps[p].used, i)
    ensures |l1.ps| == |l.ps| && l1.large == l.large
  {
    hide TestBit, LiveBut, OkBut, PageStart, Sound, InBucket;
    ReleaseStart(l, p, i);
    LiveRange(l, p, i);
    BucketOfLists(b);
    if l.ps[p].elementsUsed == l.caps[b] {
      MovedGiving(l, l1, b, p);
      assert SameBody(l.ps[p], l1.ps[p]);
    } else {
      LiveButSelf(l, p, i);
    }
  }

  lemma LiveButSelf(l: Layout, p: int, i: int)
    ensures LiveBut(l, l, p, i)
  {
    hide Live;
  }

  // ----- What an outstanding pointer tells -----

  lemma OutHolds(l: Layout, out: map<nat, Elem>, off: nat)
    requires Sound(l, -1) && Matches(l, out) && off in out
    ensures var e := out[off];
            Live(l, e.page, e.index) && Holds(l.sp, CapOf(l.caps, e.bucket), e) && off == Where(l.sp, l.caps, e)
            && 0 <= e.page < |l.ps| == |l.place| && l.place[e.page] >= 2 && e.bucket == BucketOf(l.place[e.page]) < |l.caps|
            && PageStart(l, e.page) && InBucket(l, e.page, e.bucket)
  {
    hide Sound, Live, Holds, PageStart, InBucket, OffsetOf;
    var e := out[off];
    LiveHolds(l, -1, e.page, e.index);
    LiveRange(l, e.page, e.index);
  }

  /** What the code reads from an outstanding pointer: page size, page, bucket and element. */
  lemma OutFound(l: Layout, out: map<nat, Elem>, off: nat)
    requires Sound(l, -1) && Matches(l, out) && off in out
    ensures var e := out[off];
            var pg := Shr(off, l.sp);
            0 <= pg / 32 < 256 && (TestBit(l.large, pg / 32) <==> IsLarge(l.large, e.page))
            && (if TestBit(l.large, pg / 32) then AlignDown(pg, 32) else pg) == e.page
            && e.page < |l.ps| && l.ps[e.page].bucket == e.bucket < |l.caps| && e.page * Pow2(l.sp) != off
    ensures var e := out[off];
            var header := PageHeaderSize(e.bucket / 4, CapOf(l.caps, e.bucket));
            e.page * Pow2(l.sp) + header <= off && (off - e.page * Pow2(l.sp) - header) / BucketToSize(e.bucket) == e.index
  {
    hide Sound, Live, Holds, PageStart, OffsetOf, TestBit, Pow2, Shr, AlignDown, BucketToSize, PageHeaderSize, Matches, LargePageBucket;
    var e := out[off];
    OutHolds(l, out, off);
    OutShape(l);
    Recover(l.sp, CapOf(l.caps, e.bucket), e);
  }

  lemma OutShape(l: Layout)
    requires Sound(l, -1)
    ensures |l.ps| <= 8192 && |l.large| == 4
  {
  }

  /** The pages' ends lie inside the pool. */
  lemma PagesEnd(l: Layout, p: int)
    requires Shape(l) && PageStart(l, p)
    ensures p * Pow2(l.sp) + (if IsLarge(l.large, p) then Pow2(l.sp + 5) else Pow2(l.sp)) <= |l.ps| * Pow2(l.sp)
    ensures HeaderPages(l.sp) * Pow2(l.sp) <= p * Pow2(l.sp)
  {
    hide TestBit, HeaderPages, Pow2, Capacity;
    LargePower(l.sp);
    MulMono(HeaderPages(l.sp), p, Pow2(l.sp));
    if IsLarge(l.large, p) {
      MulMono(p + 32, |l.ps|, Pow2(l.sp));
    } else {
      MulMono(p + 1, |l.ps|, Pow2(l.sp));
    }
  }

  /** An outstanding element lies inside the pool, after its header, and clear of its page's header and bitmap. */
  lemma OutInside(l: Layout, out: map<nat, Elem>, off: nat)
    requires Sound(l, -1) && Matches(l, out) && off in out
    ensures var e := out[off];
            HeaderPages(l.sp) * Pow2(l.sp) <= e.page * Pow2(l.sp)
            && e.page * Pow2(l.sp) + BITMAP_OFFSET + UsedSize(CapOf(l.caps, e.bucket)) <= off
            && off + BucketToSize(e.bucket) <= |l.ps| * Pow2(l.sp)
  {
    hide Live, Holds, TestBit, Pow2, BucketToSize, UsedSize, Matches, HeaderPages, LargePageBucket, OffsetOf, PageStart;
    var e := out[off];
    OutHolds(l, out, off);
    InsidePage(l.sp, CapOf(l.caps, e.bucket), e);
    PagesEnd(l, e.page);
  }

  lemma DataHeldSelf(l: Layout)
    ensures DataHeld(l, l)
  {
    hide Inner;
  }

  // ----- Client writes -----

  lemma InnerUnlisted(l: Layout, q: int)
    requires Inner(l, q)
    ensures 0 <= q < |l.ps| == |l.place| && l.place[q] == -1
  {
  }

  lemma InnerWrite(l: Layout, q: int, data: Page)
    requires Sound(l, -1) && Inner(l, q)
    ensures Sound(l.(ps := l.ps[q := data]), -1)
  {
    hide IsLarge, Capacity, BucketPage, BucketToSize, MaxBucket, Filed, HeaderPages;
    var m := l.(ps := l.ps[q := data]);
    forall p | 0 <= p < |m.ps| ensures PageOk(m, p) {
      assert PageOk(l, p);
      if p != q {
        FiledSame(l, m, p, m.place[p]);
      } else {
        UnfiledNone(l, q);
      }
    }
  }

  lemma UnfiledNone(l: Layout, q: int)
    requires 0 <= q < |l.ps|
    ensures !Filed(l, q, -1)
  {
  }

  lemma InnerMatches(l: Layout, q: int, data: Page, out: map<nat, Elem>)
    requires Matches(l, out) && Inner(l, q)
    ensures Matches(l.(ps := l.ps[q := data]), out)
  {
    hide Matches, TestBit, IsLarge;
    MatchesSame(l, l.(ps := l.ps[q := data]), out);
  }
}
