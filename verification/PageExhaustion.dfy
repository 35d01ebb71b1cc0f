/** When alloc_get has to fail, said in terms of the elements that are outstanding. */
module PageExhaustion {
  import opened Bitmaps
  import opened SizeClasses
  import opened PageSizes
  import opened PageLayout
  import opened PageSteps
  import opened PageElements
  import opened Pages

  /** Page p holds an outstanding element. */
  ghost predicate Occupied(l: Layout, p: int) {
    exists i :: Live(l, p, i)
  }

  /** Page p serves bucket b. */
  ghost predicate Serves(l: Layout, p: int, b: nat) {
    0 <= p < |l.place| && l.place[p] >= 2 && BucketOf(l.place[p]) == b
  }

  /** All elements of page p are outstanding. */
  ghost predicate FullPage(l: Layout, p: int, b: nat) {
    b < |l.caps| && forall i :: 0 <= i < l.caps[b] ==> Live(l, p, i)
  }

  lemma ListedOccupied(l: Layout, p: int)
    requires Sound(l, -1) && PageStart(l, p)
    ensures Occupied(l, p) <==> l.place[p] >= 2
    ensures 0 <= l.place[p]
    ensures l.place[p] == LARGE_FREE ==> IsLarge(l.large, p)
    ensures l.place[p] == SMALL_FREE ==> !IsLarge(l.large, p)
  {
    hide TestBit, Capacity, BucketPage, BucketToSize, MaxBucket, HeaderPages, LargePageBucket, IsLarge;
    assert PageOk(l, p);
    if l.place[p] >= 2 {
      var b := BucketOf(l.place[p]);
      CapAtLeastSix(l, b);
      BitCountAll(l.ps[p].used, l.caps[b]);
      var i: nat :| i < l.caps[b] && TestBit(l.ps[p].used, i);
      assert Live(l, p, i);
    }
  }

  /** A page of a bucket is on the partial list exactly when one of its elements is free. */
  lemma PartialNotFull(l: Layout, p: int, b: nat)
    requires Sound(l, -1) && Serves(l, p, b)
    ensures l.place[p] == PageList(b) <==> !FullPage(l, p, b)
  {
    hide TestBit, Capacity, BucketPage, BucketToSize, MaxBucket, HeaderPages, LargePageBucket, IsLarge;
    assert PageOk(l, p);
    BitCountAll(l.ps[p].used, l.caps[b]);
    if l.place[p] == PageList(b) {
      var i: nat :| i < l.caps[b] && !TestBit(l.ps[p].used, i);
      assert !Live(l, p, i);
    } else {
      forall i | 0 <= i < l.caps[b] ensures Live(l, p, i) {
        assert TestBit(l.ps[p].used, i);
      }
    }
  }

  lemma ListedStart(l: Layout, p: int)
    requires Sound(l, -1) && 0 <= p < |l.ps| && l.place[p] >= 0
    ensures PageStart(l, p)
  {
    assert PageOk(l, p);
  }

  /** Every page holds an outstanding element. */
  ghost predicate AllOccupied(l: Layout) {
    forall p :: PageStart(l, p) ==> Occupied(l, p)
  }

  /** A group of 32 small pages past the first group. */
  ghost predicate SmallGroup(l: Layout, g: int) {
    1 <= g && 32 * g + 32 <= |l.ps| && !IsLarge(l.large, 32 * g)
  }

  ghost predicate GroupOccupied(l: Layout, g: int) {
    exists p :: 32 * g <= p < 32 * g + 32 && Occupied(l, p)
  }

  /** Every large page holds an outstanding element, and so does every group of small pages. */
  ghost predicate AllLargeOccupied(l: Layout) {
    (forall p :: PageStart(l, p) && IsLarge(l.large, p) ==> Occupied(l, p))
    && (forall g :: SmallGroup(l, g) ==> GroupOccupied(l, g))
  }

  /** Every page of bucket b is full. */
  ghost predicate BucketFull(l: Layout, b: nat) {
    forall p :: Serves(l, p, b) ==> FullPage(l, p, b)
  }

  lemma NoPageExactly(l: Layout)
    requires Sound(l, -1)
    ensures NoPage(l) <==> AllOccupied(l)
  {
    hide Sound, PageStart, Occupied;
    SoundLengths(l);
    if NoPage(l) {
      forall p | PageStart(l, p) ensures Occupied(l, p) {
        StartRange(l, p);
        ListedOccupied(l, p);
      }
    } else {
      var p :| 0 <= p < |l.place| && (l.place[p] == SMALL_FREE || l.place[p] == LARGE_FREE);
      ListedStart(l, p);
      ListedOccupied(l, p);
    }
  }

  lemma SoundLengths(l: Layout)
    requires Sound(l, -1)
    ensures |l.ps| == |l.place| && 64 <= |l.ps| <= 8192 && |l.ps| % 32 == 0 && |l.large| == 4 && HeaderPages(l.sp) <= 4
  {
    HeaderPagesBounds(l.sp);
  }

  lemma StartRange(l: Layout, p: int)
    requires PageStart(l, p)
    ensures 0 <= p < |l.ps|
  {
  }

  lemma GroupPage(l: Layout, g: int, p: int)
    requires Sound(l, -1) && SmallGroup(l, g) && 32 * g <= p < 32 * g + 32
    ensures 0 <= p < |l.place| && (Occupied(l, p) <==> l.place[p] != SMALL_FREE)
  {
    hide Sound, Occupied, IsLarge;
    SoundLengths(l);
    assert p / 32 == g && 32 * g / 32 == g;
    SameGroup(l.large, p, 32 * g);
    ListedOccupied(l, p);
  }

  /** A group of small pages can be recombined exactly when none of its pages is occupied. */
  lemma RecombinableExactly(l: Layout, g: int)
    requires Sound(l, -1) && SmallGroup(l, g)
    ensures Recombinable(l, g) <==> !GroupOccupied(l, g)
  {
    hide Sound, Occupied, IsLarge;
    SoundLengths(l);
    forall p | 32 * g <= p < 32 * g + 32 ensures Occupied(l, p) <==> l.place[p] != SMALL_FREE {
      GroupPage(l, g, p);
    }
  }

  lemma LargeFreePage(l: Layout, p: int)
    requires Sound(l, -1) && 0 <= p < |l.place|
    ensures l.place[p] == LARGE_FREE <==> PageStart(l, p) && IsLarge(l.large, p) && !Occupied(l, p)
  {
    hide Sound, Occupied, IsLarge, PageStart;
    SoundLengths(l);
    if l.place[p] >= 0 {
      ListedStart(l, p);
    }
    if PageStart(l, p) {
      ListedOccupied(l, p);
    }
  }

  lemma NoLargePageExactly(l: Layout)
    requires Sound(l, -1)
    ensures NoLargePage(l) <==> AllLargeOccupied(l)
  {
    hide Sound, Occupied, IsLarge, PageStart, GroupOccupied, Recombinable;
    SoundLengths(l);
    forall p | 0 <= p < |l.place| ensures l.place[p] == LARGE_FREE <==> PageStart(l, p) && IsLarge(l.large, p) && !Occupied(l, p) {
      LargeFreePage(l, p);
    }
    forall p | PageStart(l, p) ensures 0 <= p < |l.place| {
      StartRange(l, p);
    }
    forall g | SmallGroup(l, g) ensures Recombinable(l, g) <==> !GroupOccupied(l, g) {
      RecombinableExactly(l, g);
    }
    forall g | Recombinable(l, g) ensures SmallGroup(l, g) {
      RecombinableGroup(l, g);
    }
  }

  lemma RecombinableGroup(l: Layout, g: int)
    requires Recombinable(l, g)
    ensures SmallGroup(l, g)
  {
  }

  lemma NoPartialExactly(l: Layout, b: nat)
    requires Sound(l, -1)
    ensures (forall p :: 0 <= p < |l.place| ==> l.place[p] != PageList(b)) <==> BucketFull(l, b)
  {
    hide Sound, FullPage;
    forall p | Serves(l, p, b) ensures l.place[p] == PageList(b) <==> !FullPage(l, p, b) {
      PartialNotFull(l, p, b);
    }
    forall p | 0 <= p < |l.place| && l.place[p] == PageList(b) ensures Serves(l, p, b) {
      BucketOfLists(b);
    }
  }

  /**
    alloc_get fails exactly when every page of the bucket is full and every page that
    could be turned into one more, alone or with its group, holds an outstanding element.
   */
  lemma ExhaustedExactly(l: Layout, b: nat)
    requires Sound(l, -1)
    ensures Exhausted(l, b) <==> BucketFull(l, b) && if OnSmallPages(b, l.sp) then AllOccupied(l) else AllLargeOccupied(l)
  {
    hide Sound, BucketFull, AllLargeOccupied, AllOccupied, NoPage, NoLargePage, OnSmallPages;
    NoPartialExactly(l, b);
    NoPageExactly(l);
    NoLargePageExactly(l);
  }

  /** Once everything has been freed, in whatever order, no request below the huge sizes fails. */
  lemma FreedPoolServes(l: Layout, b: nat)
    requires Sound(l, -1) && Matches(l, map[])
    ensures !Exhausted(l, b)
    ensures forall p :: 0 <= p < |l.place| ==> l.place[p] < 2
  {
    hide Sound, IsLarge, PageStart, Live, BucketFull, OnSmallPages;
    SoundLengths(l);
    assert forall p, i :: !Live(l, p, i);
    forall p | 0 <= p < |l.place| ensures l.place[p] < 2 {
      if l.place[p] >= 0 {
        ListedStart(l, p);
        ListedOccupied(l, p);
      }
    }
    ExhaustedExactly(l, b);
    SecondGroup(l);
    assert SmallGroup(l, 1) || IsLarge(l.large, 32);
  }

  lemma SecondGroup(l: Layout)
    requires Sound(l, -1)
    ensures PageStart(l, 32)
  {
    SoundLengths(l);
  }
}
