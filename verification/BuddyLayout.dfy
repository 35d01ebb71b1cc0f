/**
  The invariant of the mplite pool on values: free lists, control bytes and outstanding
  allocations, and how it moves when one block is taken, split, merged or given back.
 */
module BuddyLayout {
  import opened Shared
  import opened Powers
  import opened Buddy
  import opened FreeLists

  const LOGMAX: int := 30

  lemma Pow2Logmax()
    ensures Pow2(31) == 0x8000_0000
  {
    assert Pow2(8) == 256;
    Pow2Add(8, 8);
    Pow2Add(16, 8);
    Pow2Add(24, 7);
    assert Pow2(7) == 128;
  }

  lemma OrderBound(k: nat, n: int)
    requires Pow2(k) <= n < 0x8000_0000
    ensures k <= LOGMAX
  {
    Pow2Logmax();
    Pow2Below(k, 31);
  }

  /** The list of order k holds exactly the maximal clear ranges of that order. */
  ghost predicate Canonical(lists: seq<seq<int>>, used: set<int>, n: nat) {
    && |lists| == LOGMAX + 1
    && forall k, i {:trigger i in lists[k]} {:trigger Maximal(used, n, i, k)} :: 0 <= k < |lists| ==> (i in lists[k] <==> Maximal(used, n, i, k))
  }

  /**
    Control bytes at block starts.  Nothing is said about any other control byte, and
    nothing about the byte at skip, the block that is being worked on.
   */
  ghost predicate Headers(ctrl: seq<Byte>, out: Allocs, lists: seq<seq<int>>, skip: int) {
    && (forall i {:trigger i in out} :: i in out && i != skip ==> 0 <= i < |ctrl| && ctrl[i] == out[i])
    && Tagged(ctrl, lists)
  }

  ghost predicate Layout(pool: seq<Atom>, ctrl: seq<Byte>, heads: seq<int>, lists: seq<seq<int>>, out: Allocs, skip: int) {
    && |pool| == |ctrl| < 0x8000_0000
    && AllThreaded(pool, heads, lists)
    && AllocsOK(out, |pool|)
    && Canonical(lists, Used(out), |pool|)
    && Headers(ctrl, out, lists, skip)
  }

  lemma NotListed(lists: seq<seq<int>>, used: set<int>, n: nat, i: int)
    requires Canonical(lists, used, n) && i in used
    ensures Unlisted(lists, i)
  {
    forall k | 0 <= k < |lists| ensures i !in lists[k] {
      RangeStart(i, k);
      assert !Clear(used, n, i, k);
    }
  }

  /** Taking a free block off its list is the same as marking its range used. */
  lemma Take(lists: seq<seq<int>>, used: set<int>, n: nat, k: nat, j: nat)
    requires Canonical(lists, used, n) && k < |lists| && j < |lists[k]| && Distinct(lists[k])
    ensures Maximal(used, n, lists[k][j], k)
    ensures Canonical(lists[k := Without(lists[k], j)], used + Range(lists[k][j], k), n)
  {
    var i := lists[k][j];
    var more := used + Range(i, k);
    assert i in lists[k];
    assert more - Range(i, k) == used;
    WithoutMembers(lists[k], j);
    forall m, x | 0 <= m < |lists|
      ensures x in lists[k := Without(lists[k], j)][m] <==> Maximal(more, n, x, m)
    {
      Release(more, n, i, k, x, m);
    }
  }

  /** Putting a range on its list is the same as marking it unused, if its parent stays busy. */
  lemma Give(lists: seq<seq<int>>, used: set<int>, n: nat, k: nat, i: int)
    requires Canonical(lists, used, n) && k < |lists|
    requires 0 <= i && Aligned(i, k) && i + Pow2(k) <= n && Range(i, k) <= used
    requires !Clear(used - Range(i, k), n, Parent(i, k), k + 1)
    ensures Canonical(lists[k := [i] + lists[k]], used - Range(i, k), n)
    ensures Unlisted(lists, i)
  {
    assert InRange(i, i, k) && i in Range(i, k);
    NotListed(lists, used, n, i);
    forall m, x | 0 <= m < |lists|
      ensures x in lists[k := [i] + lists[k]][m] <==> Maximal(used - Range(i, k), n, x, m)
    {
      Release(used, n, i, k, x, m);
    }
  }

  /**
    The buddy test of mplite_free_unsafe is exact: the control byte at the start of the
    sibling says free of order l just when the whole sibling holds no allocation.  The
    byte read is always one that belongs to a block start.
   */
  lemma BuddyTest(pool: seq<Atom>, ctrl: seq<Byte>, heads: seq<int>, lists: seq<seq<int>>, out: Allocs, b: int, l: nat)
    requires Layout(pool, ctrl, heads, lists, out, b) && b in out && out[b] == l && l <= LOGMAX
    requires 0 <= Sibling(b, l) && Sibling(b, l) + Pow2(l) <= |pool|
    ensures ctrl[Sibling(b, l)] == CTRL_FREE + l <==> Clear(Used(out), |pool|, Sibling(b, l), l)
    ensures ctrl[Sibling(b, l)] == CTRL_FREE + l <==> Sibling(b, l) in lists[l]
    ensures Sibling(b, l) in out || !Unlisted(lists, Sibling(b, l))
  {
    var c := Sibling(b, l);
    SiblingFacts(b, l);
    var m := SiblingHead(out, |pool|, b, l);
    if Maximal(Used(out), |pool|, c, l) {
      assert c in lists[l];
    } else if c in out && out[c] == m && m <= l {
      assert ctrl[c] == m;
    } else {
      assert c in lists[m];
    }
  }

  lemma UsedNotListed(lists: seq<seq<int>>, used: set<int>, n: nat)
    requires Canonical(lists, used, n)
    ensures forall a :: a in used ==> Unlisted(lists, a)
  {
    forall a | a in used ensures Unlisted(lists, a) {
      NotListed(lists, used, n, a);
    }
  }

  lemma ListedUnused(lists: seq<seq<int>>, used: set<int>, n: nat)
    requires Canonical(lists, used, n)
    ensures forall k, i :: 0 <= k < |lists| && i in lists[k] ==> i !in used
  {
    UsedNotListed(lists, used, n);
  }

  /** mplite_malloc_unsafe takes block j of list k: it becomes an allocation without a header yet. */
  lemma TakeLayout(pool: seq<Atom>, ctrl: seq<Byte>, heads: seq<int>, lists: seq<seq<int>>, out: Allocs,
                   k: nat, j: nat, p: seq<Atom>, h: seq<int>)
    requires Layout(pool, ctrl, heads, lists, out, -1) && k < |lists| && j < |lists[k]|
    requires AllThreaded(p, h, lists[k := Without(lists[k], j)]) && |p| == |pool|
    ensures var i := lists[k][j];
            i !in out && Maximal(Used(out), |pool|, i, k)
            && Used(out[i := k]) == Used(out) + Range(i, k)
            && Layout(p, ctrl, h, lists[k := Without(lists[k], j)], out[i := k], i)
  {
    var i := lists[k][j];
    assert Threaded(pool, lists[k]);
    Take(lists, Used(out), |pool|, k, j);
    WithoutMembers(lists[k], j);
    UsedAdd(out, |pool|, i, k);
  }

  /** One round of the splitting loop: the upper half of the block at i becomes free. */
  lemma SplitCanonical(lists: seq<seq<int>>, out: Allocs, n: nat, i: int, l: nat)
    requires AllocsOK(out, n) && Canonical(lists, Used(out), n) && n < 0x8000_0000
    requires i in out && out[i] == l + 1
    ensures l + 1 < |lists| && 0 <= i + Pow2(l) < n && i + Pow2(l) in Range(i, out[i])
    ensures Unlisted(lists, i + Pow2(l))
    ensures AllocsOK(out[i := l], n) && i + Pow2(l) !in out[i := l]
    ensures Canonical(lists[l := [i + Pow2(l)] + lists[l]], Used(out[i := l]), n)
  {
    var c := i + Pow2(l);
    OrderBound(l + 1, n);
    UsedHalve(out, n, i, l);
    UpperHalf(out, n, i, l);
    assert i in Range(Parent(c, l), l + 1);
    Give(lists, Used(out), n, l, c);
  }

  lemma SplitHeaders(ctrl: seq<Byte>, lists: seq<seq<int>>, out: Allocs, n: nat, i: int, l: nat)
    requires i in out && out[i] == l + 1 && Headers(ctrl, out, lists, i)
    requires l < |lists| <= 64 && 0 <= i + Pow2(l) < |ctrl| && Unlisted(lists, i + Pow2(l))
    requires i + Pow2(l) !in out[i := l]
    ensures Tagged(ctrl[i + Pow2(l) := CTRL_FREE + l], lists)
    ensures Headers(ctrl[i + Pow2(l) := CTRL_FREE + l], out[i := l], lists[l := [i + Pow2(l)] + lists[l]], i)
  {
    var c := i + Pow2(l);
    assert lists[l := lists[l]] == lists;
    TaggedUpdate(ctrl, ctrl[c := CTRL_FREE + l], lists, l, lists[l]);
    TaggedUpdate(ctrl, ctrl[c := CTRL_FREE + l], lists, l, [c] + lists[l]);
  }

  /** Writing the header of the block in hand completes an allocation. */
  lemma SealLayout(pool: seq<Atom>, ctrl: seq<Byte>, heads: seq<int>, lists: seq<seq<int>>, out: Allocs, i: int)
    requires Layout(pool, ctrl, heads, lists, out, i) && i in out
    ensures 0 <= i < |pool| && out[i] <= LOGMAX
    ensures Layout(pool, ctrl[i := out[i]], heads, lists, out, -1)
  {
    OrderBound(out[i], |pool|);
    StartUsed(out, i);
    NotListed(lists, Used(out), |pool|, i);
    assert lists[0 := lists[0]] == lists;
    TaggedUpdate(ctrl, ctrl[i := out[i]], lists, 0, lists[0]);
  }

  /** Control bytes inside an allocation may hold anything once its own header is disregarded. */
  lemma UnsealLayout(pool: seq<Atom>, ctrl: seq<Byte>, heads: seq<int>, lists: seq<seq<int>>, out: Allocs, i: int, c: seq<Byte>)
    requires Layout(pool, ctrl, heads, lists, out, -1) && i in out && |c| == |ctrl|
    requires forall a :: 0 <= a < |ctrl| && a !in Range(i, out[i]) ==> c[a] == ctrl[a]
    ensures Layout(pool, c, heads, lists, out, i)
  {
    UsedRemove(out, |pool|, i);
    ListedUnused(lists, Used(out), |pool|);
    forall x | x in out && x != i ensures c[x] == out[x] {
      StartUsed(out - {i}, x);
    }
  }

  /** One round of the coalescing loop: the free sibling is absorbed. */
  lemma MergeCanonical(lists: seq<seq<int>>, out: Allocs, n: nat, b: int, l: nat, j: nat)
    requires AllocsOK(out, n) && Canonical(lists, Used(out), n) && n < 0x8000_0000
    requires b in out && out[b] == l && l < |lists|
    requires j < |lists[l]| && lists[l][j] == Sibling(b, l) && Distinct(lists[l])
    ensures l + 1 < |lists| && 0 <= b < n && 0 <= Sibling(b, l) < n
    ensures AllocsOK(Joined(out, b, l), n)
    ensures Joined(out, b, l) - {Parent(b, l)} == out - {b} && Sibling(b, l) !in out
    ensures Canonical(lists[l := Without(lists[l], j)], Used(Joined(out, b, l)), n)
  {
    var c := Sibling(b, l);
    var out1 := Joined(out, b, l);
    assert c in lists[l];
    SiblingFacts(b, l);
    Take(lists, Used(out), n, l, j);
    RangeStart(c, l);
    StartUsed(out, c);
    UsedJoin(out, n, b, l);
    assert out1[Parent(b, l)] == l + 1;
    OrderBound(l + 1, n);
  }

  lemma MergeHeaders(ctrl: seq<Byte>, ctrl1: seq<Byte>, lists: seq<seq<int>>, out: Allocs, b: int, l: nat, j: nat)
    requires b in out && out[b] == l && l < |lists| && Headers(ctrl, out, lists, b)
    requires j < |lists[l]| && lists[l][j] == Sibling(b, l) && Distinct(lists[l])
    requires Sibling(b, l) !in out && Unlisted(lists, b) && |ctrl1| == |ctrl|
    requires forall a :: 0 <= a < |ctrl| && a != b && a != Sibling(b, l) ==> ctrl1[a] == ctrl[a]
    ensures Headers(ctrl1, Joined(out, b, l), lists[l := Without(lists[l], j)], Parent(b, l))
  {
    WithoutMembers(lists[l], j);
    assert Sibling(b, l) in lists[l];
    forall m, x | 0 <= m < |lists| && m != l && x in lists[m] ensures 0 <= x < |ctrl| && ctrl1[x] == ctrl[x] {
      TaggedApart(ctrl, lists, l, m);
    }
    TaggedUpdate(ctrl, ctrl1, lists, l, Without(lists[l], j));
  }

  /** The end of mplite_free_unsafe: the coalesced block goes on its list. */
  lemma GiveLayout(pool: seq<Atom>, ctrl: seq<Byte>, heads: seq<int>, lists: seq<seq<int>>, out: Allocs,
                   b: int, l: nat)
    requires Layout(pool, ctrl, heads, lists, out, b) && b in out && out[b] == l && l < |lists|
    requires 0 <= b < |ctrl| && ctrl[b] == CTRL_FREE + l
    requires !Clear(Used(out - {b}), |pool|, Parent(b, l), l + 1)
    ensures Unlisted(lists, b)
    ensures var lists1 := lists[l := [b] + lists[l]];
            AllocsOK(out - {b}, |pool|)
            && Canonical(lists1, Used(out - {b}), |pool|)
            && Headers(ctrl, out - {b}, lists1, -1)
  {
    UsedRemove(out, |pool|, b);
    Give(lists, Used(out), |pool|, l, b);
  }

  /** Data of the other allocations lies neither on a list nor inside the allocation at i. */
  lemma OthersUntouched(lists: seq<seq<int>>, out: Allocs, n: nat, i: int)
    requires AllocsOK(out, n) && Canonical(lists, Used(out), n) && i in out
    ensures forall a :: a in Used(out - {i}) ==> Unlisted(lists, a) && a !in Range(i, out[i]) && a in Used(out)
  {
    UsedRemove(out, n, i);
    UsedNotListed(lists, Used(out), n);
  }

  /** No aligned range of order k is free of used atoms. */
  ghost predicate NoRoom(used: set<int>, n: nat, k: nat) {
    forall i :: !Clear(used, n, i, k)
  }

  /** There is no room for order k exactly when every list from k upward is empty. */
  lemma RoomListed(lists: seq<seq<int>>, used: set<int>, n: nat, k: nat)
    requires Canonical(lists, used, n) && n < 0x8000_0000
    ensures NoRoom(used, n, k) <==> forall m :: k <= m < |lists| ==> lists[m] == []
  {
    if i :| Clear(used, n, i, k) {
      var j, m := Ancestor(used, n, i, k);
      OrderBound(m, n);
      assert j in lists[m];
    }
    forall m | k <= m < |lists| && NoRoom(used, n, k) ensures lists[m] == [] {
      if lists[m] != [] {
        var i := lists[m][0];
        assert i in lists[m] && Clear(used, n, i, m);
        AlignedDown(i, m, k);
        Pow2Mono(k, m);
        ClearWithin(used, n, i, k, i, m);
      }
    }
  }

  lemma CarvedRoom(used: set<int>, n: nat, i: int, bin: nat, k: nat)
    requires Clear(used, n, i, bin) && k <= bin
    ensures Clear(used, n, i, k)
  {
    AlignedDown(i, bin, k);
    Pow2Mono(k, bin);
    ClearWithin(used, n, i, k, i, bin);
  }

  /** When the sibling is out of the pool or not clear, coalescing has to stop. */
  lemma SiblingSettles(lists: seq<seq<int>>, out: Allocs, n: nat, b: int, l: nat)
    requires AllocsOK(out, n) && b in out && out[b] == l
    ensures 0 <= Sibling(b, l) && Aligned(b, l)
    ensures Sibling(b, l) + Pow2(l) > n || !Clear(Used(out), n, Sibling(b, l), l)
            ==> !Clear(Used(out - {b}), n, Parent(b, l), l + 1)
  {
    var c := Sibling(b, l);
    SiblingFacts(b, l);
    SiblingRange(b, l);
    ParentAligned(b, l);
    ParentNonNegative(b, l);
    UsedRemove(out, n, b);
    ClearWithin(Used(out - {b}), n, c, l, Parent(b, l), l + 1);
    SiblingApart(b, l);
    ClearApart(Used(out), n, b, l, c, l);
  }

  lemma SiblingApart(b: int, l: nat)
    ensures Apart(Sibling(b, l), l, b, l)
  {
  }

  /** A block of the largest order has no parent inside the pool. */
  lemma TopSettled(out: Allocs, n: nat, b: int, l: nat)
    requires n < 0x8000_0000 && Aligned(b, l) && 0 <= b
    ensures l >= LOGMAX ==> !Clear(Used(out - {b}), n, Parent(b, l), l + 1)
  {
    ParentNonNegative(b, l);
    Pow2Logmax();
    if l >= LOGMAX {
      Pow2Mono(31, l + 1);
    }
  }

  // ----- The lists after a call -----

  /** Splitting the block at i from order bin down to k: the upper half of each order comes in front of its list. */
  ghost predicate SplitLists(before: seq<seq<int>>, after: seq<seq<int>>, i: int, bin: nat, k: nat) {
    && |after| == |before|
    && forall m: nat :: m < |before| ==> after[m] == if k <= m < bin then [i + Pow2(m)] + before[m] else before[m]
  }

  lemma SplitListsStep(l0: seq<seq<int>>, l1: seq<seq<int>>, i: int, bin: nat, b: nat)
    requires SplitLists(l0, l1, i, bin, b + 1) && b < bin && b < |l0|
    ensures SplitLists(l0, l1[b := [i + Pow2(b)] + l1[b]], i, bin, b)
  {
  }

  /** The block at i is taken off list bin, the others keep their order. */
  ghost predicate TakenLists(before: seq<seq<int>>, after: seq<seq<int>>, i: int, bin: nat, k: nat) {
    bin < |before| && SplitLists(before[bin := Removed(before[bin], i)], after, i, bin, k)
  }

  /** The block at i is what the walk chooses on the first list from order k on that is not empty, and what is not needed of it goes back. */
  ghost predicate Carved(before: seq<seq<int>>, after: seq<seq<int>>, i: int, k: nat) {
    exists bin: nat :: bin < |before| && CarvedFrom(before, after, i, bin, k)
  }

  ghost predicate CarvedFrom(before: seq<seq<int>>, after: seq<seq<int>>, i: int, bin: nat, k: nat)
    requires bin < |before|
  {
    && k <= bin && before[bin] != [] && (forall m :: k <= m < bin ==> before[m] == [])
    && i == Lowest(before[bin], before[bin][0]) && TakenLists(before, after, i, bin, k)
  }

  /** The lists after the block (i, k) is given back: as long as its sibling is listed the two are joined, then the block comes in front. */
  function Rejoined(lists: seq<seq<int>>, i: int, k: nat): seq<seq<int>>
    requires k < |lists|
    decreases |lists| - k
  {
    if k + 1 < |lists| && Sibling(i, k) in lists[k] then
      Rejoined(lists[k := Removed(lists[k], Sibling(i, k))], Parent(i, k), k + 1)
    else
      lists[k := [i] + lists[k]]
  }

  /** A block was carved out at j for order m, then (i, k) was given back. */
  ghost predicate CarvedRejoined(before: seq<seq<int>>, after: seq<seq<int>>, j: int, m: nat, i: int, k: nat) {
    exists between :: Carved(before, between, j, m) && k < |between| && after == Rejoined(between, i, k)
  }

  lemma NothingSplit(lists: seq<seq<int>>, i: int, bin: nat)
    ensures SplitLists(lists, lists, i, bin, bin)
  {
  }

  /** A range that reaches behind the pool is on no list. */
  lemma OutsideUnlisted(lists: seq<seq<int>>, used: set<int>, n: nat, i: int, k: nat)
    requires Canonical(lists, used, n) && k < |lists| && i + Pow2(k) > n
    ensures i !in lists[k]
  {
  }
}
