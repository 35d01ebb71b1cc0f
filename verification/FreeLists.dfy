/**
  Doubly linked free lists threaded through the first words of the free blocks
  themselves, one list for each order (mplite_link, mplite_unlink).
 */
module FreeLists {
  import opened Shared

  /**
    One atom of the pool.  Its first eight bytes are read as the two links of struct
    mplite_link when the atom starts a free block; a client that owns the atom may
    leave any value in all three parts.
   */
  datatype Atom = Atom(next: int, prev: int, rest: seq<Byte>)

  function Head(s: seq<int>): int {
    if s == [] then -1 else s[0]
  }

  function NextOf(s: seq<int>, j: int): int
    requires 0 <= j < |s|
  {
    if j + 1 < |s| then s[j + 1] else -1
  }

  function PrevOf(s: seq<int>, j: int): int
    requires 0 <= j < |s|
  {
    if j == 0 then -1 else s[j - 1]
  }

  ghost predicate Distinct(s: seq<int>) {
    forall j, l :: 0 <= j < l < |s| ==> s[j] != s[l]
  }

  ghost predicate Within(s: seq<int>, n: int) {
    forall j :: 0 <= j < |s| ==> 0 <= s[j] < n
  }

  /** The links in the pool spell out the list s in both directions. */
  ghost predicate Threaded(pool: seq<Atom>, s: seq<int>) {
    && Within(s, |pool|)
    && Distinct(s)
    && forall j :: 0 <= j < |s| ==> pool[s[j]].next == NextOf(s, j) && pool[s[j]].prev == PrevOf(s, j)
  }

  /** Control byte of a free block, less its order. */
  const CTRL_FREE: int := 32

  /** The control byte at a listed atom tells on which list it is. */
  ghost predicate Tagged(ctrl: seq<Byte>, lists: seq<seq<int>>) {
    forall k, x {:trigger x in lists[k]} :: 0 <= k < |lists| && x in lists[k] ==> 0 <= x < |ctrl| && ctrl[x] == CTRL_FREE + k
  }

  ghost predicate AllThreaded(pool: seq<Atom>, heads: seq<int>, lists: seq<seq<int>>) {
    && |heads| == |lists|
    && (forall k :: 0 <= k < |lists| ==> heads[k] == Head(lists[k]))
    && (forall k :: 0 <= k < |lists| ==> Threaded(pool, lists[k]))
  }

  ghost predicate Unlisted(lists: seq<seq<int>>, x: int) {
    forall k :: 0 <= k < |lists| ==> x !in lists[k]
  }

  lemma TaggedApart(ctrl: seq<Byte>, lists: seq<seq<int>>, k: int, l: int)
    requires Tagged(ctrl, lists) && 0 <= k < |lists| && 0 <= l < |lists| && k != l
    ensures forall x :: x in lists[l] ==> 0 <= x < |ctrl| && x !in lists[k]
  {
  }

  /** A write outside the lists, or to a list that keeps only tagged atoms, keeps the tags right. */
  lemma TaggedUpdate(ctrl: seq<Byte>, c: seq<Byte>, lists: seq<seq<int>>, k: nat, t: seq<int>)
    requires Tagged(ctrl, lists) && k < |lists| && |c| == |ctrl|
    requires forall x :: x in t ==> 0 <= x < |ctrl| && c[x] == CTRL_FREE + k
    requires forall l, x {:trigger x in lists[l]} :: 0 <= l < |lists| && l != k && x in lists[l] ==> 0 <= x < |c| && c[x] == ctrl[x]
    ensures Tagged(c, lists[k := t])
  {
  }

  // ----- The effect of the two list operations on the pool -----

  function LinkPool(pool: seq<Atom>, i: int, x: int): (r: seq<Atom>)
    requires 0 <= i < |pool| && -1 <= x < |pool|
  {
    var p := pool[i := pool[i].(next := x, prev := -1)];
    if x >= 0 then p[x := p[x].(prev := i)] else p
  }

  function UnlinkPool(pool: seq<Atom>, next: int, prev: int): (r: seq<Atom>)
    requires -1 <= next < |pool| && -1 <= prev < |pool|
  {
    var p := if prev < 0 then pool else pool[prev := pool[prev].(next := next)];
    if next >= 0 then p[next := p[next].(prev := prev)] else p
  }

  function Without(s: seq<int>, j: int): seq<int>
    requires 0 <= j < |s|
  {
    s[..j] + s[j + 1..]
  }

  lemma LinkThreads(pool: seq<Atom>, s: seq<int>, i: int)
    requires Threaded(pool, s) && 0 <= i < |pool| && i !in s
    ensures -1 <= Head(s) < |pool|
    ensures Threaded(LinkPool(pool, i, Head(s)), [i] + s)
  {
    var t := [i] + s;
    var p := LinkPool(pool, i, Head(s));
    forall j | 0 <= j < |t|
      ensures 0 <= t[j] < |p| && p[t[j]].next == NextOf(t, j) && p[t[j]].prev == PrevOf(t, j)
    {
      if j > 0 {
        assert t[j] == s[j - 1];
      }
    }
  }

  /** What an unlink leaves in the links of each member. */
  lemma UnlinkEffect(pool: seq<Atom>, s: seq<int>, j: int, o: int)
    requires Threaded(pool, s) && 0 <= j < |s| && 0 <= o < |s| && o != j
    requires -1 <= NextOf(s, j) < |pool| && -1 <= PrevOf(s, j) < |pool|
    ensures var p := UnlinkPool(pool, NextOf(s, j), PrevOf(s, j));
            p[s[o]].next == (if o == j - 1 then NextOf(s, j) else NextOf(s, o))
            && p[s[o]].prev == (if o == j + 1 then PrevOf(s, j) else PrevOf(s, o))
  {
    NeighbourAt(s, j, o, |pool|);
    UnlinkAt(pool, NextOf(s, j), PrevOf(s, j), s[o]);
  }

  lemma NeighbourAt(s: seq<int>, j: int, o: int, n: int)
    requires Within(s, n) && Distinct(s) && 0 <= j < |s| && 0 <= o < |s| && o != j
    ensures s[o] == PrevOf(s, j) <==> o == j - 1
    ensures s[o] == NextOf(s, j) <==> o == j + 1
    ensures 0 <= s[o] < n
  {
  }

  lemma UnlinkAt(pool: seq<Atom>, next: int, prev: int, x: int)
    requires -1 <= next < |pool| && -1 <= prev < |pool| && 0 <= x < |pool|
    ensures var p := UnlinkPool(pool, next, prev);
            p[x].next == (if x == prev then next else pool[x].next)
            && p[x].prev == (if x == next then prev else pool[x].prev)
  {
  }

  /** The neighbours of a member after the removal of position j. */
  lemma WithoutLinks(s: seq<int>, j: int, l: int)
    requires 0 <= j < |s| && 0 <= l < |s| - 1
    ensures var o := if l < j then l else l + 1;
            var t := Without(s, j);
            t[l] == s[o]
            && NextOf(t, l) == (if o == j - 1 then NextOf(s, j) else NextOf(s, o))
            && PrevOf(t, l) == (if o == j + 1 then PrevOf(s, j) else PrevOf(s, o))
  {
  }

  lemma WithoutDistinct(s: seq<int>, j: int, n: int)
    requires 0 <= j < |s| && Within(s, n) && Distinct(s)
    ensures Within(Without(s, j), n) && Distinct(Without(s, j))
  {
    var t := Without(s, j);
    assert forall l :: 0 <= l < |t| ==> t[l] == s[if l < j then l else l + 1];
  }

  lemma NeighboursInPool(s: seq<int>, j: int, n: int)
    requires 0 <= j < |s| && Within(s, n)
    ensures -1 <= NextOf(s, j) < n && -1 <= PrevOf(s, j) < n
    ensures PrevOf(s, j) < 0 <==> j == 0
  {
    assert 0 <= s[j] < n;
  }

  lemma UnlinkThreads(pool: seq<Atom>, s: seq<int>, j: int)
    requires Threaded(pool, s) && 0 <= j < |s|
    requires -1 <= NextOf(s, j) < |pool| && -1 <= PrevOf(s, j) < |pool|
    ensures Threaded(UnlinkPool(pool, NextOf(s, j), PrevOf(s, j)), Without(s, j))
  {
    var t := Without(s, j);
    WithoutDistinct(s, j, |pool|);
    forall l | 0 <= l < |t|
      ensures var p := UnlinkPool(pool, NextOf(s, j), PrevOf(s, j));
              0 <= t[l] < |p| && p[t[l]].next == NextOf(t, l) && p[t[l]].prev == PrevOf(t, l)
    {
      WithoutLinks(s, j, l);
      UnlinkEffect(pool, s, j, if l < j then l else l + 1);
    }
  }

  /** A list does not notice writes to atoms that are not on it. */
  lemma ThreadedFrame(pool: seq<Atom>, p: seq<Atom>, s: seq<int>)
    requires Threaded(pool, s) && |p| == |pool|
    requires forall x :: x in s ==> p[x] == pool[x]
    ensures Threaded(p, s)
  {
    forall j | 0 <= j < |s| ensures p[s[j]] == pool[s[j]] {
      assert s[j] in s;
    }
  }

  lemma LinkAll(pool: seq<Atom>, ctrl: seq<Byte>, heads: seq<int>, lists: seq<seq<int>>, k: nat, i: int)
    requires AllThreaded(pool, heads, lists) && Tagged(ctrl, lists) && k < |lists|
    requires 0 <= i < |pool| && Unlisted(lists, i)
    ensures heads[k] == Head(lists[k]) && -1 <= heads[k] < |pool|
    ensures AllThreaded(LinkPool(pool, i, heads[k]), heads[k := i], lists[k := [i] + lists[k]])
    ensures forall a :: 0 <= a < |pool| && a != i && a !in lists[k] ==> LinkPool(pool, i, heads[k])[a] == pool[a]
  {
    LinkThreads(pool, lists[k], i);
    var p := LinkPool(pool, i, heads[k]);
    assert heads[k] >= 0 ==> heads[k] in lists[k];
    forall l | 0 <= l < |lists| && l != k ensures Threaded(p, lists[l]) {
      TaggedApart(ctrl, lists, k, l);
      ThreadedFrame(pool, p, lists[l]);
    }
  }

  lemma UnlinkFrame(pool: seq<Atom>, s: seq<int>, j: int)
    requires Threaded(pool, s) && 0 <= j < |s|
    requires -1 <= NextOf(s, j) < |pool| && -1 <= PrevOf(s, j) < |pool|
    ensures forall a :: 0 <= a < |pool| && a !in s ==> UnlinkPool(pool, NextOf(s, j), PrevOf(s, j))[a] == pool[a]
  {
    assert NextOf(s, j) >= 0 ==> NextOf(s, j) in s;
    assert PrevOf(s, j) >= 0 ==> PrevOf(s, j) in s;
  }

  lemma HeadWithout(s: seq<int>, j: nat)
    requires j < |s|
    ensures Head(Without(s, j)) == if j == 0 then NextOf(s, 0) else Head(s)
  {
  }

  /** One list may shrink while the pool changes only at its old members. */
  lemma ShrinkList(pool: seq<Atom>, p: seq<Atom>, ctrl: seq<Byte>, heads: seq<int>, lists: seq<seq<int>>, k: nat, t: seq<int>)
    requires AllThreaded(pool, heads, lists) && Tagged(ctrl, lists) && k < |lists| && Threaded(p, t) && |p| == |pool|
    requires forall a :: 0 <= a < |pool| && a !in lists[k] ==> p[a] == pool[a]
    ensures AllThreaded(p, heads[k := Head(t)], lists[k := t])
  {
    forall l | 0 <= l < |lists| && l != k ensures Threaded(p, lists[l]) {
      TaggedApart(ctrl, lists, k, l);
      ThreadedFrame(pool, p, lists[l]);
    }
  }

  lemma UnlinkLinks(pool: seq<Atom>, heads: seq<int>, lists: seq<seq<int>>, k: nat, j: nat)
    requires AllThreaded(pool, heads, lists) && k < |lists| && j < |lists[k]|
    ensures var s := lists[k];
            0 <= s[j] < |pool| && pool[s[j]].next == NextOf(s, j) && pool[s[j]].prev == PrevOf(s, j)
            && -1 <= NextOf(s, j) < |pool| && -1 <= PrevOf(s, j) < |pool|
  {
    assert Threaded(pool, lists[k]);
    NeighboursInPool(lists[k], j, |pool|);
  }

  lemma UnlinkAll(pool: seq<Atom>, ctrl: seq<Byte>, heads: seq<int>, lists: seq<seq<int>>, k: nat, j: nat, p: seq<Atom>, h: seq<int>)
    requires AllThreaded(pool, heads, lists) && Tagged(ctrl, lists) && k < |lists| && j < |lists[k]|
    requires var s := lists[k]; -1 <= NextOf(s, j) < |pool| && -1 <= PrevOf(s, j) < |pool|
    requires var s := lists[k];
             p == UnlinkPool(pool, NextOf(s, j), PrevOf(s, j))
             && h == if PrevOf(s, j) < 0 then heads[k := NextOf(s, j)] else heads
    ensures AllThreaded(p, h, lists[k := Without(lists[k], j)])
    ensures forall a :: 0 <= a < |pool| && a !in lists[k] ==> p[a] == pool[a]
  {
    var s := lists[k];
    var t := Without(s, j);
    UnlinkThreads(pool, s, j);
    UnlinkFrame(pool, s, j);
    ShrinkList(pool, p, ctrl, heads, lists, k, t);
    NeighboursInPool(s, j, |pool|);
    HeadWithout(s, j);
    assert heads[k := Head(s)] == heads;
  }

  /** The list without x. */
  function Removed(s: seq<int>, x: int): seq<int> {
    if s == [] then [] else if s[0] == x then s[1..] else [s[0]] + Removed(s[1..], x)
  }

  lemma {:induction false} RemovedWithout(s: seq<int>, j: nat)
    requires Distinct(s) && j < |s|
    ensures Removed(s, s[j]) == Without(s, j)
  {
    if j == 0 {
    } else {
      var t := s[1..];
      assert forall a, b :: 0 <= a < b < |t| ==> t[a] == s[a + 1] && t[b] == s[b + 1];
      RemovedWithout(t, j - 1);
      assert Without(s, j) == [s[0]] + Without(t, j - 1);
    }
  }

  /** Which members remain after an unlink. */
  lemma WithoutMembers(s: seq<int>, j: nat)
    requires Distinct(s) && j < |s|
    ensures forall x :: x in Without(s, j) <==> x in s && x != s[j]
  {
    forall x | x in s && x != s[j] ensures x in Without(s, j) {
      var l :| 0 <= l < |s| && s[l] == x;
      assert Without(s, j)[if l < j then l else l - 1] == x;
    }
    forall l | 0 <= l < |Without(s, j)| ensures Without(s, j)[l] in s && Without(s, j)[l] != s[j] {
      assert Without(s, j)[l] == s[if l < j then l else l + 1];
    }
  }

  // ----- The choice made by mplite_unlink_first -----

  /** The lowest of best and the members of s that come before the first member that is not positive. */
  function Lowest(s: seq<int>, best: int): int {
    if s == [] || s[0] <= 0 then best
    else Lowest(s[1..], if s[0] < best then s[0] else best)
  }

  lemma {:induction false} LowestChosen(s: seq<int>, best: int)
    ensures Lowest(s, best) == best || Lowest(s, best) in s
    ensures Lowest(s, best) <= best
    ensures (forall x :: x in s ==> x > 0) ==> forall x :: x in s ==> Lowest(s, best) <= x
  {
    if s != [] && s[0] > 0 {
      var b := if s[0] < best then s[0] else best;
      LowestChosen(s[1..], b);
      assert s == [s[0]] + s[1..];
      if forall x :: x in s ==> x > 0 {
        assert forall x :: x in s[1..] ==> x in s;
        forall x | x in s ensures Lowest(s, best) <= x {
          assert x == s[0] || x in s[1..];
        }
      }
    } else if s != [] {
      assert s[0] in s;
    }
  }

  lemma {:induction false} LowestPositive(s: seq<int>, best: int)
    requires best > 0
    ensures Lowest(s, best) > 0
  {
    if s != [] && s[0] > 0 {
      LowestPositive(s[1..], if s[0] < best then s[0] else best);
    }
  }

  /** The walk finds the lowest member exactly when block 0 comes first or is not listed. */
  ghost predicate WalkSeesAll(s: seq<int>)
    requires s != []
  {
    s[0] == 0 || 0 !in s
  }

  ghost predicate LowestOf(x: int, s: seq<int>) {
    forall y :: y in s ==> x <= y
  }

  lemma LowestExactly(s: seq<int>)
    requires s != [] && forall x :: x in s ==> x >= 0
    ensures LowestOf(Lowest(s, s[0]), s) <==> WalkSeesAll(s)
  {
    assert s[0] in s;
    if s[0] > 0 {
      LowestPositive(s, s[0]);
      LowestChosen(s, s[0]);
    }
  }

  /** Block 2 is chosen while block 0 is free behind it. */
  lemma LowestMissed()
    ensures Lowest([2, 0], 2) == 2 && !LowestOf(Lowest([2, 0], 2), [2, 0])
  {
    assert Lowest([0], 2) == 2;
    assert [2, 0][1..] == [0];
    assert [2, 0][1] in [2, 0];
  }
}
