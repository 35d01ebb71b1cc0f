/**
  Page headers and the doubly linked page lists threaded through them.  A link holds a
  page number; page 0 always belongs to the pool's header, so 0 ends a list.
 */
module PageLists {
  import opened Bitmaps
  import opened FreeLists

  datatype Page = Page(next: nat, prev: nat, elementsUsed: nat, bucket: nat, used: seq<Word>)

  function LinkTo(x: nat): int {
    if x == 0 then -1 else x
  }

  /** The links alone, read as links between atoms. */
  function Links(ps: seq<Page>): (r: seq<Atom>)
    ensures |r| == |ps|
    ensures forall i :: 0 <= i < |ps| ==> r[i] == Atom(LinkTo(ps[i].next), LinkTo(ps[i].prev), [])
  {
    seq(|ps|, i requires 0 <= i < |ps| => Atom(LinkTo(ps[i].next), LinkTo(ps[i].prev), []))
  }

  ghost predicate Chain(ps: seq<Page>, head: nat, s: seq<int>) {
    LinkTo(head) == Head(s) && Threaded(Links(ps), s)
  }

  ghost predicate AllChains(ps: seq<Page>, heads: seq<nat>, lists: seq<seq<int>>) {
    |heads| == |lists| && forall k :: 0 <= k < |lists| ==> Chain(ps, heads[k], lists[k])
  }

  /** place tells for every page on which list it is, if any. */
  ghost predicate Listed(lists: seq<seq<int>>, place: seq<int>) {
    forall k, x {:trigger x in lists[k]} :: 0 <= k < |lists| ==> (x in lists[k] <==> 0 <= x < |place| && place[x] == k)
  }

  /** The page lists: every list is well linked, and place says which pages are on it. */
  ghost predicate Chained(ps: seq<Page>, heads: seq<nat>, lists: seq<seq<int>>, place: seq<int>) {
    AllChains(ps, heads, lists) && Listed(lists, place) && |place| == |ps|
  }

  /** Only the links may differ. */
  ghost predicate SameBody(p: Page, q: Page) {
    p.elementsUsed == q.elementsUsed && p.bucket == q.bucket && p.used == q.used
  }

  ghost predicate SameBodies(ps: seq<Page>, qs: seq<Page>) {
    |ps| == |qs| && forall i :: 0 <= i < |ps| ==> SameBody(ps[i], qs[i])
  }

  /** Pages that are neither x nor on list k are the same. */
  ghost predicate SameOff(ps: seq<Page>, qs: seq<Page>, place: seq<int>, k: int, x: int) {
    |ps| == |qs| == |place| && forall i :: 0 <= i < |ps| && i != x && place[i] != k ==> ps[i] == qs[i]
  }

  /** The first page of a list, and what its header says. */
  lemma FirstListed(ps: seq<Page>, heads: seq<nat>, lists: seq<seq<int>>, place: seq<int>, k: nat)
    requires Chained(ps, heads, lists, place) && k < |lists|
    ensures heads[k] == 0 <==> forall x :: 0 <= x < |place| ==> place[x] != k
    ensures heads[k] != 0 ==> heads[k] < |ps| && place[heads[k]] == k && ps[heads[k]].prev == 0
    ensures place == [] || place[0] != k
    ensures heads[k] == (if lists[k] == [] then 0 else lists[k][0]) && (heads[k] == 0 <==> lists[k] == [])
  {
    hide Threaded;
    var s := lists[k];
    assert Chain(ps, heads[k], s);
    if s != [] {
      HeadLinks(Links(ps), s);
    }
    if s == [] {
      forall x | 0 <= x < |place| ensures place[x] != k {
        assert x !in lists[k];
      }
    } else {
      assert s[0] in lists[k];
      assert place[heads[k]] == k;
    }
    NoZero(ps, heads[k], s);
    assert 0 !in lists[k];
  }

  lemma HeadLinks(pool: seq<Atom>, s: seq<int>)
    requires Threaded(pool, s) && s != []
    ensures 0 <= s[0] < |pool| && pool[s[0]].prev == -1
  {
  }

  lemma NoZero(ps: seq<Page>, head: nat, s: seq<int>)
    requires Chain(ps, head, s)
    ensures 0 !in s
  {
    forall j | 0 <= j < |s| ensures s[j] != 0 {
      if j > 0 {
        assert Links(ps)[s[j - 1]].next == NextOf(s, j - 1);
      }
    }
  }

  // ----- add_to_list -----

  function PushPages(ps: seq<Page>, h: nat, p: nat): (r: seq<Page>)
    requires p < |ps| && h < |ps|
    ensures |r| == |ps|
  {
    var a := ps[p := ps[p].(next := h)];
    var b := if h != 0 then a[h := a[h].(prev := p)] else a;
    b[p := b[p].(prev := 0)]
  }

  lemma PushLinks(ps: seq<Page>, h: nat, p: nat)
    requires 0 < p < |ps| && h < |ps| && h != p
    ensures Links(PushPages(ps, h, p)) == LinkPool(Links(ps), p, LinkTo(h))
    ensures SameBodies(ps, PushPages(ps, h, p))
    ensures PushPages(ps, h, p)[p] == ps[p].(next := h, prev := 0)
  {
  }

  lemma PushChained(ps: seq<Page>, heads: seq<nat>, lists: seq<seq<int>>, place: seq<int>, k: nat, p: nat)
    requires Chained(ps, heads, lists, place) && k < |lists| && 0 < p < |ps| && place[p] < 0
    ensures heads[k] < |ps| && heads[k] != p && (heads[k] != 0 ==> ps[heads[k]].prev == 0)
    ensures Chained(PushPages(ps, heads[k], p), heads[k := p], lists[k := [p] + lists[k]], place[p := k])
    ensures SameBodies(ps, PushPages(ps, heads[k], p))
    ensures SameOff(ps, PushPages(ps, heads[k], p), place, k, p)
  {
    hide Threaded, PushPages, Links, LinkPool, SameBody;
    FirstListed(ps, heads, lists, place, k);
    assert p !in lists[k];
    PushLinks(ps, heads[k], p);
    assert Chain(ps, heads[k], lists[k]);
    LinkThreads(Links(ps), lists[k], p);
    PushOthers(ps, heads, lists, place, k, p);
    PushFrame(ps, heads[k], p);
    ListedPush(lists, place, k, p);
  }

  lemma PushFrame(ps: seq<Page>, h: nat, p: nat)
    requires p < |ps| && h < |ps|
    ensures forall i :: 0 <= i < |ps| && i != p && (i != h || h == 0) ==> PushPages(ps, h, p)[i] == ps[i]
  {
  }

  lemma PushOthers(ps: seq<Page>, heads: seq<nat>, lists: seq<seq<int>>, place: seq<int>, k: nat, p: nat)
    requires Chained(ps, heads, lists, place) && k < |lists| && 0 < p < |ps| && place[p] < 0
    requires heads[k] < |ps| && (heads[k] != 0 ==> place[heads[k]] == k)
    ensures forall l :: 0 <= l < |lists| && l != k ==> Chain(PushPages(ps, heads[k], p), heads[l], lists[l])
  {
    hide Threaded, PushPages, Links;
    PushFrame(ps, heads[k], p);
    forall l | 0 <= l < |lists| && l != k ensures Chain(PushPages(ps, heads[k], p), heads[l], lists[l]) {
      assert Chain(ps, heads[l], lists[l]);
      assert forall x :: x in lists[l] ==> 0 <= x < |ps| && place[x] == l;
      ChainFrame(ps, PushPages(ps, heads[k], p), heads[l], lists[l]);
    }
  }

  lemma ChainFrame(ps: seq<Page>, qs: seq<Page>, head: nat, s: seq<int>)
    requires Chain(ps, head, s) && |qs| == |ps|
    requires forall x :: x in s ==> 0 <= x < |ps| && qs[x].next == ps[x].next && qs[x].prev == ps[x].prev
    ensures Chain(qs, head, s)
  {
    hide Threaded;
    ThreadedFrame(Links(ps), Links(qs), s);
  }

  lemma ListedPush(lists: seq<seq<int>>, place: seq<int>, k: nat, p: nat)
    requires Listed(lists, place) && k < |lists| && p < |place| && place[p] < 0
    ensures Listed(lists[k := [p] + lists[k]], place[p := k])
  {
    var now := lists[k := [p] + lists[k]];
    forall l, x {:trigger x in now[l]} | 0 <= l < |lists|
      ensures x in now[l] <==> 0 <= x < |place| && place[p := k][x] == l
    {
      assert x in lists[l] <==> 0 <= x < |place| && place[x] == l;
    }
  }

  // ----- del_from_list and pop_from_list -----

  function DeletePages(ps: seq<Page>, p: nat): (r: seq<Page>)
    requires p < |ps| && ps[p].next < |ps| && ps[p].prev < |ps|
    ensures |r| == |ps|
  {
    var next, prev := ps[p].next, ps[p].prev;
    var a := if prev == 0 then ps else ps[prev := ps[prev].(next := next)];
    if next != 0 then a[next := a[next].(prev := prev)] else a
  }

  function DeleteHead(ps: seq<Page>, heads: seq<nat>, k: nat, p: nat): (r: seq<nat>)
    requires p < |ps| && k < |heads|
    ensures |r| == |heads|
  {
    if ps[p].prev == 0 then heads[k := ps[p].next] else heads
  }

  ghost function IndexIn(s: seq<int>, x: int): (j: int)
    requires x in s
    ensures 0 <= j < |s| && s[j] == x
  {
    var j :| 0 <= j < |s| && s[j] == x;
    j
  }

  lemma DeleteLinks(ps: seq<Page>, p: nat)
    requires p < |ps| && ps[p].next < |ps| && ps[p].prev < |ps|
    ensures Links(DeletePages(ps, p)) == UnlinkPool(Links(ps), LinkTo(ps[p].next), LinkTo(ps[p].prev))
    ensures SameBodies(ps, DeletePages(ps, p))
  {
  }

  lemma DeleteFrame(ps: seq<Page>, p: nat)
    requires p < |ps| && ps[p].next < |ps| && ps[p].prev < |ps|
    ensures forall i :: 0 < i < |ps| && i != ps[p].next && i != ps[p].prev ==> DeletePages(ps, p)[i] == ps[i]
    ensures |ps| > 0 ==> DeletePages(ps, p)[0] == ps[0]
  {
  }

  /** The neighbours of a listed page are listed, or there are none. */
  lemma Neighbours(ps: seq<Page>, heads: seq<nat>, lists: seq<seq<int>>, place: seq<int>, k: nat, p: nat)
    requires Chained(ps, heads, lists, place) && k < |lists| && p < |ps| && place[p] == k
    ensures p in lists[k] && 0 < p
    ensures ps[p].next < |ps| && ps[p].prev < |ps|
    ensures ps[p].next != 0 ==> place[ps[p].next] == k
    ensures ps[p].prev != 0 ==> place[ps[p].prev] == k
    ensures ps[p].prev == 0 <==> heads[k] == p
    ensures LinkTo(ps[p].next) == NextOf(lists[k], IndexIn(lists[k], p))
    ensures LinkTo(ps[p].prev) == PrevOf(lists[k], IndexIn(lists[k], p))
  {
    var s := lists[k];
    assert p in lists[k];
    var j := IndexIn(s, p);
    assert Chain(ps, heads[k], s);
    NoZero(ps, heads[k], s);
    assert j + 1 < |s| ==> s[j + 1] in lists[k];
    assert j > 0 ==> s[j - 1] in lists[k];
  }

  lemma DeleteChain(ps: seq<Page>, head: nat, s: seq<int>, p: nat)
    requires Chain(ps, head, s) && p < |ps| && p in s && ps[p].next < |ps| && ps[p].prev < |ps|
    requires LinkTo(ps[p].next) == NextOf(s, IndexIn(s, p)) && LinkTo(ps[p].prev) == PrevOf(s, IndexIn(s, p))
    ensures Chain(DeletePages(ps, p), if ps[p].prev == 0 then ps[p].next else head, Removed(s, p))
  {
    hide Threaded, DeletePages, Links, UnlinkPool;
    DeleteLinks(ps, p);
    var j := IndexIn(s, p);
    WithinOf(Links(ps), s);
    RemovedWithout(s, j);
    NeighboursInPool(s, j, |ps|);
    UnlinkThreads(Links(ps), s, j);
    HeadWithout(s, j);
  }

  lemma WithinOf(pool: seq<Atom>, s: seq<int>)
    requires Threaded(pool, s)
    ensures Within(s, |pool|) && Distinct(s)
  {
  }

  lemma DeleteChained(ps: seq<Page>, heads: seq<nat>, lists: seq<seq<int>>, place: seq<int>, k: nat, p: nat)
    requires Chained(ps, heads, lists, place) && k < |lists| && p < |ps| && place[p] == k
    ensures 0 < p && p in lists[k] && ps[p].next < |ps| && ps[p].prev < |ps| && (ps[p].prev == 0 <==> heads[k] == p)
    ensures Chained(DeletePages(ps, p), DeleteHead(ps, heads, k, p), lists[k := Removed(lists[k], p)], place[p := -1])
    ensures SameBodies(ps, DeletePages(ps, p))
    ensures SameOff(ps, DeletePages(ps, p), place, k, p)
  {
    hide Threaded, DeletePages, Links, UnlinkPool, SameBody, Removed;
    Neighbours(ps, heads, lists, place, k, p);
    DeleteLinks(ps, p);
    DeleteFrame(ps, p);
    assert Chain(ps, heads[k], lists[k]);
    DeleteChain(ps, heads[k], lists[k], p);
    forall l | 0 <= l < |lists| && l != k ensures Chain(DeletePages(ps, p), heads[l], lists[l]) {
      assert Chain(ps, heads[l], lists[l]);
      assert forall x :: x in lists[l] ==> 0 <= x < |ps| && place[x] == l;
      NoZero(ps, heads[l], lists[l]);
      ChainFrame(ps, DeletePages(ps, p), heads[l], lists[l]);
    }
    RemovedMembers(ps, heads[k], lists[k], p);
    ListedRemove(lists, place, k, p);
  }

  lemma RemovedMembers(ps: seq<Page>, head: nat, s: seq<int>, p: int)
    requires Chain(ps, head, s) && p in s
    ensures forall x :: x in Removed(s, p) <==> x in s && x != p
  {
    WithinOf(Links(ps), s);
    RemovedWithout(s, IndexIn(s, p));
    WithoutMembers(s, IndexIn(s, p));
  }

  lemma ListedRemove(lists: seq<seq<int>>, place: seq<int>, k: nat, p: nat)
    requires Listed(lists, place) && k < |lists| && p < |place| && p in lists[k]
    requires forall x :: x in Removed(lists[k], p) <==> x in lists[k] && x != p
    ensures Listed(lists[k := Removed(lists[k], p)], place[p := -1])
  {
    hide Removed;
    var now := lists[k := Removed(lists[k], p)];
    assert place[p] == k;
    forall l, x {:trigger x in now[l]} | 0 <= l < |lists|
      ensures x in now[l] <==> 0 <= x < |place| && place[p := -1][x] == l
    {
      assert x in lists[l] <==> 0 <= x < |place| && place[x] == l;
    }
  }

  /** The lists depend on the links alone. */
  lemma BodyChained(ps: seq<Page>, qs: seq<Page>, heads: seq<nat>, lists: seq<seq<int>>, place: seq<int>)
    requires Chained(ps, heads, lists, place) && |qs| == |ps|
    requires forall i :: 0 <= i < |ps| ==> qs[i].next == ps[i].next && qs[i].prev == ps[i].prev
    ensures Chained(qs, heads, lists, place)
  {
    hide Threaded;
    forall k | 0 <= k < |lists| ensures Chain(qs, heads[k], lists[k]) {
      assert Chain(ps, heads[k], lists[k]);
      assert forall x :: x in lists[k] ==> 0 <= x < |ps|;
      ChainFrame(ps, qs, heads[k], lists[k]);
    }
  }

  /** A page put alone on an empty list: only its next link has to be written. */
  lemma AloneChained(ps: seq<Page>, qs: seq<Page>, heads: seq<nat>, lists: seq<seq<int>>, place: seq<int>, k: nat, p: nat)
    requires Chained(ps, heads, lists, place) && k < |lists| && 0 < p < |ps| && place[p] < 0 && heads[k] == 0
    requires ps[p].prev == 0 && |qs| == |ps| && qs[p].next == 0 && qs[p].prev == 0
    requires forall i :: 0 <= i < |ps| && i != p ==> qs[i] == ps[i]
    ensures Chained(qs, heads[k := p], lists[k := [p] + lists[k]], place[p := k])
  {
    hide Chain, Listed;
    PushChained(ps, heads, lists, place, k, p);
    BodyChained(PushPages(ps, 0, p), qs, heads[k := p], lists[k := [p] + lists[k]], place[p := k]);
  }

  /** The lists do not notice a write to a page that is on none of them. */
  lemma UnlistedChained(ps: seq<Page>, heads: seq<nat>, lists: seq<seq<int>>, place: seq<int>, q: nat, data: Page)
    requires Chained(ps, heads, lists, place) && q < |ps| && place[q] < 0
    ensures Chained(ps[q := data], heads, lists, place)
  {
    hide Threaded;
    forall k | 0 <= k < |lists| ensures Chain(ps[q := data], heads[k], lists[k]) {
      assert Chain(ps, heads[k], lists[k]);
      assert forall x :: x in lists[k] ==> 0 <= x < |ps| && place[x] == k;
      ChainFrame(ps, ps[q := data], heads[k], lists[k]);
    }
  }

  lemma EmptyChained(ps: seq<Page>, heads: seq<nat>, lists: seq<seq<int>>, place: seq<int>)
    requires |heads| == |lists| && |place| == |ps|
    requires forall k :: 0 <= k < |lists| ==> heads[k] == 0 && lists[k] == []
    requires forall p :: 0 <= p < |place| ==> place[p] == -1
    ensures Chained(ps, heads, lists, place)
  {
  }
}
