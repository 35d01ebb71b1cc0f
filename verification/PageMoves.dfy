/**
  Which page the page allocator takes, and the order it leaves its lists in, as functions
  of the layout and the lists before the call.
 */
module PageMoves {
  import opened FreeLists
  import opened PageSizes
  import opened PageLayout
  import opened PageSteps

  /** n numbers, the last of them first. */
  function CountDown(lo: int, n: nat, step: int): seq<int> {
    if n == 0 then [] else [lo + (n - 1) * step] + CountDown(lo, n - 1, step)
  }

  /** The list without the n pages from a on. */
  function RemovedRun(s: seq<int>, a: int, n: nat): seq<int> {
    if n == 0 then s else Removed(RemovedRun(s, a, n - 1), a + n - 1)
  }

  function FrontOf(s: seq<int>): int {
    if s == [] then 0 else s[0]
  }

  /** The first page of list k is taken off, if there is one. */
  function Popped(lists: seq<seq<int>>, k: nat): (r: seq<seq<int>>)
    requires k < |lists|
    ensures |r| == |lists|
  {
    if lists[k] == [] then lists else lists[k := lists[k][1..]]
  }

  function Pushed(lists: seq<seq<int>>, k: nat, p: int): (r: seq<seq<int>>)
    requires k < |lists|
    ensures |r| == |lists|
  {
    lists[k := [p] + lists[k]]
  }

  /** Page p leaves one list and comes in front of another. */
  function Moved(lists: seq<seq<int>>, from: nat, to: nat, p: int): (r: seq<seq<int>>)
    requires from < |lists| && to < |lists|
    ensures |r| == |lists|
  {
    Pushed(lists[from := Removed(lists[from], p)], to, p)
  }

  /** The small pages of the group at i leave the small free list, and the group comes in front of the large one. */
  function GroupMoved(lists: seq<seq<int>>, i: int): (r: seq<seq<int>>)
    requires |lists| >= 2
    ensures |r| == |lists|
  {
    Pushed(lists[SMALL_FREE := RemovedRun(lists[SMALL_FREE], i, 32)], LARGE_FREE, i)
  }

  /** The lists after recombine_small_pages has dealt with the groups below g, in ascending order. */
  ghost function RecombinedLists(l: Layout, lists: seq<seq<int>>, g: int): (r: seq<seq<int>>)
    requires |lists| >= 2
    ensures |r| == |lists|
    decreases g
  {
    if g <= 1 then lists else
      var before := RecombinedLists(l, lists, g - 1);
      if Recombinable(l, g - 1) then GroupMoved(before, 32 * (g - 1)) else before
  }

  /** A page, or 0, and the lists without it. */
  datatype Grab = Grab(page: int, lists: seq<seq<int>>)

  function FirstOff(lists: seq<seq<int>>, k: nat): (t: Grab)
    requires k < |lists|
    ensures |t.lists| == |lists|
  {
    Grab(FrontOf(lists[k]), Popped(lists, k))
  }

  /** get_large_page: the first free large page; if there is none, the first after recombining. */
  ghost function GrabLarge(l: Layout, lists: seq<seq<int>>): (t: Grab)
    requires |lists| >= 2
    ensures |t.lists| == |lists|
  {
    FirstOff(if lists[LARGE_FREE] != [] then lists else RecombinedLists(l, lists, |l.ps| / 32), LARGE_FREE)
  }

  /** get_small_page: the first free small page; if there is none, the first of a large page, whose others become free. */
  ghost function GrabSmall(l: Layout, lists: seq<seq<int>>): (t: Grab)
    requires |lists| >= 2
    ensures |t.lists| == |lists|
  {
    if lists[SMALL_FREE] != [] then FirstOff(lists, SMALL_FREE) else
      var t := GrabLarge(l, lists);
      if t.page == 0 then t
      else Grab(t.page, t.lists[SMALL_FREE := CountDown(t.page + 1, 31, 1) + t.lists[SMALL_FREE]])
  }

  /** The lists when alloc_get looks at the first partial page of bucket b: it gets a page first when there is none. */
  ghost function Stocked(l: Layout, lists: seq<seq<int>>, b: nat, small: bool): (r: seq<seq<int>>)
    requires |lists| >= 2 && PageList(b) < |lists|
    ensures |r| == |lists|
  {
    if lists[PageList(b)] != [] then lists else
      var t := if small then GrabSmall(l, lists) else GrabLarge(l, lists);
      if t.page == 0 then t.lists else Pushed(t.lists, PageList(b), t.page)
  }

  /** A page that has become full moves to the full list. */
  function Filled(lists: seq<seq<int>>, b: nat, p: int, full: bool): (r: seq<seq<int>>)
    requires FullList(b) < |lists|
    ensures |r| == |lists|
  {
    if full then Moved(lists, PageList(b), FullList(b), p) else lists
  }

  /** Giving back an element of page p: a full page becomes partial, and a page without elements goes to free list k. */
  function Emptied(lists: seq<seq<int>>, b: nat, p: int, full: bool, last: bool, k: nat): (r: seq<seq<int>>)
    requires FullList(b) < |lists| && k < |lists|
    ensures |r| == |lists|
  {
    var partial := if full then Moved(lists, FullList(b), PageList(b), p) else lists;
    if last then Moved(partial, PageList(b), k, p) else partial
  }

  lemma {:induction false} CountDownNext(lo: int, n: nat, step: int)
    ensures [lo + n * step] + CountDown(lo, n, step) == CountDown(lo, n + 1, step)
  {
  }

  lemma CountDownNone(lo: int, step: int)
    ensures CountDown(lo, 0, step) == []
  {
  }

  lemma NoneSpread(lo: int, s: seq<int>)
    ensures CountDown(lo, 0, 1) + s == s
  {
  }

  lemma SpreadNext(lo: int, n: nat, s: seq<int>)
    ensures [lo + n] + (CountDown(lo, n, 1) + s) == CountDown(lo, n + 1, 1) + s
  {
  }

  /** What alloc_get does to the lists: the first page of its bucket's list, got for it if need be, serves the request; 0 for failure. */
  ghost predicate ListsGot(l: Layout, lists0: seq<seq<int>>, m: Layout, lists1: seq<seq<int>>, b: nat, p: nat) {
    |lists0| >= 2 && FullList(b) < |lists0| && b < |m.caps|
    && var stocked := Stocked(l, lists0, b, OnSmallPages(b, l.sp));
       p == FrontOf(stocked[PageList(b)])
       && if p == 0 then lists1 == stocked
          else p < |m.ps| && lists1 == Filled(stocked, b, p, m.ps[p].elementsUsed == m.caps[b])
  }

  lemma StockedAlready(l: Layout, lists: seq<seq<int>>, b: nat)
    requires |lists| >= 2 && PageList(b) < |lists|
    ensures lists[PageList(b)] != [] ==> Stocked(l, lists, b, OnSmallPages(b, l.sp)) == lists
  {
  }

  lemma ListsSearched(l: Layout, lists0: seq<seq<int>>, m: Layout, lists1: seq<seq<int>>, b: nat)
    requires |lists0| >= 2 && FullList(b) < |lists0| && b < |m.caps|
    requires lists1 == Stocked(l, lists0, b, OnSmallPages(b, l.sp)) && lists1[PageList(b)] == []
    ensures ListsGot(l, lists0, m, lists1, b, 0)
  {
  }

  lemma ListsServed(l: Layout, lists0: seq<seq<int>>, stocked: seq<seq<int>>, m: Layout, lists1: seq<seq<int>>, b: nat, p: nat)
    requires |lists0| >= 2 && FullList(b) < |lists0| && b < |m.caps| && stocked == Stocked(l, lists0, b, OnSmallPages(b, l.sp))
    requires 0 < p < |m.ps| && p == FrontOf(stocked[PageList(b)])
    requires lists1 == Filled(stocked, b, p, m.ps[p].elementsUsed == m.caps[b])
    ensures ListsGot(l, lists0, m, lists1, b, p)
  {
  }
}
