/**
  The circular, address-sorted free list of memmgr, on values.  Cell 0 is the header
  named base; the pool's quanta are the cells from 1 on.
 */
module MemLists {
  import opened Tiling

  /**
    One quantum.  It is read as a block header (struct s of mem_header_union) when a
    block starts here; inside an allocation the client may leave anything in it.
   */
  datatype Cell = Cell(next: int, size: int)

  const BASE: int := 0

  ghost predicate Ascending(cyc: seq<int>) {
    forall i, j :: 0 <= i < j < |cyc| ==> cyc[i] < cyc[j]
  }

  /** The position after i on the cycle. */
  function After(cyc: seq<int>, i: int): int
    requires 0 <= i < |cyc|
  {
    if i + 1 < |cyc| then cyc[i + 1] else cyc[0]
  }

  ghost predicate LinksAt(cells: seq<Cell>, cyc: seq<int>, i: int)
    requires 0 <= i < |cyc|
  {
    0 <= cyc[i] < |cells| && cells[cyc[i]].next == After(cyc, i)
  }

  /** One cycle through base, in ascending order, along the next links. */
  ghost predicate Circular(cells: seq<Cell>, cyc: seq<int>) {
    && |cyc| >= 1 && cyc[0] == BASE && Ascending(cyc)
    && forall i {:trigger LinksAt(cells, cyc, i)} :: 0 <= i < |cyc| ==> LinksAt(cells, cyc, i)
  }

  ghost predicate TiledTo(heap: Heap, top: int) {
    1 <= top && if heap == map[] then top == 1 else Tiled(heap, 1, top)
  }

  /** Every block's header holds its size. */
  ghost predicate Sized(cells: seq<Cell>, heap: Heap) {
    && |cells| >= 1 && cells[BASE].size == 0
    && forall o {:trigger o in heap} :: o in heap ==> 0 <= o < |cells| && cells[o].size == heap[o].len
  }

  /** The cycle holds base and the free blocks, nothing else. */
  ghost predicate Members(heap: Heap, cyc: seq<int>) {
    forall o {:trigger o in cyc} :: o in cyc <==> o == BASE || (o in heap && heap[o].free)
  }

  ghost predicate Linked(cells: seq<Cell>, heap: Heap, cyc: seq<int>, top: int) {
    && TiledTo(heap, top) && top <= |cells| && Sized(cells, heap)
    && Circular(cells, cyc) && Members(heap, cyc) && NoAdjacentFree(heap)
  }

  // ----- Where a block belongs on the cycle -----

  /** Position t is the place to insert b: after cyc[t] and before its successor. */
  ghost predicate Slot(cyc: seq<int>, t: int, b: int) {
    0 <= t < |cyc| && cyc[t] < b && (t + 1 < |cyc| ==> b < cyc[t + 1])
  }

  lemma {:induction false} SlotExists(cyc: seq<int>, b: int) returns (t: int)
    requires |cyc| >= 1 && Ascending(cyc) && cyc[0] < b && b !in cyc
    ensures Slot(cyc, t, b)
  {
    t := 0;
    while t + 1 < |cyc| && cyc[t + 1] < b
      invariant 0 <= t < |cyc| && cyc[t] < b
    {
      t := t + 1;
    }
  }

  /** The stopping test of memmgr_free's search. */
  predicate StopsAt(p: int, next: int, b: int) {
    (b > p && b < next) || (p >= next && (b > p || b < next))
  }

  /** The search stops exactly at the place of b. */
  lemma StopsAtSlot(cyc: seq<int>, t: int, b: int, i: int)
    requires Ascending(cyc) && |cyc| >= 1 && cyc[0] == BASE < b && Slot(cyc, t, b) && 0 <= i < |cyc| && b !in cyc
    ensures StopsAt(cyc[i], After(cyc, i), b) <==> i == t
  {
    if i < t {
      assert cyc[i + 1] <= cyc[t];
    }
  }

  // ----- Changing the cycle -----

  function Insert(cyc: seq<int>, t: int, b: int): seq<int>
    requires 0 <= t < |cyc|
  {
    cyc[..t + 1] + [b] + cyc[t + 1..]
  }

  function Remove(cyc: seq<int>, i: int): seq<int>
    requires 0 <= i < |cyc|
  {
    cyc[..i] + cyc[i + 1..]
  }

  /** p and q differ only in cells a and b. */
  ghost predicate SameBut(cells: seq<Cell>, cells1: seq<Cell>, a: int, b: int) {
    |cells| == |cells1| && forall x :: 0 <= x < |cells| && x != a && x != b ==> cells1[x] == cells[x]
  }

  lemma InsertAscending(cyc: seq<int>, t: int, b: int)
    requires Ascending(cyc) && Slot(cyc, t, b)
    ensures Ascending(Insert(cyc, t, b)) && |Insert(cyc, t, b)| == |cyc| + 1 && Insert(cyc, t, b)[0] == cyc[0]
  {
    var c := Insert(cyc, t, b);
    assert forall i :: 0 <= i < |c| ==> c[i] == if i <= t then cyc[i] else if i == t + 1 then b else cyc[i - 1];
  }

  lemma InsertCircular(cells: seq<Cell>, cells1: seq<Cell>, cyc: seq<int>, t: int, b: int)
    requires Circular(cells, cyc) && Slot(cyc, t, b) && b < |cells|
    requires SameBut(cells, cells1, cyc[t], b) && cells1[cyc[t]].next == b && cells1[b].next == After(cyc, t)
    ensures Circular(cells1, Insert(cyc, t, b))
  {
    var c := Insert(cyc, t, b);
    InsertAscending(cyc, t, b);
    hide Ascending, Insert;
    forall i | 0 <= i < |c| ensures LinksAt(cells1, c, i) {
      InsertAfter(cyc, t, b, i);
      if i != t + 1 {
        assert LinksAt(cells, cyc, if i <= t then i else i - 1);
      }
    }
  }

  lemma ReplaceCircular(cells: seq<Cell>, cells1: seq<Cell>, cyc: seq<int>, t: int, b: int)
    requires Circular(cells, cyc) && Slot(cyc, t, b) && t + 1 < |cyc| && b < |cells|
    requires 0 <= cyc[t] < |cells| && |cells1| == |cells|
    requires SameBut(cells, cells1, cyc[t], b) && cells1[cyc[t]].next == b && cells1[b].next == After(cyc, t + 1)
    ensures Circular(cells1, cyc[t + 1 := b])
  {
    var c := cyc[t + 1 := b];
    assert LinksAt(cells, cyc, t + 1);
    forall i | 0 <= i < |c| ensures LinksAt(cells1, c, i) {
      assert LinksAt(cells, cyc, i);
    }
  }

  lemma SameCircular(cells: seq<Cell>, cells1: seq<Cell>, cyc: seq<int>)
    requires Circular(cells, cyc) && |cells1| == |cells|
    requires forall i :: 0 <= i < |cyc| ==> 0 <= cyc[i] < |cells| && cells1[cyc[i]].next == cells[cyc[i]].next
    ensures Circular(cells1, cyc)
  {
    forall i | 0 <= i < |cyc| ensures LinksAt(cells1, cyc, i) {
      assert LinksAt(cells, cyc, i);
    }
  }

  lemma RemoveCircular(cells: seq<Cell>, cells1: seq<Cell>, cyc: seq<int>, t: int, b: int)
    requires Circular(cells, cyc) && 0 <= t && t + 1 < |cyc|
    requires forall i :: 0 <= i < |cyc| && i != t + 1 ==> cyc[i] != b
    requires SameBut(cells, cells1, cyc[t], b) && 0 <= cyc[t] < |cells| && cells1[cyc[t]].next == After(cyc, t + 1)
    ensures Circular(cells1, Remove(cyc, t + 1))
  {
    var c := Remove(cyc, t + 1);
    assert Ascending(c) by {
      assert forall i :: 0 <= i < |c| ==> c[i] == if i <= t then cyc[i] else cyc[i + 1];
    }
    forall i | 0 <= i < |c| ensures LinksAt(cells1, c, i) {
      RemoveAfter(cyc, t, i);
      assert LinksAt(cells, cyc, if i <= t then i else i + 1);
    }
  }

  lemma RemoveAfter(cyc: seq<int>, t: int, i: int)
    requires 0 <= t && t + 1 < |cyc| && 0 <= i < |cyc| - 1
    ensures Remove(cyc, t + 1)[i] == cyc[if i <= t then i else i + 1]
    ensures After(Remove(cyc, t + 1), i) == After(cyc, if i < t then i else i + 1)
  {
  }

  lemma InsertAfter(cyc: seq<int>, t: int, b: int, i: int)
    requires 0 <= t < |cyc| && 0 <= i <= |cyc|
    ensures Insert(cyc, t, b)[i] == if i <= t then cyc[i] else if i == t + 1 then b else cyc[i - 1]
    ensures After(Insert(cyc, t, b), i) == if i == t then b else After(cyc, if i <= t then i else i - 1)
  {
  }

  lemma InsertMembers(heap: Heap, cyc: seq<int>, t: int, b: int, heap1: Heap)
    requires Members(heap, cyc) && 0 <= t < |cyc|
    requires b in heap1 && heap1[b].free && b != BASE
    requires forall o {:trigger o in heap1} {:trigger o in heap} :: o != b ==> ((o in heap1 && heap1[o].free) <==> (o in heap && heap[o].free))
    ensures Members(heap1, Insert(cyc, t, b))
  {
    var c := Insert(cyc, t, b);
    assert cyc == cyc[..t + 1] + cyc[t + 1..];
    forall o ensures o in c <==> o == b || o in cyc {
    }
  }

  lemma RemoveMembers(heap: Heap, cyc: seq<int>, i: int, heap1: Heap)
    requires Members(heap, cyc) && Ascending(cyc) && 0 < i < |cyc| && cyc[0] == BASE
    requires !(cyc[i] in heap1 && heap1[cyc[i]].free)
    requires forall o {:trigger o in heap1} {:trigger o in heap} :: o != cyc[i] ==> ((o in heap1 && heap1[o].free) <==> (o in heap && heap[o].free))
    ensures Members(heap1, Remove(cyc, i))
  {
    var c := Remove(cyc, i);
    assert cyc == cyc[..i] + [cyc[i]] + cyc[i + 1..];
    forall o ensures o in c <==> o != cyc[i] && o in cyc {
      if o in c {
        var x :| 0 <= x < |c| && c[x] == o;
        assert c[x] == if x < i then cyc[x] else cyc[x + 1];
      }
    }
  }

  // ----- The neighbours of a block that is freed -----

  /** A used block, its place on the cycle, and whether the free blocks around that place touch it. */
  ghost predicate Placed(heap: Heap, cyc: seq<int>, top: int, t: int, b: int) {
    && Tiled(heap, 1, top) && b in heap && !heap[b].free && 1 <= b
    && |cyc| >= 1 && cyc[0] == BASE && Ascending(cyc) && Members(heap, cyc) && Slot(cyc, t, b)
  }

  lemma UpperNeighbour(heap: Heap, cyc: seq<int>, top: int, t: int, b: int)
    requires Placed(heap, cyc, top, t, b)
    ensures End(heap, b) == After(cyc, t) <==> End(heap, b) in heap && heap[End(heap, b)].free
    ensures End(heap, b) == After(cyc, t) ==> t + 1 < |cyc|
  {
    var e := End(heap, b);
    if e in heap && heap[e].free {
      assert e in cyc;
      var x :| 0 <= x < |cyc| && cyc[x] == e;
      assert x > t;
      assert cyc[t + 1] in cyc;
      assert cyc[t + 1] in heap;
    }
    if e == After(cyc, t) {
      assert After(cyc, t) in cyc;
    }
  }

  lemma LowerNeighbour(heap: Heap, cyc: seq<int>, top: int, t: int, b: int)
    requires Placed(heap, cyc, top, t, b)
    ensures cyc[t] != BASE ==> cyc[t] in heap && heap[cyc[t]].free
    ensures forall o {:trigger End(heap, o)} :: o in heap && heap[o].free && End(heap, o) == b ==> o == cyc[t]
  {
    assert cyc[t] in cyc && (t > 0 ==> cyc[t] != BASE);
    forall o | o in heap && heap[o].free && End(heap, o) == b ensures o == cyc[t] {
      assert o in cyc;
      var x :| 0 <= x < |cyc| && cyc[x] == o;
      assert x <= t;
    }
  }

  /** The heap after memmgr_free's two merges. */
  function AfterFree(heap: Heap, p: int, b: int, lower: bool, upper: bool): Heap
    requires b in heap && (upper ==> End(heap, b) in heap) && (lower ==> p in heap && p != b && p != End(heap, b))
  {
    var h1 := Freed(heap, b);
    var h2 := if upper then Merged(h1, b, End(heap, b)) else h1;
    if lower then Merged(h2, p, b) else h2
  }

  /** The blocks touching b, as the code's two tests see them. */
  ghost predicate Touching(heap: Heap, top: int, p: int, b: int, lower: bool, upper: bool) {
    && Tiled(heap, 1, top) && b in heap && !heap[b].free && NoAdjacentFree(heap)
    && (upper <==> End(heap, b) in heap && heap[End(heap, b)].free)
    && (lower ==> p in heap && heap[p].free && End(heap, p) == b)
    && (!lower ==> forall o {:trigger End(heap, o)} :: o in heap && heap[o].free ==> End(heap, o) != b)
  }

  lemma FreedTiled(heap: Heap, top: int, b: int)
    requires Tiled(heap, 1, top) && b in heap
    ensures Tiled(Freed(heap, b), 1, top) && Condenses(Freed(heap, b), Freed(heap, b))
  {
    ReplaceTiled(heap, 1, top, b, FreeBlock(heap[b].len));
    CondensesSelf(Freed(heap, b), 1, top);
  }

  /** After the merges the heap is the condensed form of the heap with b freed, and no two free blocks touch. */
  lemma AfterFreeCondenses(heap: Heap, top: int, p: int, b: int, lower: bool, upper: bool)
    requires Touching(heap, top, p, b, lower, upper)
    ensures (lower ==> p != b && p != End(heap, b))
    ensures var h := AfterFree(heap, p, b, lower, upper);
            Tiled(h, 1, top) && Condenses(Freed(heap, b), h)
  {
    var h1 := Freed(heap, b);
    FreedTiled(heap, top, b);
    assert End(h1, b) == End(heap, b);
    if upper {
      MergeCondenses(h1, h1, 1, top, b, End(heap, b));
    }
    var h2 := if upper then Merged(h1, b, End(heap, b)) else h1;
    if lower {
      assert End(h2, p) == End(heap, p) == b;
      MergeCondenses(h1, h2, 1, top, p, b);
    }
  }

  lemma AfterFreeApart(heap: Heap, top: int, p: int, b: int, lower: bool, upper: bool)
    requires Touching(heap, top, p, b, lower, upper) && (lower ==> p != b && p != End(heap, b))
    ensures NoAdjacentFree(AfterFree(heap, p, b, lower, upper))
  {
    var h := AfterFree(heap, p, b, lower, upper);
    forall o ensures !AdjacentFree(h, o) {
      if o in h {
        assert !AdjacentFree(heap, o);
        assert upper ==> !AdjacentFree(heap, End(heap, b));
        assert o != (if lower then p else b) ==> End(h, o) == End(heap, o);
        assert End(h, if lower then p else b) == if upper then End(heap, End(heap, b)) else End(heap, b);
      }
    }
  }

  /** The cycle after memmgr_free has inserted b behind position t. */
  function AfterCycle(cyc: seq<int>, t: int, b: int, lower: bool, upper: bool): seq<int>
    requires 0 <= t < |cyc| && (upper ==> t + 1 < |cyc|)
  {
    if lower then if upper then Remove(cyc, t + 1) else cyc
    else if upper then cyc[t + 1 := b] else Insert(cyc, t, b)
  }

  /** The two headers as memmgr_free leaves them. */
  ghost predicate FreeWrites(cells: seq<Cell>, cells1: seq<Cell>, p: int, b: int, lower: bool, upper: bool) {
    && 0 <= p < |cells| && 0 <= b < |cells| && p != b && SameBut(cells, cells1, p, b)
    && 0 <= cells[p].next < |cells|
    && var next := if upper then cells[cells[p].next].next else cells[p].next;
       var size := cells[b].size + if upper then cells[cells[p].next].size else 0;
       && cells1[b] == Cell(next, size)
       && cells1[p] == if lower then Cell(next, cells[p].size + size) else Cell(b, cells[p].size)
  }

  /** What memmgr_free's tests say about the neighbours. */
  lemma NeighbourTests(cells: seq<Cell>, heap: Heap, cyc: seq<int>, top: int, t: int, b: int, lower: bool, upper: bool)
    requires Linked(cells, heap, cyc, top) && b in heap && !heap[b].free && Slot(cyc, t, b)
    requires 0 <= cyc[t] < |cells| && 0 <= b < |cells|
    requires upper <==> b + cells[b].size == cells[cyc[t]].next
    requires lower <==> cyc[t] + cells[cyc[t]].size == b
    ensures b !in cyc && Touching(heap, top, cyc[t], b, lower, upper)
    ensures After(cyc, t) == cells[cyc[t]].next && (upper ==> t + 1 < |cyc| && cyc[t + 1] == End(heap, b))
  {
    assert LinksAt(cells, cyc, t);
    assert Placed(heap, cyc, top, t, b);
    UpperNeighbour(heap, cyc, top, t, b);
    LowerNeighbour(heap, cyc, top, t, b);
  }

  lemma AfterFreeCircular(cells: seq<Cell>, cells1: seq<Cell>, cyc: seq<int>, t: int, b: int, lower: bool, upper: bool)
    requires Circular(cells, cyc) && Slot(cyc, t, b) && b !in cyc && (upper ==> t + 1 < |cyc|)
    requires FreeWrites(cells, cells1, cyc[t], b, lower, upper)
    ensures Circular(cells1, AfterCycle(cyc, t, b, lower, upper))
  {
    assert LinksAt(cells, cyc, t);
    if upper {
      assert LinksAt(cells, cyc, t + 1);
      if lower {
        RemoveCircular(cells, cells1, cyc, t, b);
      } else {
        ReplaceCircular(cells, cells1, cyc, t, b);
      }
    } else if lower {
      forall i | 0 <= i < |cyc| ensures 0 <= cyc[i] < |cells| && cells1[cyc[i]].next == cells[cyc[i]].next {
        assert LinksAt(cells, cyc, i);
      }
      SameCircular(cells, cells1, cyc);
    } else {
      InsertCircular(cells, cells1, cyc, t, b);
    }
  }

  lemma ReplaceMembers(heap: Heap, cyc: seq<int>, i: int, b: int, heap1: Heap)
    requires Members(heap, cyc) && Ascending(cyc) && 0 < i < |cyc| && cyc[0] == BASE && b != BASE && b !in cyc
    requires b in heap1 && heap1[b].free && cyc[i] !in heap1
    requires forall o {:trigger o in heap1} {:trigger o in heap} ::
               o != b && o != cyc[i] ==> ((o in heap1 && heap1[o].free) <==> (o in heap && heap[o].free))
    ensures Members(heap1, cyc[i := b])
  {
    var c := cyc[i := b];
    forall o ensures o in c <==> o == b || (o != cyc[i] && o in cyc) {
      if x :| 0 <= x < |cyc| && cyc[x] == o && o != cyc[i] {
        assert c[x] == o;
      }
      assert c[i] == b;
    }
  }

  lemma AfterFreeMembers(heap: Heap, cyc: seq<int>, top: int, t: int, b: int, lower: bool, upper: bool)
    requires Placed(heap, cyc, top, t, b) && Touching(heap, top, cyc[t], b, lower, upper) && b !in cyc
    requires upper ==> t + 1 < |cyc| && cyc[t + 1] == End(heap, b)
    requires lower ==> cyc[t] != b && cyc[t] != End(heap, b)
    ensures Members(AfterFree(heap, cyc[t], b, lower, upper), AfterCycle(cyc, t, b, lower, upper))
  {
    var h := AfterFree(heap, cyc[t], b, lower, upper);
    if upper {
      if lower {
        RemoveMembers(heap, cyc, t + 1, h);
      } else {
        ReplaceMembers(heap, cyc, t + 1, b, h);
      }
    } else if !lower {
      InsertMembers(heap, cyc, t, b, h);
    }
  }

  lemma AfterFreeSized(cells: seq<Cell>, cells1: seq<Cell>, heap: Heap, top: int, p: int, b: int, lower: bool, upper: bool)
    requires Sized(cells, heap) && top <= |cells| && Touching(heap, top, p, b, lower, upper)
    requires lower ==> p != b && p != End(heap, b)
    requires p != BASE ==> p in heap && heap[p].free
    requires FreeWrites(cells, cells1, p, b, lower, upper) && (upper ==> cells[p].next == End(heap, b))
    ensures Sized(cells1, AfterFree(heap, p, b, lower, upper))
  {
  }

  /** memmgr_free keeps the whole invariant. */
  lemma FreeLinked(cells: seq<Cell>, cells1: seq<Cell>, heap: Heap, cyc: seq<int>, top: int, t: int, b: int, lower: bool, upper: bool)
    requires Linked(cells, heap, cyc, top) && b in heap && !heap[b].free && Slot(cyc, t, b)
    requires 0 <= cyc[t] < |cells| && 0 <= b < |cells|
    requires upper <==> b + cells[b].size == cells[cyc[t]].next
    requires lower <==> cyc[t] + cells[cyc[t]].size == b
    requires FreeWrites(cells, cells1, cyc[t], b, lower, upper)
    ensures (upper ==> t + 1 < |cyc| && End(heap, b) in heap) && (lower ==> cyc[t] in heap && cyc[t] != b && cyc[t] != End(heap, b))
    ensures Linked(cells1, AfterFree(heap, cyc[t], b, lower, upper), AfterCycle(cyc, t, b, lower, upper), top)
    ensures Condenses(Freed(heap, b), AfterFree(heap, cyc[t], b, lower, upper))
    ensures cyc[t] in AfterCycle(cyc, t, b, lower, upper)
  {
    var p := cyc[t];
    NeighbourTests(cells, heap, cyc, top, t, b, lower, upper);
    assert Placed(heap, cyc, top, t, b);
    LowerNeighbour(heap, cyc, top, t, b);
    AfterFreeCondenses(heap, top, p, b, lower, upper);
    AfterFreeApart(heap, top, p, b, lower, upper);
    AfterFreeCircular(cells, cells1, cyc, t, b, lower, upper);
    AfterFreeMembers(heap, cyc, top, t, b, lower, upper);
    AfterFreeSized(cells, cells1, heap, top, p, b, lower, upper);
    CycleKeeps(cyc, t, b, lower, upper);
  }

  lemma CycleKeeps(cyc: seq<int>, t: int, b: int, lower: bool, upper: bool)
    requires 0 <= t < |cyc| && (upper ==> t + 1 < |cyc|)
    ensures cyc[t] in AfterCycle(cyc, t, b, lower, upper)
  {
    assert AfterCycle(cyc, t, b, lower, upper)[t] == cyc[t];
  }

  // ----- Going round the cycle -----

  /** The position r + 1 steps after position j. */
  function Around(m: int, j: int, r: int): int {
    if j + 1 + r < m then j + 1 + r else j + 1 + r - m
  }

  lemma AroundNext(cyc: seq<int>, j: int, r: int)
    requires 0 <= j < |cyc| && -1 <= r < |cyc| - 1
    ensures 0 <= Around(|cyc|, j, r) < |cyc|
    ensures After(cyc, Around(|cyc|, j, r)) == cyc[Around(|cyc|, j, r + 1)]
  {
  }

  /** The first s members behind position j are too small. */
  ghost predicate SmallUpTo(cells: seq<Cell>, cyc: seq<int>, j: int, s: int, n: int) {
    forall r {:trigger Around(|cyc|, j, r)} :: 0 <= r < s && 0 <= Around(|cyc|, j, r) < |cyc| && 0 <= cyc[Around(|cyc|, j, r)] < |cells|
      ==> cells[cyc[Around(|cyc|, j, r)]].size < n
  }

  /** No free block has n quanta. */
  ghost predicate AllSmaller(heap: Heap, n: int) {
    forall o {:trigger o in heap} :: o in heap && heap[o].free ==> heap[o].len < n
  }

  /** Once round the cycle every free block has been looked at. */
  lemma FullCircle(cells: seq<Cell>, heap: Heap, cyc: seq<int>, top: int, j: int, n: int)
    requires Linked(cells, heap, cyc, top) && 0 <= j < |cyc| && SmallUpTo(cells, cyc, j, |cyc|, n)
    ensures AllSmaller(heap, n)
  {
    forall o | o in heap && heap[o].free ensures heap[o].len < n {
      assert o in cyc;
      var x :| 0 <= x < |cyc| && cyc[x] == o;
      var r := if x > j then x - j - 1 else x - j - 1 + |cyc|;
      assert Around(|cyc|, j, r) == x;
    }
  }

  // ----- Taking a block -----

  /** n quanta are taken from the end of the free block at o. */
  function Taken(heap: Heap, o: int, n: nat, req: nat): Heap
    requires o in heap && n <= heap[o].len
  {
    var at := o + heap[o].len - n;
    var b := Block(n, false, at + 1, req);
    if heap[o].len == n then heap[o := b] else heap[o := FreeBlock(heap[o].len - n)][at := b]
  }

  lemma TakenTiled(heap: Heap, top: int, o: int, n: nat, req: nat)
    requires Tiled(heap, 1, top) && NoAdjacentFree(heap) && o in heap && heap[o].free && 1 <= n <= heap[o].len
    ensures Tiled(Taken(heap, o, n, req), 1, top) && NoAdjacentFree(Taken(heap, o, n, req))
  {
    var h := Taken(heap, o, n, req);
    var at := o + heap[o].len - n;
    var b := Block(n, false, at + 1, req);
    if heap[o].len == n {
      ReplaceTiled(heap, 1, top, o, b);
    } else {
      SplitTiled(heap, 1, top, o, at, FreeBlock(heap[o].len - n), b);
    }
    forall x ensures !AdjacentFree(h, x) {
      if x in h && h[x].free {
        assert !AdjacentFree(heap, x);
        assert x != o ==> End(h, x) == End(heap, x);
      }
    }
  }

  /** The free block is taken whole and leaves the cycle. */
  lemma TakeWhole(cells: seq<Cell>, cells1: seq<Cell>, heap: Heap, cyc: seq<int>, top: int, i: int, n: nat, req: nat)
    requires Linked(cells, heap, cyc, top) && 0 <= i && i + 1 < |cyc| && 1 <= n
    requires cyc[i + 1] in heap && heap[cyc[i + 1]].free && heap[cyc[i + 1]].len == n
    requires 0 <= cyc[i] < |cells| && |cells1| == |cells|
    requires cells1 == cells[cyc[i] := cells[cyc[i]].(next := After(cyc, i + 1))]
    ensures Linked(cells1, Taken(heap, cyc[i + 1], n, req), Remove(cyc, i + 1), top)
    ensures cyc[i] in Remove(cyc, i + 1)
  {
    var o := cyc[i + 1];
    TakenTiled(heap, top, o, n, req);
    assert LinksAt(cells, cyc, i);
    assert LinksAt(cells, cyc, i + 1);
    RemoveCircular(cells, cells1, cyc, i, o);
    RemoveMembers(heap, cyc, i + 1, Taken(heap, o, n, req));
    assert Remove(cyc, i + 1)[i] == cyc[i];
  }

  /** The tail of a larger free block is taken; the block keeps its place on the cycle. */
  lemma TakeTail(cells: seq<Cell>, cells1: seq<Cell>, heap: Heap, cyc: seq<int>, top: int, o: int, n: nat, req: nat)
    requires Linked(cells, heap, cyc, top) && o in heap && heap[o].free && 1 <= n < heap[o].len
    requires |cells1| == |cells| && SameBut(cells, cells1, o, o + heap[o].len - n)
    requires 0 <= o && o + heap[o].len - n < |cells|
    requires cells1[o] == cells[o].(size := heap[o].len - n) && cells1[o + heap[o].len - n].size == n
    ensures Linked(cells1, Taken(heap, o, n, req), cyc, top)
  {
    var h := Taken(heap, o, n, req);
    var at := o + heap[o].len - n;
    TakenTiled(heap, top, o, n, req);
    assert at !in heap && at != BASE;
    assert at !in cyc;
    forall i | 0 <= i < |cyc| ensures 0 <= cyc[i] < |cells| && cells1[cyc[i]].next == cells[cyc[i]].next {
      assert LinksAt(cells, cyc, i);
      assert cyc[i] in cyc;
    }
    SameCircular(cells, cells1, cyc);
  }

  /** A block is handed out of the pool as an allocation, to be freed at once. */
  lemma GrowLinked(cells: seq<Cell>, cells1: seq<Cell>, heap: Heap, cyc: seq<int>, top: int, n: nat)
    requires Linked(cells, heap, cyc, top) && 1 <= n && top + n <= |cells|
    requires cells1 == cells[top := cells[top].(size := n)]
    ensures top !in heap && Linked(cells1, heap[top := Block(n, false, 0, 0)], cyc, top + n)
    ensures top !in cyc
  {
    var b := Block(n, false, 0, 0);
    ExtendTiled(heap, 1, top, b);
    assert top !in cyc;
    forall i | 0 <= i < |cyc| ensures 0 <= cyc[i] < |cells| && cells1[cyc[i]].next == cells[cyc[i]].next {
      assert LinksAt(cells, cyc, i);
      assert cyc[i] in cyc;
    }
    SameCircular(cells, cells1, cyc);
    var h := heap[top := b];
    forall x ensures !AdjacentFree(h, x) {
      assert x in heap ==> !AdjacentFree(heap, x) && End(h, x) == End(heap, x);
    }
  }

  /** The walk of memmgr_alloc stands at p, s steps behind the successor of freep; it has passed small blocks only. */
  ghost predicate Looking(cells: seq<Cell>, cyc: seq<int>, freep: int, p: int, prevp: int, j: int, s: int, n: int) {
    && 0 <= j < |cyc| && 0 <= s < |cyc| && freep == cyc[j]
    && 0 <= Around(|cyc|, j, s) < |cyc| && p == cyc[Around(|cyc|, j, s)]
    && 0 <= Around(|cyc|, j, s - 1) < |cyc| && prevp == cyc[Around(|cyc|, j, s - 1)]
    && SmallUpTo(cells, cyc, j, s, n)
  }

  lemma StartLooking(cells: seq<Cell>, heap: Heap, cyc: seq<int>, top: int, freep: int, n: int) returns (j: int)
    requires Linked(cells, heap, cyc, top) && freep in cyc
    ensures 0 <= freep < |cells| && Looking(cells, cyc, freep, cells[freep].next, freep, j, 0, n)
  {
    j :| 0 <= j < |cyc| && cyc[j] == freep;
    assert LinksAt(cells, cyc, j);
    AroundNext(cyc, j, -1);
  }

  lemma InSight(cells: seq<Cell>, heap: Heap, cyc: seq<int>, top: int, freep: int, p: int, prevp: int, j: int, s: int, n: int)
    requires Linked(cells, heap, cyc, top) && Looking(cells, cyc, freep, p, prevp, j, s, n)
    ensures 0 <= p < |cells| && 0 <= prevp < |cells| && 0 <= cells[p].next < |cells|
    ensures p == freep <==> s == |cyc| - 1
  {
    var x := Around(|cyc|, j, s);
    assert LinksAt(cells, cyc, x) && LinksAt(cells, cyc, Around(|cyc|, j, s - 1));
    assert LinksAt(cells, cyc, if x + 1 < |cyc| then x + 1 else 0);
    assert x == j <==> s == |cyc| - 1;
  }

  lemma KeepLooking(cells: seq<Cell>, heap: Heap, cyc: seq<int>, top: int, freep: int, p: int, prevp: int, j: int, s: int, n: int)
    requires Linked(cells, heap, cyc, top) && Looking(cells, cyc, freep, p, prevp, j, s, n)
    requires 0 <= p < |cells| && cells[p].size < n && s < |cyc| - 1
    ensures Looking(cells, cyc, freep, cells[p].next, p, j, s + 1, n)
  {
    AroundNext(cyc, j, s);
    assert LinksAt(cells, cyc, Around(|cyc|, j, s));
  }

  lemma LookedEverywhere(cells: seq<Cell>, heap: Heap, cyc: seq<int>, top: int, freep: int, p: int, prevp: int, j: int, s: int, n: int)
    requires Linked(cells, heap, cyc, top) && Looking(cells, cyc, freep, p, prevp, j, s, n)
    requires 0 <= p < |cells| && cells[p].size < n && s == |cyc| - 1
    ensures AllSmaller(heap, n)
  {
    FullCircle(cells, heap, cyc, top, j, n);
  }

  /** A block that is large enough is not base, and its predecessor on the cycle is the cell before it. */
  lemma FoundAt(cells: seq<Cell>, heap: Heap, cyc: seq<int>, top: int, freep: int, p: int, prevp: int, j: int, s: int, n: int) returns (i: int)
    requires Linked(cells, heap, cyc, top) && Looking(cells, cyc, freep, p, prevp, j, s, n)
    requires 0 <= p < |cells| && cells[p].size >= n >= 1
    ensures 0 <= i && i + 1 < |cyc| && cyc[i] == prevp && cyc[i + 1] == p
    ensures p in heap && heap[p].free && heap[p].len == cells[p].size && p + heap[p].len <= |cells|
    ensures 0 <= prevp < |cells| && cells[p].next == After(cyc, i + 1) && prevp in cyc && prevp != p
  {
    var x := Around(|cyc|, j, s);
    assert p in cyc && p != BASE;
    i := x - 1;
    assert LinksAt(cells, cyc, x) && LinksAt(cells, cyc, i);
  }

  // ----- Next fit -----

  /** f is the member of the address-sorted cycle just before o. */
  ghost predicate Precedes(heap: Heap, f: int, o: int) {
    && f < o && (f == BASE || (f in heap && heap[f].free))
    && forall x {:trigger x in heap} :: x in heap && heap[x].free && f < x ==> o <= x
  }

  /** Going round from behind f, x is passed before o is reached. */
  predicate PassedBefore(f: int, o: int, x: int) {
    if f < o then f < x < o else f < x || x < o
  }

  /** o is the first free block of at least n quanta behind f. */
  ghost predicate NextFit(heap: Heap, f: int, n: int, o: int) {
    && o in heap && heap[o].free && n <= heap[o].len
    && forall x {:trigger x in heap} :: x in heap && heap[x].free && PassedBefore(f, o, x) ==> heap[x].len < n
  }

  /** The member before a slot is the one that precedes what belongs there. */
  lemma SlotPrecedes(cells: seq<Cell>, heap: Heap, cyc: seq<int>, top: int, t: int, b: int)
    requires Linked(cells, heap, cyc, top) && Slot(cyc, t, b)
    ensures Precedes(heap, cyc[t], b)
  {
    assert cyc[t] in cyc;
    forall x | x in heap && heap[x].free && cyc[t] < x ensures b <= x {
      assert x in cyc;
    }
  }

  /** Where the walk finds a large block is the next fit, and what it comes from precedes it. */
  lemma FoundNext(cells: seq<Cell>, heap: Heap, cyc: seq<int>, top: int, freep: int, p: int, prevp: int, j: int, s: int, n: int)
    requires Linked(cells, heap, cyc, top) && Looking(cells, cyc, freep, p, prevp, j, s, n)
    requires 0 <= p < |cells| && cells[p].size >= n >= 1
    ensures NextFit(heap, freep, n, p) && Precedes(heap, prevp, p)
  {
    var i := FoundAt(cells, heap, cyc, top, freep, p, prevp, j, s, n);
    forall x | x in heap && heap[x].free ensures (prevp < x ==> p <= x) && (PassedBefore(freep, p, x) ==> heap[x].len < n) {
      assert x in cyc;
      var y :| 0 <= y < |cyc| && cyc[y] == x;
      var r := if y > j then y - j - 1 else y - j - 1 + |cyc|;
      assert Around(|cyc|, j, r) == y;
      if PassedBefore(freep, p, x) {
        assert r < s;
      }
    }
  }
}
