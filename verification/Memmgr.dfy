/** memmgr: a Kernighan and Ritchie free list over a pool that is handed out bit by bit. */
module Memmgr {
  import opened Wrappers
  import opened Tiling
  import opened MemLists

  const NULL: int := -1
  const QUANTUM: int := 16
  const MIN_POOL_ALLOC_QUANTAS: int := 8

  /** Quanta for a request: the bytes rounded up, and one for the header. */
  function Quantas(nbytes: nat): (n: nat)
    ensures n >= 1 && (n - 1) * QUANTUM >= nbytes > (n - 2) * QUANTUM
  {
    (nbytes + QUANTUM - 1) / QUANTUM + 1
  }

  /** The quanta that are taken from the pool when n are missing. */
  function PoolShare(n: nat): (r: nat)
    ensures r >= n && r >= MIN_POOL_ALLOC_QUANTAS
    ensures r == n || r == MIN_POOL_ALLOC_QUANTAS
  {
    if n < MIN_POOL_ALLOC_QUANTAS then MIN_POOL_ALLOC_QUANTAS else n
  }

  /** Allocated blocks keep their header and their data. */
  ghost predicate KeepsCells(heap: Heap, cells: seq<Cell>, cells1: seq<Cell>) {
    && |cells| == |cells1|
    && forall o, x {:trigger heap[o], cells1[x]} ::
         o in heap && !heap[o].free && 0 <= x < |cells| && o <= x < o + heap[o].len ==> cells1[x] == cells[x]
  }

  lemma FreeKeeps(cells: seq<Cell>, cells1: seq<Cell>, heap: Heap, cyc: seq<int>, top: int, t: int, b: int)
    requires Linked(cells, heap, cyc, top) && b in heap && 0 <= t < |cyc|
    requires SameBut(cells, cells1, cyc[t], b)
    ensures KeepsCells(heap - {b}, cells, cells1)
  {
    assert cyc[t] in cyc;
  }

  /** A free block that holds n quanta. */
  ghost predicate HasRoom(heap: Heap, n: int) {
    exists o {:trigger o in heap} :: o in heap && heap[o].free && heap[o].len >= n
  }

  lemma RoomOrSmaller(heap: Heap, n: int)
    ensures HasRoom(heap, n) <==> !AllSmaller(heap, n)
  {
  }

  /** The block that a condensed heap has at a free block of the original is at least as large. */
  lemma GrownRoom(h0: Heap, h1: Heap, top: int, at: int, n: nat)
    requires Tiled(h0, 1, top) && Tiled(h1, 1, top) && Condenses(h0, h1)
    requires at in h0 && h0[at].free && h0[at].len >= n && n >= 1
    ensures HasRoom(h1, n)
  {
    var o := Cover(h1, 1, top, 1, at);
    assert o in h0;
    assert h1[o].free;
    var q := Cover(h1, 1, top, 1, at + h0[at].len - 1);
    assert q in h0;
  }

  /** The heap after n quanta are added behind the last block, not yet merged. */
  function Grown(heap: Heap, top: int, n: nat): Heap {
    heap[top := FreeBlock(n)]
  }

  lemma GrownFree(heap: Heap, top: int, n: nat)
    requires top !in heap
    ensures Freed(heap[top := Block(n, false, 0, 0)], top) == Grown(heap, top, n)
    ensures heap[top := Block(n, false, 0, 0)] - {top} == heap
  {
  }

  lemma GrowKeeps(heap: Heap, cells: seq<Cell>, cells1: seq<Cell>, cyc: seq<int>, top: int, n: nat)
    requires Linked(cells, heap, cyc, top) && top + n <= |cells| && 1 <= n
    requires cells1 == cells[top := cells[top].(size := n)]
    ensures KeepsCells(heap, cells, cells1)
  {
  }

  lemma KeepsTrans(heap: Heap, cells: seq<Cell>, cells1: seq<Cell>, cells2: seq<Cell>)
    requires KeepsCells(heap, cells, cells1) && KeepsCells(heap, cells1, cells2)
    ensures KeepsCells(heap, cells, cells2)
  {
  }

  /** Cells that no used block owns may change. */
  lemma KeepsTaken(heap: Heap, cells: seq<Cell>, cells1: seq<Cell>, cyc: seq<int>, top: int, a: int, b: int)
    requires Linked(cells, heap, cyc, top) && SameBut(cells, cells1, a, b) && a in cyc
    requires b == a || (a in heap && heap[a].free && a < b < a + heap[a].len)
    ensures KeepsCells(heap, cells, cells1)
  {
  }

  /** Every used block of h0 is one of h1. */
  ghost predicate UsedIn(h0: Heap, h1: Heap) {
    forall o {:trigger h0[o]} {:trigger h1[o]} :: o in h0 && !h0[o].free ==> o in h1 && h1[o] == h0[o]
  }

  lemma KeepsFewer(h0: Heap, h1: Heap, cells: seq<Cell>, cells1: seq<Cell>, cells2: seq<Cell>)
    requires UsedIn(h0, h1) && KeepsCells(h0, cells, cells1) && KeepsCells(h1, cells1, cells2)
    ensures KeepsCells(h0, cells, cells2)
  {
    forall o, x | o in h0 && !h0[o].free && 0 <= x < |cells| && o <= x < o + h0[o].len ensures cells2[x] == cells[x] {
      assert h1[o] == h0[o];
    }
  }

  lemma UsedSelf(heap: Heap)
    ensures UsedIn(heap, heap)
  {
  }

  lemma GrownUsed(h0: Heap, h1: Heap, top: int, n: nat)
    requires top !in h0 && Condenses(Grown(h0, top, n), h1)
    ensures UsedIn(h0, h1)
  {
    forall o | o in h0 && !h0[o].free ensures o in h1 && h1[o] == h0[o] {
      assert Grown(h0, top, n)[o] == h0[o];
    }
  }

  /** The heap that a request of n quanta is served from: the present one, or the present one grown by one pool block. */
  ghost predicate ServedFrom(h0: Heap, top0: int, n: nat, before: Heap) {
    if AllSmaller(h0, n) then top0 !in h0 && Condenses(Grown(h0, top0, PoolShare(n)), before) && NoAdjacentFree(before)
    else before == h0
  }

  /** At most one free block has n quanta. */
  ghost predicate OneFit(heap: Heap, n: int) {
    forall x, y :: x in heap && y in heap && heap[x].free && heap[y].free && heap[x].len >= n && heap[y].len >= n ==> x == y
  }

  /** Then it does not matter where the search starts. */
  lemma AnyStart(heap: Heap, f: int, g: int, n: int, o: int)
    requires NextFit(heap, f, n, o) && (f == g || OneFit(heap, n))
    ensures NextFit(heap, g, n, o)
  {
  }

  /** When everything was too small, only the block around the new one can be large enough. */
  lemma GrownOneFit(cells0: seq<Cell>, cells1: seq<Cell>, h0: Heap, cyc0: seq<int>, h1: Heap, cyc1: seq<int>,
                    top0: int, top1: int, share: nat, n: nat)
    requires Linked(cells0, h0, cyc0, top0) && Linked(cells1, h1, cyc1, top1) && AllSmaller(h0, n) && share >= 1
    requires top1 == top0 + share && Condenses(Grown(h0, top0, share), h1)
    ensures OneFit(h1, n)
  {
    hide Circular, Members, Sized, Condenses, NoAdjacentFree;
    ExtendTiled(h0, 1, top0, FreeBlock(share));
    forall x | x in h1 && h1[x].free && h1[x].len >= n ensures x <= top0 < End(h1, x) {
      LargeAround(h0, h1, top0, share, x);
    }
  }

  /** A free block that has grown lies around the new one. */
  lemma LargeAround(h0: Heap, h1: Heap, top0: int, share: nat, x: int)
    requires TiledTo(h0, top0) && NoAdjacentFree(h0) && share >= 1
    requires Tiled(h1, 1, top0 + share) && Condenses(Grown(h0, top0, share), h1) && x in h1 && h1[x].free
    ensures x <= top0 < End(h1, x) || (x in h0 && h0[x].free && h0[x].len >= h1[x].len)
  {
    var g := Grown(h0, top0, share);
    assert x in g;
    if x != top0 {
      assert !AdjacentFree(h0, x);
      var e := End(h0, x);
      assert e == top0 || g[e] == h0[e];
    }
  }

  lemma ServedNow(h0: Heap, top0: int, n: nat, p: int)
    requires p in h0 && h0[p].free && h0[p].len >= n
    ensures ServedFrom(h0, top0, n, h0) && !AllSmaller(h0, n)
  {
  }

  lemma ServedLater(h0: Heap, top0: int, n: nat, h1: Heap)
    requires AllSmaller(h0, n) && top0 !in h0 && Condenses(Grown(h0, top0, PoolShare(n)), h1) && NoAdjacentFree(h1)
    ensures ServedFrom(h0, top0, n, h1) && UsedIn(h0, h1)
  {
    GrownUsed(h0, h1, top0, PoolShare(n));
  }

  /** The free blocks of h1 are exactly the maximal runs of quanta that nobody owns in h0. */
  ghost predicate FreeAreRuns(h0: Heap, h1: Heap, top: int) {
    forall a, e {:trigger MaximalRun(h0, top, a, e)} :: MaximalRun(h0, top, a, e) <==> a in h1 && h1[a].free && e == a + h1[a].len
  }

  lemma RunsAfterFree(h0: Heap, h1: Heap, top: int)
    requires Tiled(h0, 1, top) && Tiled(h1, 1, top) && Condenses(h0, h1) && NoAdjacentFree(h1)
    ensures FreeAreRuns(h0, h1, top)
  {
    hide MaximalRun, Tiled, Condenses;
    forall a, e ensures MaximalRun(h0, top, a, e) <==> a in h1 && h1[a].free && e == a + h1[a].len {
      RunsAreBlocks(h0, h1, 1, top, a, e);
    }
  }

  class Buffer {
    const cells: array<Cell>
    var freep: int
    var poolFreePos: nat

    ghost var heap: Heap
    ghost var cyc: seq<int>
    ghost var top: int

    ghost predicate Chain()
      reads this, cells
    {
      Linked(cells[..], heap, cyc, top) && freep in cyc
    }

    ghost predicate Valid()
      reads this, cells
    {
      && cells.Length >= 1 && top == poolFreePos + 1 <= cells.Length
      && if freep == NULL then heap == map[] && poolFreePos == 0 else Chain()
    }

    /** memmgr_init: capacity is the pool size in quanta, over memory that may hold anything. */
    constructor (capacity: nat)
      ensures Valid() && fresh(cells) && heap == map[] && poolFreePos == 0 && freep == NULL
      ensures cells.Length == capacity + 1
    {
      cells := new Cell[capacity + 1];
      freep := NULL;
      poolFreePos := 0;
      heap, cyc, top := map[], [BASE], 1;
      new;
      cells[BASE] := Cell(0, 0);
    }

    /** The search of memmgr_free for the place of a block. */
    method FindPlace(b: int) returns (p: int, ghost t: int)
      requires Chain() && b in heap && !heap[b].free
      ensures Slot(cyc, t, b) && p == cyc[t] && 0 <= p < cells.Length && p != b && b < cells.Length
      ensures 0 <= cells[p].next < cells.Length && cells[p].next == After(cyc, t)
    {
      NotOnCycle(cells[..], heap, cyc, top, b);
      ghost var target := SlotExists(cyc, b);
      p := freep;
      ghost var i :| 0 <= i < |cyc| && cyc[i] == freep;
      LinkHere(cells[..], heap, cyc, top, i);
      StopsAtSlot(cyc, target, b, i);
      while !StopsAt(p, cells[p].next, b)
        invariant 0 <= i < |cyc| && p == cyc[i] && 0 <= p < cells.Length && cells[p].next == After(cyc, i)
        invariant StopsAt(p, cells[p].next, b) <==> i == target
        decreases if i <= target then target - i else target + |cyc| - i
      {
        p := cells[p].next;
        i := if i + 1 < |cyc| then i + 1 else 0;
        LinkHere(cells[..], heap, cyc, top, i);
        StopsAtSlot(cyc, target, b, i);
      }
      t := target;
      LinkNext(cells[..], heap, cyc, top, t);
    }

    lemma NotOnCycle(mem: seq<Cell>, heap: Heap, cyc: seq<int>, top: int, b: int)
      requires Linked(mem, heap, cyc, top) && b in heap && !heap[b].free
      ensures b !in cyc && 1 <= b < |mem| && b + heap[b].len <= top && heap[b].len >= 1 && mem[b].size == heap[b].len
    {
    }

    lemma LinkHere(mem: seq<Cell>, heap: Heap, cyc: seq<int>, top: int, i: int)
      requires Linked(mem, heap, cyc, top) && 0 <= i < |cyc|
      ensures 0 <= cyc[i] < |mem| && mem[cyc[i]].next == After(cyc, i) && Ascending(cyc) && cyc[0] == BASE
    {
      assert LinksAt(mem, cyc, i);
    }

    lemma LinkNext(mem: seq<Cell>, heap: Heap, cyc: seq<int>, top: int, i: int)
      requires Linked(mem, heap, cyc, top) && 0 <= i < |cyc|
      ensures 0 <= After(cyc, i) < |mem|
    {
      assert LinksAt(mem, cyc, if i + 1 < |cyc| then i + 1 else 0);
    }

    /** memmgr_free: the block whose payload starts at ap is freed and merged with what it touches. */
    method FreeAt(ap: int)
      requires Chain() && ap - 1 in heap && !heap[ap - 1].free
      modifies this`freep, this`heap, this`cyc, cells
      ensures Chain() && NoAdjacentFree(heap) && Condenses(Freed(old(heap), ap - 1), heap)
      ensures Precedes(old(heap), freep, ap - 1)
      ensures KeepsCells(old(heap) - {ap - 1}, old(cells[..]), cells[..])
    {
      hide Linked, NoAdjacentFree, Condenses, KeepsCells, Slot, SameBut, Precedes;
      var block := ap - 1;
      ghost var t;
      var p;
      p, t := FindPlace(block);
      SlotPrecedes(cells[..], heap, cyc, top, t, block);
      ghost var upper := block + cells[block].size == cells[p].next;
      ghost var lower := p + cells[p].size == block;
      MergeHeaders(block, p);
      FreeLinked(old(cells[..]), cells[..], heap, cyc, top, t, block, lower, upper);
      FreeKeeps(old(cells[..]), cells[..], heap, cyc, top, t, block);
      heap := AfterFree(heap, p, block, lower, upper);
      cyc := AfterCycle(cyc, t, block, lower, upper);
      freep := p;
      LinkedApart(cells[..], heap, cyc, top);
    }

    lemma LinkedApart(mem: seq<Cell>, heap: Heap, cyc: seq<int>, top: int)
      requires Linked(mem, heap, cyc, top)
      ensures NoAdjacentFree(heap)
    {
    }

    /** The two tests and the header writes at the end of memmgr_free. */
    method MergeHeaders(block: int, p: int)
      requires 0 <= p < cells.Length && 0 <= block < cells.Length && p != block && 0 <= cells[p].next < cells.Length
      modifies cells
      ensures var mem := old(cells[..]);
              FreeWrites(mem, cells[..], p, block, p + mem[p].size == block, block + mem[block].size == mem[p].next)
      ensures SameBut(old(cells[..]), cells[..], p, block)
    {
      if block + cells[block].size == cells[p].next {
        cells[block] := Cell(cells[block].next, cells[block].size + cells[cells[p].next].size);
        cells[block] := Cell(cells[cells[p].next].next, cells[block].size);
      } else {
        cells[block] := Cell(cells[p].next, cells[block].size);
      }
      if p + cells[p].size == block {
        cells[p] := Cell(cells[p].next, cells[p].size + cells[block].size);
        cells[p] := Cell(cells[block].next, cells[p].size);
      } else {
        cells[p] := Cell(block, cells[p].size);
      }
    }
  
    /** get_mem_from_pool: a new block of at least n quanta joins the free list, if the pool has room. */
    method GetMemFromPool(n: nat) returns (p: int)
      requires Chain() && n >= 1 && cells.Length >= 1 && top == poolFreePos + 1 <= cells.Length
      modifies this, cells
      ensures Chain() && top == poolFreePos + 1 <= cells.Length
      ensures p == NULL <==> old(poolFreePos) + PoolShare(n) > cells.Length - 1
      ensures p == NULL ==> unchanged(this) && unchanged(cells)
      ensures p != NULL ==> p == freep && poolFreePos == old(poolFreePos) + PoolShare(n) && HasRoom(heap, n)
                            && old(top) !in old(heap) && NoAdjacentFree(heap)
                            && Condenses(Grown(old(heap), old(top), PoolShare(n)), heap)
                            && KeepsCells(old(heap), old(cells[..]), cells[..])
    {
      var nquantas := PoolShare(n);
      if poolFreePos + nquantas > cells.Length - 1 {
        return NULL;
      }
      AddBlock(nquantas);
      poolFreePos := poolFreePos + nquantas;
      p := freep;
      CycleNonNegative(cells[..], heap, cyc, top);
    }

    lemma CycleNonNegative(mem: seq<Cell>, heap: Heap, cyc: seq<int>, top: int)
      requires Linked(mem, heap, cyc, top)
      ensures forall x :: x in cyc ==> 0 <= x < |mem|
    {
      forall i | 0 <= i < |cyc| ensures 0 <= cyc[i] < |mem| {
        assert LinksAt(mem, cyc, i);
      }
    }

    method AddBlock(n: nat)
      requires Chain() && n >= 1 && top == poolFreePos + 1 && top + n <= cells.Length
      modifies this`freep, this`heap, this`cyc, this`top, cells
      ensures Chain() && top == old(top) + n && HasRoom(heap, n) && old(top) !in old(heap) && NoAdjacentFree(heap)
      ensures Condenses(Grown(old(heap), old(top), n), heap)
      ensures KeepsCells(old(heap), old(cells[..]), cells[..])
    {
      hide Linked, Condenses, KeepsCells, HasRoom, NoAdjacentFree, TiledTo;
      TopInside(cells[..], heap, cyc, top);
      ghost var h0, cells0, h := heap, cells[..], top;
      GrowLinked(cells0, cells0[top := cells0[top].(size := n)], heap, cyc, top, n);
      GrowKeeps(heap, cells0, cells0[top := cells0[top].(size := n)], cyc, top, n);
      var at := Header(n);
      heap := heap[top := Block(n, false, 0, 0)];
      top := top + n;
      ghost var cells1 := cells[..];
      FreeAt(at + 1);
      GrownFree(h0, h, n);
      KeepsTrans(h0, cells0, cells1, cells[..]);
      GrownHasRoom(cells[..], h0, heap, cyc, h, top, n);
    }

    lemma TopInside(mem: seq<Cell>, heap: Heap, cyc: seq<int>, top: int)
      requires Linked(mem, heap, cyc, top)
      ensures 1 <= top <= |mem| && TiledTo(heap, top)
    {
    }

    lemma GrownHasRoom(mem: seq<Cell>, h0: Heap, h1: Heap, cyc: seq<int>, at: int, top: int, n: nat)
      requires Linked(mem, h1, cyc, top) && Condenses(Grown(h0, at, n), h1) && n >= 1 && top == at + n
      requires TiledTo(h0, at)
      ensures HasRoom(h1, n)
    {
      ExtendTiled(h0, 1, at, FreeBlock(n));
      GrownRoom(Grown(h0, at, n), h1, top, at, n);
    }

    /** h->s.size = nquantas at the first free position of the pool. */
    method Header(n: nat) returns (h: int)
      requires poolFreePos + 1 < cells.Length
      modifies cells
      ensures h == poolFreePos + 1 && cells[..] == old(cells[..])[h := old(cells[..])[h].(size := n)]
    {
      h := poolFreePos + 1;
      cells[h] := Cell(cells[h].next, n);
    }
  
    /** First call: the degenerate cycle of base alone. */
    method StartList()
      requires Valid() && freep == NULL
      modifies this`freep, this`cyc, cells
      ensures Chain() && freep == BASE && KeepsCells(heap, old(cells[..]), cells[..])
    {
      cells[BASE] := Cell(BASE, 0);
      freep := BASE;
      cyc := [BASE];
      assert LinksAt(cells[..], cyc, 0);
    }

    /** The block found at p serves the request. */
    method Take(p: int, prevp: int, n: nat, req: nat, ghost i: int) returns (payload: int)
      requires Chain() && 0 <= i && i + 1 < |cyc| && cyc[i] == prevp && cyc[i + 1] == p && prevp in cyc && prevp != p
      requires p in heap && heap[p].free && 0 <= p < cells.Length && heap[p].len == cells[p].size >= n >= 1
      requires p + heap[p].len <= cells.Length && 0 <= prevp < cells.Length && cells[p].next == After(cyc, i + 1)
      modifies this`freep, this`heap, this`cyc, cells
      ensures Chain() && heap == Taken(old(heap), p, n, req) && payload == p + old(heap)[p].len - n + 1 && freep == prevp
      ensures KeepsCells(old(heap), old(cells[..]), cells[..])
    {
      hide Linked, KeepsCells;
      ghost var cells0 := cells[..];
      if cells[p].size == n {
        cells[prevp] := Cell(cells[p].next, cells[prevp].size);
        assert cells[..] == cells0[prevp := cells0[prevp].(next := After(cyc, i + 1))];
        TakeWhole(cells0, cells[..], heap, cyc, top, i, n, req);
        KeepsTaken(heap, cells0, cells[..], cyc, top, prevp, prevp);
        cyc := Remove(cyc, i + 1);
        payload := p + 1;
      } else {
        payload := SplitTail(p, n);
        TakeTail(cells0, cells[..], heap, cyc, top, p, n, req);
        assert p in cyc;
        KeepsTaken(heap, cells0, cells[..], cyc, top, p, payload - 1);
      }
      heap := Taken(heap, p, n, req);
      freep := prevp;
    }

    /** The header writes when a block is larger than needed. */
    method SplitTail(p: int, n: nat) returns (payload: int)
      requires 0 <= p < cells.Length && 1 <= n < cells[p].size && p + cells[p].size <= cells.Length
      modifies cells
      ensures payload == p + old(cells[p].size) - n + 1
      ensures SameBut(old(cells[..]), cells[..], p, payload - 1)
      ensures cells[p] == old(cells[p]).(size := old(cells[p].size) - n) && cells[payload - 1].size == n
    {
      cells[p] := Cell(cells[p].next, cells[p].size - n);
      var q := p + cells[p].size;
      cells[q] := Cell(cells[q].next, n);
      payload := q + 1;
    }

    /** What a successful memmgr_alloc takes, and from which heap. */
    ghost predicate Served(before: Heap, after: Heap, from: int, n: nat, req: nat, payload: int) {
      && from in before && before[from].free && n <= before[from].len
      && after == Taken(before, from, n, req) && payload == from + before[from].len - n + 1
    }

    /** Where the search begins: behind base on the first call. */
    ghost function SearchStart(): int
      reads this
    {
      if freep == NULL then BASE else freep
    }

    /** memmgr_alloc. */
    method Alloc(nbytes: nat) returns (p: Option<int>, ghost before: Heap, ghost from: int)
      requires Valid()
      modifies this, cells
      ensures Valid()
      ensures p.None? <==> AllSmaller(old(heap), Quantas(nbytes)) && old(poolFreePos) + PoolShare(Quantas(nbytes)) > cells.Length - 1
      ensures p.None? ==> heap == old(heap) && poolFreePos == old(poolFreePos) && freep == old(SearchStart())
      ensures p.Some? ==> NextFit(before, old(SearchStart()), Quantas(nbytes), from) && Precedes(before, freep, from)
      ensures p.Some? ==> ServedFrom(old(heap), old(top), Quantas(nbytes), before)
                          && Served(before, heap, from, Quantas(nbytes), nbytes, p.value)
      ensures p.Some? ==> poolFreePos == old(poolFreePos) + if AllSmaller(old(heap), Quantas(nbytes)) then PoolShare(Quantas(nbytes)) else 0
      ensures KeepsCells(old(heap), old(cells[..]), cells[..])
    {
      hide Linked, KeepsCells, AllSmaller, ServedFrom, NextFit, Precedes;
      ghost var cells0 := cells[..];
      KeepsSelf(heap, cells0);
      if freep == NULL {
        StartList();
      }
      ghost var cells1 := cells[..];
      p, before, from := Search(Quantas(nbytes), nbytes);
      KeepsTrans(old(heap), cells0, cells1, cells[..]);
      InCycle(cells[..], heap, cyc, top, freep);
    }

    lemma KeepsSelf(heap: Heap, mem: seq<Cell>)
      ensures KeepsCells(heap, mem, mem)
    {
    }

    lemma InCycle(mem: seq<Cell>, heap: Heap, cyc: seq<int>, top: int, x: int)
      requires Linked(mem, heap, cyc, top) && x in cyc
      ensures x != NULL
    {
      CycleNonNegative(mem, heap, cyc, top);
    }

    /** The search loop of memmgr_alloc. */
    method Search(n: nat, req: nat) returns (payload: Option<int>, ghost before: Heap, ghost from: int)
      requires Chain() && n >= 1 && cells.Length >= 1 && top == poolFreePos + 1 <= cells.Length
      modifies this, cells
      ensures Chain() && top == poolFreePos + 1 <= cells.Length
      ensures payload.None? <==> AllSmaller(old(heap), n) && old(poolFreePos) + PoolShare(n) > cells.Length - 1
      ensures payload.None? ==> heap == old(heap) && poolFreePos == old(poolFreePos) && freep == old(freep)
      ensures payload.Some? ==> NextFit(before, old(freep), n, from) && Precedes(before, freep, from)
      ensures payload.Some? ==> ServedFrom(old(heap), old(top), n, before) && Served(before, heap, from, n, req, payload.value)
      ensures payload.Some? ==> poolFreePos == old(poolFreePos) + if AllSmaller(old(heap), n) then PoolShare(n) else 0
      ensures KeepsCells(old(heap), old(cells[..]), cells[..])
    {
      hide Linked, KeepsCells, AllSmaller, HasRoom, ServedFrom, Looking, Condenses, NoAdjacentFree, UsedIn, NextFit, Precedes;
      ghost var h0, cells0, top0, grown := heap, cells[..], top, false;
      KeepsSelf(heap, cells0);
      UsedSelf(heap);
      var prevp := freep;
      ghost var j := StartLooking(cells[..], heap, cyc, top, freep, n);
      ghost var s := 0;
      var p := cells[prevp].next;
      while true
        invariant Chain() && top == poolFreePos + 1 <= cells.Length
        invariant Looking(cells[..], cyc, freep, p, prevp, j, s, n) && 0 <= s < |cyc|
        invariant KeepsCells(h0, cells0, cells[..]) && UsedIn(h0, heap)
        invariant !grown ==> heap == h0 && top == top0 && poolFreePos == old(poolFreePos) && freep == old(freep)
        invariant grown ==> OneFit(heap, n)
        invariant grown ==> HasRoom(heap, n) && AllSmaller(h0, n) && ServedFrom(h0, top0, n, heap)
                            && poolFreePos == old(poolFreePos) + PoolShare(n) <= cells.Length - 1
        decreases !grown, |cyc| - s
      {
        InSight(cells[..], heap, cyc, top, freep, p, prevp, j, s, n);
        if cells[p].size >= n {
          before, from := heap, p;
          ghost var i := FoundAt(cells[..], heap, cyc, top, freep, p, prevp, j, s, n);
          FoundNext(cells[..], heap, cyc, top, freep, p, prevp, j, s, n);
          AnyStart(heap, freep, old(freep), n, p);
          ghost var cells1 := cells[..];
          if !grown {
            ServedNow(h0, top0, n, p);
          }
          var at := Take(p, prevp, n, req, i);
          KeepsFewer(h0, before, cells0, cells1, cells[..]);
          return Some(at), before, from;
        } else if p == freep {
          LookedEverywhere(cells[..], heap, cyc, top, freep, p, prevp, j, s, n);
          RoomOrSmaller(heap, n);
          assert !grown;
          ghost var cells1, cyc0 := cells[..], cyc;
          p := GetMemFromPool(n);
          if p == NULL {
            assert cells[..] == cells1;
            return None, heap, 0;
          }
          grown := true;
          ServedLater(h0, top0, n, heap);
          GrownOneFit(cells1, cells[..], h0, cyc0, heap, cyc, top0, top, PoolShare(n), n);
          KeepsTrans(h0, cells0, cells1, cells[..]);
          j := StartLooking(cells[..], heap, cyc, top, freep, n);
          s := 0;
        } else {
          KeepLooking(cells[..], heap, cyc, top, freep, p, prevp, j, s, n);
          s := s + 1;
        }
        prevp := p;
        p := cells[p].next;
      }
    }
  
    /** memmgr_free, as a client calls it. */
    method Free(ap: int)
      requires Valid() && ap - 1 in heap && !heap[ap - 1].free
      modifies this`freep, this`heap, this`cyc, cells
      ensures Valid() && NoAdjacentFree(heap) && Condenses(Freed(old(heap), ap - 1), heap)
      ensures FreeAreRuns(Freed(old(heap), ap - 1), heap, top) && top == old(top)
      ensures Precedes(old(heap), freep, ap - 1)
      ensures KeepsCells(old(heap) - {ap - 1}, old(cells[..]), cells[..])
    {
      hide Linked, NoAdjacentFree, Condenses, KeepsCells, FreeAreRuns, Freed, Precedes;
      LinkedTiled(cells[..], heap, cyc, top, ap - 1);
      FreeAt(ap);
      LinkedTiled(cells[..], heap, cyc, top, -1);
      RunsAfterFree(Freed(old(heap), ap - 1), heap, top);
      InCycle(cells[..], heap, cyc, top, freep);
    }

    lemma LinkedTiled(mem: seq<Cell>, heap: Heap, cyc: seq<int>, top: int, b: int)
      requires Linked(mem, heap, cyc, top)
      ensures top > 1 ==> Tiled(heap, 1, top)
      ensures b in heap ==> top > 1 && Tiled(Freed(heap, b), 1, top)
    {
      if b in heap {
        FreedTiled(heap, top, b);
      }
    }

    /** An owner writes one quantum of its payload. */
    method ClientWrite(o: int, x: int, v: Cell)
      requires Valid() && o in heap && !heap[o].free && o < x < o + heap[o].len
      modifies cells
      ensures Valid() && 0 <= x < cells.Length && cells[..] == old(cells[..])[x := v]
    {
      DataInside(cells[..], heap, cyc, top, o, x, v);
      hide Linked;
      ghost var mem := cells[..];
      cells[x] := v;
      assert cells[..] == mem[x := v];
    }

    lemma DataInside(mem: seq<Cell>, heap: Heap, cyc: seq<int>, top: int, o: int, x: int, v: Cell)
      requires Linked(mem, heap, cyc, top) && o in heap && !heap[o].free && o < x < o + heap[o].len
      ensures 0 <= x < |mem| && Linked(mem[x := v], heap, cyc, top)
    {
      assert x !in heap && x !in cyc;
      forall i | 0 <= i < |cyc| ensures 0 <= cyc[i] < |mem| && mem[x := v][cyc[i]].next == mem[cyc[i]].next {
        assert LinksAt(mem, cyc, i);
        assert cyc[i] in cyc;
      }
      SameCircular(mem, mem[x := v], cyc);
    }
  }

  // ----- Over whole runs -----

  /** The free list is determined by the allocations: pools as long with the same allocations have the same cycle, links and sizes. */
  lemma SameFreeList(a: Buffer, b: Buffer)
    requires a.Valid() && b.Valid() && a.freep != NULL && b.freep != NULL && a.top == b.top && SameUsed(a.heap, b.heap)
    ensures a.cyc == b.cyc
    ensures forall x :: x in a.cyc ==> 0 <= x < a.cells.Length && x < b.cells.Length && a.cells[x] == b.cells[x]
  {
    forall x ensures x in a.cyc <==> x in b.cyc {
      if x != BASE {
        if x in a.cyc {
          SameFree(a.heap, b.heap, a.top, x);
        } else if x in b.cyc {
          SameFree(b.heap, a.heap, a.top, x);
        }
      }
    }
    SameAscending(a.cyc, b.cyc);
    forall x | x in a.cyc ensures 0 <= x < a.cells.Length && x < b.cells.Length && a.cells[x] == b.cells[x] {
      SameCell(a, b, x);
    }
  }

  lemma SameCell(a: Buffer, b: Buffer, x: int)
    requires a.Valid() && b.Valid() && a.freep != NULL && b.freep != NULL && a.top == b.top && SameUsed(a.heap, b.heap)
    requires a.cyc == b.cyc && x in a.cyc
    ensures 0 <= x < a.cells.Length && x < b.cells.Length && a.cells[x] == b.cells[x]
  {
    var i :| 0 <= i < |a.cyc| && a.cyc[i] == x;
    assert LinksAt(a.cells[..], a.cyc, i) && LinksAt(b.cells[..], b.cyc, i);
    if x != BASE {
      SameFree(a.heap, b.heap, a.top, x);
    }
  }

  /** The allocated blocks, with their lengths. */
  ghost predicate SameUsed(h: Heap, g: Heap) {
    (forall o :: (o in h && !h[o].free) <==> (o in g && !g[o].free))
    && (forall o :: o in h && !h[o].free && o in g ==> h[o].len == g[o].len)
  }

  /** Ascending sequences with the same members are equal. */
  lemma {:induction false} SameAscending(s: seq<int>, t: seq<int>)
    requires Ascending(s) && Ascending(t) && forall x :: x in s <==> x in t
    ensures s == t
  {
    FirstMember(s);
    FirstMember(t);
    if s != [] {
      assert s[0] in t;
      assert t[0] in s;
      forall x | x in s[1..] ensures x in t[1..] {
        assert x in t && x != t[0];
      }
      forall x | x in t[1..] ensures x in s[1..] {
        assert x in s && x != s[0];
      }
      SameAscending(s[1..], t[1..]);
      assert s == [s[0]] + s[1..] && t == [t[0]] + t[1..];
    }
  }

  lemma FirstMember(s: seq<int>)
    ensures s != [] ==> s[0] in s
  {
  }

  /** Two fully coalesced heaps with the same allocations have the same free blocks. */
  lemma SameFree(h: Heap, g: Heap, top: int, x: int)
    requires TiledTo(h, top) && TiledTo(g, top) && NoAdjacentFree(h) && NoAdjacentFree(g) && SameUsed(h, g)
    requires x in h && h[x].free
    ensures x in g && g[x].free && g[x].len == h[x].len
  {
    FreeStart(h, g, top, x);
    NoLonger(h, g, top, x);
    NoLonger(g, h, top, x);
  }

  lemma NoLonger(h: Heap, g: Heap, top: int, x: int)
    requires TiledTo(h, top) && TiledTo(g, top) && NoAdjacentFree(h) && NoAdjacentFree(g) && SameUsed(h, g)
    requires x in h && h[x].free && x in g && g[x].free
    ensures h[x].len <= g[x].len
  {
    var e := End(g, x);
    assert !AdjacentFree(g, x);
    assert e in g ==> e in h && !h[e].free;
  }

  /** They have the same free block starts. */
  lemma FreeStart(h: Heap, g: Heap, top: int, x: int)
    requires TiledTo(h, top) && TiledTo(g, top) && NoAdjacentFree(h) && NoAdjacentFree(g) && SameUsed(h, g)
    requires x in h && h[x].free
    ensures x in g && g[x].free
  {
    var o := Cover(g, 1, top, 1, x);
    if 1 < x {
      var p := Predecessor(h, 1, top, x);
      assert !AdjacentFree(h, p) && !h[p].free;
    }
  }
}
