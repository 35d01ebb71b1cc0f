/**
  Heaps whose blocks are laid end to end, and what coalescing free neighbours does to
  them.  Shared by the tiny allocator, which counts in bytes, and by memmgr, which
  counts in quanta.
 */
module Tiling {

  /**
    A block.  For an allocated one, pay is where its payload starts and req how much was
    asked for.
   */
  datatype Block = Block(len: nat, free: bool, pay: int, req: nat)

  function FreeBlock(len: nat): Block {
    Block(len, true, 0, 0)
  }

  /** Blocks by their start offset. */
  type Heap = map<int, Block>

  ghost predicate Bounded(heap: Heap, lo: int, hi: int) {
    forall o {:trigger o in heap} :: o in heap ==> lo <= o && 1 <= heap[o].len && o + heap[o].len <= hi
  }

  function End(heap: Heap, o: int): int
    requires o in heap
  {
    o + heap[o].len
  }

  ghost predicate Chained(heap: Heap, hi: int) {
    forall o {:trigger End(heap, o)} :: o in heap ==> End(heap, o) == hi || End(heap, o) in heap
  }

  ghost predicate Ordered(heap: Heap) {
    forall o, p :: o in heap && p in heap && o < p ==> o + heap[o].len <= p
  }

  /** The blocks cover [lo, hi) without gap or overlap. */
  ghost predicate Tiled(heap: Heap, lo: int, hi: int) {
    lo in heap && Bounded(heap, lo, hi) && Chained(heap, hi) && Ordered(heap)
  }

  lemma ReplaceTiled(heap: Heap, lo: int, hi: int, o: int, b: Block)
    requires Tiled(heap, lo, hi) && o in heap && b.len == heap[o].len
    ensures Tiled(heap[o := b], lo, hi)
  {
    var h := heap[o := b];
    forall x | x in h ensures End(h, x) == hi || End(h, x) in h {
      assert End(h, x) == End(heap, x);
    }
  }

  lemma SplitTiled(heap: Heap, lo: int, hi: int, o: int, m: int, a: Block, b: Block)
    requires Tiled(heap, lo, hi) && o in heap && a.len >= 1 && b.len >= 1
    requires o + a.len == m && m + b.len == o + heap[o].len
    ensures m !in heap && Tiled(heap[o := a][m := b], lo, hi)
  {
    var h := heap[o := a][m := b];
    forall x | x in h ensures End(h, x) == hi || End(h, x) in h {
      if x == m {
        assert End(h, x) == End(heap, o);
      } else if x != o {
        assert End(h, x) == End(heap, x);
      }
    }
  }

  lemma MergeTiled(heap: Heap, lo: int, hi: int, o: int, p: int, b: Block)
    requires Tiled(heap, lo, hi) && o in heap && p in heap && End(heap, o) == p
    requires b.len == heap[o].len + heap[p].len
    ensures Tiled((heap - {p})[o := b], lo, hi)
  {
    var h := (heap - {p})[o := b];
    forall x | x in h ensures End(h, x) == hi || End(h, x) in h {
      if x == o {
        assert End(h, x) == End(heap, p);
      } else {
        assert End(h, x) == End(heap, x);
      }
    }
  }

  /** Every offset of the tiled area lies in a block. */
  lemma {:induction false} Cover(heap: Heap, lo: int, hi: int, from: int, x: int) returns (o: int)
    requires Tiled(heap, lo, hi) && from in heap && from <= x < hi
    ensures o in heap && from <= o <= x < o + heap[o].len
    decreases hi - from
  {
    if x < End(heap, from) {
      o := from;
    } else {
      o := Cover(heap, lo, hi, End(heap, from), x);
    }
  }

  // ----- Free bytes and maximal runs -----

  ghost predicate FreeByte(heap: Heap, x: int) {
    exists o :: o in heap && heap[o].free && o <= x < o + heap[o].len
  }

  ghost predicate AdjacentFree(heap: Heap, o: int) {
    o in heap && heap[o].free && End(heap, o) in heap && heap[End(heap, o)].free
  }

  ghost predicate NoAdjacentFree(heap: Heap) {
    forall o {:trigger AdjacentFree(heap, o)} :: !AdjacentFree(heap, o)
  }

  /** [a, e) is a run of free blocks that cannot be extended on either side. */
  ghost predicate MaximalRun(heap: Heap, hi: int, a: int, e: int) {
    && a in heap && a < e && (e == hi || (e in heap && !heap[e].free))
    && (forall o {:trigger o in heap} :: o in heap && a <= o < e ==> heap[o].free)
    && (forall o {:trigger End(heap, o)} :: o in heap && End(heap, o) == a ==> !heap[o].free)
  }

  /** Each block of h1 is an allocated block of h0 or a run of free blocks of h0. */
  ghost predicate Condenses(h0: Heap, h1: Heap) {
    && (forall o {:trigger o in h1} :: o in h1 ==> o in h0)
    && (forall o {:trigger o in h0} :: o in h0 && !h0[o].free ==> o in h1 && h1[o] == h0[o])
    && (forall o {:trigger h1[o]} :: o in h1 && !h1[o].free ==> h0[o] == h1[o])
    && (forall o, p {:trigger h1[o], h0[p]} :: o in h1 && h1[o].free && p in h0 && o <= p < o + h1[o].len ==> h0[p].free)
  }

  /** A condensed heap has the same free bytes. */
  lemma CondensedFreeBytes(h0: Heap, h1: Heap, lo: int, hi: int, x: int)
    requires Tiled(h0, lo, hi) && Tiled(h1, lo, hi) && Condenses(h0, h1)
    ensures FreeByte(h0, x) <==> FreeByte(h1, x)
  {
    if lo <= x < hi {
      var p := Cover(h0, lo, hi, lo, x);
      var o := Cover(h1, lo, hi, lo, x);
      assert o in h0;
      assert o <= p;
      if h1[o].free {
        assert h0[p].free;
      } else {
        assert h0[o] == h1[o] && o == p;
      }
      assert FreeByte(h0, x) <==> h0[p].free;
      assert FreeByte(h1, x) <==> h1[o].free;
    }
  }

  /** The block before offset a. */
  lemma Predecessor(heap: Heap, lo: int, hi: int, a: int) returns (p: int)
    requires Tiled(heap, lo, hi) && a in heap && lo < a
    ensures p in heap && End(heap, p) == a
  {
    p := Cover(heap, lo, hi, lo, a - 1);
    assert End(heap, p) == hi || End(heap, p) in heap;
  }

  /**
    In a condensed heap without adjacent free blocks the free blocks are exactly the
    maximal runs of the original heap.
   */
  lemma RunsAreBlocks(h0: Heap, h1: Heap, lo: int, hi: int, a: int, e: int)
    requires Tiled(h0, lo, hi) && Tiled(h1, lo, hi) && Condenses(h0, h1) && NoAdjacentFree(h1)
    ensures MaximalRun(h0, hi, a, e) <==> a in h1 && h1[a].free && e == a + h1[a].len
  {
    if MaximalRun(h0, hi, a, e) {
      RunIsBlock(h0, h1, lo, hi, a, e);
    }
    if a in h1 && h1[a].free && e == a + h1[a].len {
      BlockIsRun(h0, h1, lo, hi, a);
    }
  }

  lemma RunIsBlock(h0: Heap, h1: Heap, lo: int, hi: int, a: int, e: int)
    requires Tiled(h0, lo, hi) && Tiled(h1, lo, hi) && Condenses(h0, h1) && NoAdjacentFree(h1)
    requires MaximalRun(h0, hi, a, e)
    ensures a in h1 && h1[a].free && e == a + h1[a].len
  {
    assert lo <= a < hi;
    var o := Cover(h1, lo, hi, lo, a);
    assert o in h0;
    assert h0[a].free;
    if o < a {
      var p := Predecessor(h0, lo, hi, a);
    }
    var q := End(h1, a);
    assert q == hi || q in h1;
    assert !AdjacentFree(h1, a);
  }

  lemma BlockIsRun(h0: Heap, h1: Heap, lo: int, hi: int, a: int)
    requires Tiled(h0, lo, hi) && Tiled(h1, lo, hi) && Condenses(h0, h1) && NoAdjacentFree(h1)
    requires a in h1 && h1[a].free
    ensures MaximalRun(h0, hi, a, a + h1[a].len)
  {
    var e := End(h1, a);
    assert e == hi || e in h1;
    assert !AdjacentFree(h1, a);
    assert e != hi ==> !h1[e].free && h0[e] == h1[e];
    forall o | o in h0 && End(h0, o) == a ensures !h0[o].free {
      assert lo < a by {
        assert lo <= o;
      }
      var p := Predecessor(h1, lo, hi, a);
      assert !AdjacentFree(h1, p);
      assert !h1[p].free;
      assert h0[p] == h1[p];
      assert o == p;
    }
  }

  // ----- One coalescing step -----

  /** The free block at o swallows the free block p behind it. */
  function Merged(h: Heap, o: int, p: int): Heap
    requires o in h && p in h
  {
    (h - {p})[o := FreeBlock(h[o].len + h[p].len)]
  }

  lemma MergeCondenses(h0: Heap, h: Heap, lo: int, hi: int, o: int, p: int)
    requires Tiled(h, lo, hi) && Condenses(h0, h)
    requires o in h && p in h && End(h, o) == p && h[o].free && h[p].free
    ensures Tiled(Merged(h, o, p), lo, hi) && Condenses(h0, Merged(h, o, p))
  {
    var b := FreeBlock(h[o].len + h[p].len);
    MergeTiled(h, lo, hi, o, p, b);
    var h1 := Merged(h, o, p);
    forall x, y | x in h1 && h1[x].free && y in h0 && x <= y < x + h1[x].len ensures h0[y].free {
      if x == o {
        assert h[o].free && h[p].free;
      } else {
        assert h[x].free;
      }
    }
  }

  lemma CondensesSelf(h: Heap, lo: int, hi: int)
    requires Tiled(h, lo, hi)
    ensures Condenses(h, h)
  {
  }

  /** A new block behind the last one. */
  lemma ExtendTiled(heap: Heap, lo: int, hi: int, b: Block)
    requires lo <= hi && b.len >= 1 && if heap == map[] then lo == hi else Tiled(heap, lo, hi)
    ensures hi !in heap && Tiled(heap[hi := b], lo, hi + b.len)
  {
    var h := heap[hi := b];
    forall x | x in h ensures End(h, x) == hi + b.len || End(h, x) in h {
      if x != hi {
        assert End(h, x) == End(heap, x);
      }
    }
  }

  /** The heap after the block at o is given back, before any merging. */
  function Freed(heap: Heap, o: int): Heap
    requires o in heap
  {
    heap[o := FreeBlock(heap[o].len)]
  }
}
