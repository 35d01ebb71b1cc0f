/** The lazy coalescing walk of the tiny allocator, on values. */
module TinyCoalesce {
  import opened Shared
  import opened Tiling
  import opened TinyHeap

  /** The bytes of the allocated blocks of this heap are unchanged. */
  ghost predicate KeepsData(heap: Heap, mem: seq<Byte>, mem1: seq<Byte>) {
    && |mem| == |mem1|
    && forall o, x {:trigger heap[o], mem1[x]} ::
         o in heap && !heap[o].free && 0 <= x < |mem| && o <= x < o + heap[o].len ==> mem1[x] == mem[x]
  }

  lemma KeepsDataTrans(heap: Heap, mem: seq<Byte>, mem1: seq<Byte>, mem2: seq<Byte>)
    requires KeepsData(heap, mem, mem1) && KeepsData(heap, mem1, mem2)
    ensures KeepsData(heap, mem, mem2)
  {
  }

  lemma KeepsDataSelf(heap: Heap, mem: seq<Byte>)
    ensures KeepsData(heap, mem, mem)
  {
  }

  /** The last block visited, as the walk's local variables describe it. */
  datatype Last = Last(off: int, len: nat, free: bool)

  /**
    The state of the walk when it has reached off: the heap so far is a condensed form
    of h0, its blocks before off have no two free neighbours, and last is the block
    that ends at off.
   */
  ghost predicate Walking(mem: seq<Byte>, heap: Heap, h0: Heap, lo: int, off: int, last: Last) {
    && 0 <= lo <= off <= |mem|
    && Tiled(heap, lo, |mem|) && AllAt(mem, heap) && Condenses(h0, heap)
    && (off == |mem| || off in heap)
    && (off == lo ==> !last.free)
    && (off > lo ==> last.off in heap && End(heap, last.off) == off && heap[last.off].len == last.len && heap[last.off].free == last.free)
    && (forall o {:trigger AdjacentFree(heap, o)} :: AdjacentFree(heap, o) ==> End(heap, o) >= off)
  }

  lemma WalkStart(mem: seq<Byte>, heap: Heap, lo: int)
    requires 0 <= lo && Tiled(heap, lo, |mem|) && AllAt(mem, heap)
    ensures Walking(mem, heap, heap, lo, lo, Last(0, 0, false))
  {
  }

  /** A block that is not merged becomes the last block. */
  lemma WalkOn(mem: seq<Byte>, heap: Heap, h0: Heap, lo: int, off: int, last: Last)
    requires Walking(mem, heap, h0, lo, off, last) && off in heap && !(heap[off].free && last.free)
    ensures Walking(mem, heap, h0, lo, End(heap, off), Last(off, heap[off].len, heap[off].free))
  {
    assert End(heap, off) == |mem| || End(heap, off) in heap;
    forall o | AdjacentFree(heap, o) ensures End(heap, o) >= End(heap, off) {
      var p := End(heap, o);
      assert p >= off;
      if p == off {
        SameEnd(heap, lo, |mem|, o, last.off);
      }
    }
  }

  lemma SameEnd(heap: Heap, lo: int, hi: int, o: int, p: int)
    requires Tiled(heap, lo, hi) && o in heap
    ensures p in heap && End(heap, o) == End(heap, p) ==> o == p
    ensures lo < End(heap, o)
  {
  }

  /** A free block behind a free last block is merged into it. */
  lemma WalkMerge(mem: seq<Byte>, mem1: seq<Byte>, heap: Heap, h0: Heap, lo: int, off: int, last: Last)
    requires Walking(mem, heap, h0, lo, off, last) && off in heap && heap[off].free && last.free
    requires HeaderAt(mem1, last.off, last.len + heap[off].len, true)
    requires SameOutside(mem, mem1, last.off, last.off + HeaderSize(last.len + heap[off].len))
    ensures last.off in heap && Walking(mem1, Merged(heap, last.off, off), h0, lo, End(heap, off), last.(len := last.len + heap[off].len))
    ensures KeepsData(h0, mem, mem1)
    ensures SameOutside(mem, mem1, lo, |mem|)
    ensures AdjacentFree(heap, last.off)
  {
    var h1 := Merged(heap, last.off, off);
    var len := last.len + heap[off].len;
    MergeCondenses(h0, heap, lo, |mem|, last.off, off);
    MergeBytes(mem, mem1, heap, lo, |mem|, last.off, off);
    HeaderSizeFits(len);
    Widen(mem, mem1, last.off, last.off + HeaderSize(len), last.off, last.off + len);
    MergedData(mem, mem1, h0, heap, lo, last.off, off);
    assert End(heap, off) == |mem| || End(heap, off) in h1;
    forall o | AdjacentFree(h1, o) ensures End(h1, o) >= End(heap, off) {
      NoEarlierPair(heap, lo, |mem|, last.off, off, o);
    }
  }

  lemma NoEarlierPair(heap: Heap, lo: int, hi: int, p: int, off: int, o: int)
    requires Tiled(heap, lo, hi) && p in heap && off in heap && End(heap, p) == off && heap[p].free && heap[off].free
    requires forall x {:trigger AdjacentFree(heap, x)} :: AdjacentFree(heap, x) ==> End(heap, x) >= off
    ensures AdjacentFree(Merged(heap, p, off), o) ==> End(Merged(heap, p, off), o) >= End(heap, off)
  {
    var h1 := Merged(heap, p, off);
    if AdjacentFree(h1, o) && o != p {
      assert End(h1, o) == End(heap, o);
      assert AdjacentFree(heap, o);
    }
  }

  lemma MergedData(mem: seq<Byte>, mem1: seq<Byte>, h0: Heap, heap: Heap, lo: int, p: int, off: int)
    requires Tiled(heap, lo, |mem|) && Condenses(h0, heap)
    requires p in heap && off in heap && End(heap, p) == off && heap[p].free && heap[off].free
    requires SameOutside(mem, mem1, p, p + heap[p].len + heap[off].len)
    ensures KeepsData(h0, mem, mem1)
  {
    forall o, x | o in h0 && !h0[o].free && 0 <= x < |mem| && o <= x < o + h0[o].len ensures mem1[x] == mem[x] {
      assert o in heap && heap[o] == h0[o];
      assert o != p && o != off;
    }
  }

  lemma WalkEnd(mem: seq<Byte>, heap: Heap, h0: Heap, lo: int, last: Last)
    requires Walking(mem, heap, h0, lo, |mem|, last)
    ensures NoAdjacentFree(heap)
  {
  }
}
