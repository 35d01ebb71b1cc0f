/**
  Where the blocks of a memmgr pool lie in the caller's buffer. The pool starts behind the
  buffer header, but memmgr bounds it by the size of the whole buffer.
 */
module MemmgrRuns {
  import opened Wrappers
  import opened Tiling
  import opened MemLists
  import opened Memmgr

  /** sizeof(buff_header_t): one quantum for base and three words. */
  const HEADER_SIZE: int := 40

  /** Offset in the caller's buffer of quantum x of the pool. */
  function ByteAt(x: int): int {
    HEADER_SIZE + (x - 1) * QUANTUM
  }

  ghost predicate InsideBuffer(heap: Heap, size: int) {
    forall o {:trigger o in heap} :: o in heap ==> ByteAt(End(heap, o)) <= size
  }

  /** In every reachable state with a block, all blocks lie inside the buffer exactly when header and used part of the pool do. */
  lemma InsideExactly(b: Buffer, size: nat)
    requires b.Valid() && b.heap != map[]
    ensures InsideBuffer(b.heap, size) <==> HEADER_SIZE + b.poolFreePos * QUANTUM <= size
  {
    hide Circular, Sized, Members, NoAdjacentFree;
    LastBlock(b.heap, b.top);
  }

  lemma LastBlock(heap: Heap, top: int)
    requires Tiled(heap, 1, top)
    ensures exists o :: o in heap && End(heap, o) == top
    ensures forall o :: o in heap ==> End(heap, o) <= top
  {
    var o := Cover(heap, 1, top, 1, top - 1);
  }

  /**
    On any fresh buffer, the request for all the pool is granted exactly from 128 bytes up,
    and then the last bytes that it grants lie behind the buffer.
   */
  method PastTheEnd(size: nat) returns (nbytes: nat, p: Option<int>)
    ensures p.Some? <==> size >= MIN_POOL_ALLOC_QUANTAS * QUANTUM
    ensures p.Some? ==> ByteAt(p.value) + nbytes > size
  {
    var b := new Buffer(size / QUANTUM);
    nbytes := if size < QUANTUM then 0 else (size / QUANTUM - 1) * QUANTUM;
    ghost var before, from;
    p, before, from := b.Alloc(nbytes);
    assert p.Some? ==> from in Grown(map[], 1, PoolShare(Quantas(nbytes)));
  }
}
