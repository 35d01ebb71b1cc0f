/** What holds of a tiny pool over whole runs. */
module TinyRuns {
  import opened Shared
  import opened Wrappers
  import opened Bits
  import opened Tiling
  import opened TinyCodec
  import opened TinyPlacement
  import opened TinyCoalesce
  import opened Tiny

  // ----- A pool with nothing outstanding -----

  ghost predicate AllFree(heap: Heap) {
    forall o :: o in heap ==> heap[o].free
  }

  /** The free blocks form one run, the whole pool behind the free array. */
  lemma OneRun(heap: Heap, lo: int, hi: int, a: int, e: int)
    requires Tiled(heap, lo, hi) && AllFree(heap) && lo < hi
    ensures MaximalRun(heap, hi, a, e) <==> a == lo && e == hi
  {
    if a in heap && lo < a {
      var p := Predecessor(heap, lo, hi, a);
    }
    var o := Cover(heap, lo, hi, lo, lo);
  }

  /** When every block is free, a request fails for good exactly when the whole pool is not long enough for it. */
  lemma IdleRunFits(heap: Heap, lo: int, hi: int, size: nat, align: nat)
    requires Tiled(heap, lo, hi) && AllFree(heap) && 0 <= lo < hi && align >= 1
    ensures NoRunFits(heap, hi, size, align) <==> !LongEnough(lo, hi - lo, size, align)
  {
    hide LongEnough, Tiled, AllFree, MaximalRun;
    OneRun(heap, lo, hi, lo, hi);
    forall a, e | MaximalRun(heap, hi, a, e) ensures a == lo && e == hi {
      OneRun(heap, lo, hi, a, e);
    }
  }

  /** From position x on, starts names the allocated blocks, each once, and order their payloads. */
  ghost predicate Names(order: seq<int>, starts: seq<int>, x: int, heap: Heap) {
    && 0 <= x <= |order| == |starts|
    && (forall y :: x <= y < |order| ==> Owns(heap, starts[y], order[y]))
    && (forall o :: o in heap && !heap[o].free ==> exists y :: x <= y < |order| && starts[y] == o)
    && (forall y, z :: x <= y < z < |order| ==> starts[y] != starts[z])
  }

  lemma NamesRest(order: seq<int>, starts: seq<int>, x: nat, heap: Heap)
    requires Names(order, starts, x, heap) && x < |order|
    ensures starts[x] in heap && Names(order, starts, x + 1, Freed(heap, starts[x]))
  {
    var h := Freed(heap, starts[x]);
    forall o | o in h && !h[o].free ensures exists y :: x + 1 <= y < |order| && starts[y] == o {
      var y :| x <= y < |order| && starts[y] == o;
    }
  }

  /** Giving back everything, in any order: afterwards a request fails exactly when neither a block nor the whole pool serves it. */
  method FreeAll(pool: TinyPool, order: seq<int>, ghost starts: seq<int>)
    requires pool.Valid() && pool.arr.Length >= MIN_BLOCK_SIZE && Names(order, starts, 0, pool.heap)
    modifies pool.arr, pool`heap
    ensures pool.Valid() && AllFree(pool.heap)
    ensures forall size: nat, align: nat :: align >= 1 ==>
              var lo := FreeArraySize(pool.arr.Length);
              lo < pool.arr.Length
              && (NoRunFits(pool.heap, pool.arr.Length, size, align) <==> !LongEnough(lo, pool.arr.Length - lo, size, align))
  {
    hide Sound, KeepsData, Owns, LongEnough, NoRunFits;
    for x := 0 to |order|
      invariant pool.Valid() && Names(order, starts, x, pool.heap)
    {
      NamesRest(order, starts, x, pool.heap);
      pool.Free(order[x], starts[x]);
    }
    SoundTiled(pool.arr[..], pool.heap);
    forall size: nat, align: nat | align >= 1
      ensures var lo := FreeArraySize(pool.arr.Length);
              NoRunFits(pool.heap, pool.arr.Length, size, align) <==> !LongEnough(lo, pool.arr.Length - lo, size, align)
    {
      IdleRunFits(pool.heap, FreeArraySize(pool.arr.Length), pool.arr.Length, size, align);
    }
  }

  lemma SoundTiled(mem: seq<Byte>, heap: Heap)
    requires Sound(mem, heap)
    ensures Tiled(heap, FreeArraySize(|mem|), |mem|) && FreeArraySize(|mem|) < |mem|
  {
  }

  // ----- Steps -----

  /** One call made by a client, or one write by a client into memory that it owns. */
  datatype Op = Get(size: nat, align: nat) | Free(freep: int, start: int) | Write(owner: int, at: int, value: Byte)

  ghost predicate Lawful(pool: TinyPool, op: Op)
    reads pool, pool.arr
  {
    match op
    case Get(_, align) => OneBit(align)
    case Free(p, o) => Owns(pool.heap, o, p)
    case Write(o, x, _) => o in pool.heap && !pool.heap[o].free && pool.heap[o].pay <= x < End(pool.heap, o)
  }

  ghost predicate Target(op: Op, o: int) {
    (op.Free? && o == op.start) || (op.Write? && o == op.owner)
  }

  /** Block o is still allocated, with all its bytes. */
  ghost predicate Intact(h0: Heap, h1: Heap, mem0: seq<Byte>, mem1: seq<Byte>, o: int)
    requires o in h0
  {
    o in h1 && h1[o] == h0[o] && |mem1| == |mem0|
    && forall x :: 0 <= x < |mem0| && o <= x < o + h0[o].len ==> mem1[x] == mem0[x]
  }

  ghost predicate OthersIntact(op: Op, h0: Heap, h1: Heap, mem0: seq<Byte>, mem1: seq<Byte>) {
    forall o :: o in h0 && !h0[o].free && !Target(op, o) ==> Intact(h0, h1, mem0, mem1, o)
  }

  lemma BlockIntact(h0: Heap, h1: Heap, mem0: seq<Byte>, mem1: seq<Byte>, o: int)
    requires o in h0 && !h0[o].free && o in h1 && h1[o] == h0[o] && KeepsData(h0, mem0, mem1)
    ensures Intact(h0, h1, mem0, mem1, o)
  {
    assert h0[o] == h1[o];
  }

  /** Serving a request from a free block of the heap, coalesced or not, leaves the allocated blocks where they are. */
  lemma CarvedOthers(h0: Heap, before: Heap, h1: Heap, from: int, size: nat, align: nat, p: int, o: int)
    requires align >= 1 && Condenses(h0, before) && Placed(before, h1, from, size, align, p) && o in h0 && !h0[o].free
    ensures o in h1 && h1[o] == h0[o]
  {
    hide LongEnough, PayloadStart, LenWithHeader;
    assert before[o] == h0[o];
    var hdr := HeaderStart(from, before[from].len, p);
    assert !(from <= o < from + before[from].len);
    assert hdr < from + before[from].len;
  }

  method StepGet(pool: TinyPool, size: nat, align: nat)
    requires pool.Valid() && OneBit(align)
    modifies pool.arr, pool`heap
    ensures pool.Valid() && OthersIntact(Get(size, align), old(pool.heap), pool.heap, old(pool.arr[..]), pool.arr[..])
  {
    hide Sound, KeepsData, Condenses, Placed, NoneFits, NoRunFits, Intact, Owns, OwnerStart, LeavesByte, Padded;
    ghost var h0, mem0 := pool.heap, pool.arr[..];
    var p; ghost var before, from;
    p, before, from := pool.Get(size, align);
    if pool.arr.Length < MIN_BLOCK_SIZE {
      KeepsDataSelf(h0, mem0);
    }
    forall o | o in h0 && !h0[o].free ensures Intact(h0, pool.heap, mem0, pool.arr[..], o) {
      if pool.arr.Length >= MIN_BLOCK_SIZE {
        if p.Some? {
          CarvedOthers(h0, before, pool.heap, from, Ask(size), align, p.value, o);
        } else {
          CondensedOthers(h0, before, o);
        }
      }
      BlockIntact(h0, pool.heap, mem0, pool.arr[..], o);
    }
  }

  lemma CondensedOthers(h0: Heap, h1: Heap, o: int)
    requires Condenses(h0, h1) && o in h0 && !h0[o].free
    ensures o in h1 && h1[o] == h0[o]
  {
  }

  /** Any lawful step, in any reachable state: the invariant stays, and so does every allocated block that the step is not about. */
  method Step(pool: TinyPool, op: Op)
    requires pool.Valid() && pool.arr.Length >= MIN_BLOCK_SIZE && Lawful(pool, op)
    modifies pool.arr, pool`heap
    ensures pool.Valid() && OthersIntact(op, old(pool.heap), pool.heap, old(pool.arr[..]), pool.arr[..])
  {
    hide Sound, Intact;
    ghost var h0, mem0 := pool.heap, pool.arr[..];
    match op {
      case Get(size, align) =>
        StepGet(pool, size, align);
      case Free(p, o) =>
        pool.Free(p, o);
        FreedIntact(h0, mem0, pool.arr[..], o);
      case Write(o, x, v) =>
        SoundTiled(mem0, h0);
        HeaderInPlace(mem0, h0, o);
        pool.ClientWrite(o, x, v);
        WriteIntact(h0, mem0, FreeArraySize(|mem0|), o, x, v);
    }
  }

  lemma FreedIntact(h0: Heap, mem0: seq<Byte>, mem1: seq<Byte>, o: int)
    requires o in h0 && KeepsData(h0 - {o}, mem0, mem1)
    ensures forall x :: x in h0 && !h0[x].free && x != o ==> Intact(h0, Freed(h0, o), mem0, mem1, x)
  {
    forall x | x in h0 && !h0[x].free && x != o ensures Intact(h0, Freed(h0, o), mem0, mem1, x) {
      assert (h0 - {o})[x] == h0[x];
    }
  }

  lemma WriteIntact(h0: Heap, mem0: seq<Byte>, lo: int, o: int, x: int, v: Byte)
    requires Tiled(h0, lo, |mem0|) && o in h0 && o <= x < End(h0, o) && 0 <= x < |mem0|
    ensures forall y :: y in h0 && y != o ==> Intact(h0, h0, mem0, mem0[x := v], y)
  {
  }

  // ----- The size tiny_alloc_size reports -----

  /** In a fresh pool of ten bytes eight are granted at offset 2, and reported as nine: one more than the pool has there. */
  method OverstatedSize() returns (length: int, p: int, size: int)
    ensures length == 10 && p == 2 && size == 9 && p + size > length
  {
    hide Sound, KeepsData, Condenses, AdjacentFree, LongEnough, PayloadStart, HeaderStart, LenWithHeader, EncodeLength;
    PaddingExample();
    var arr := new Byte[10](_ => 0);
    length := arr.Length;
    var pool := new TinyPool(arr);
    ghost var h0 := pool.heap;
    assert Fits(h0, 0, 8, 1);
    var r; ghost var before, from;
    assert OneBit(1);
    r, before, from := pool.Get(8, 1);
    p := r.value;
    size := pool.Size(p, 0);
  }
}
