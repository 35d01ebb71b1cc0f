/**
  The heap of the tiny allocator: blocks laid end to end over the pool behind the free
  array, each starting with its header.
 */
module TinyHeap {
  import opened Shared
  import opened Tiling
  import opened TinyCodec

  // ----- Headers in memory -----

  function HeaderSize(len: nat): nat
    requires len >= MIN_BLOCK_SIZE
  {
    EncodeLength(len - MIN_BLOCK_SIZE)
  }

  lemma HeaderSizeFits(len: nat)
    requires len >= MIN_BLOCK_SIZE
    ensures 1 <= HeaderSize(len) < len
  {
    EncodeLengthSmall(len - MIN_BLOCK_SIZE);
  }

  ghost predicate HeaderAt(mem: seq<Byte>, o: int, len: nat, free: bool) {
    && len >= MIN_BLOCK_SIZE && 0 <= o && o + HeaderSize(len) <= |mem|
    && mem[o..o + HeaderSize(len)] == Encode(len, free)
  }

  ghost predicate ZeroFrom(mem: seq<Byte>, a: int, b: int) {
    0 <= a && b <= |mem| && forall x :: a <= x < b ==> mem[x] == 0
  }

  /**
    The bytes of block b at offset o: its header, and for an allocated block zeros up to
    the payload, which is at most one byte further on and holds what was asked for.
   */
  ghost predicate BlockAt(mem: seq<Byte>, o: int, b: Block) {
    && HeaderAt(mem, o, b.len, b.free)
    && o + b.len <= |mem|
    && (b.free ==> b == FreeBlock(b.len))
    && (!b.free ==> o + HeaderSize(b.len) <= b.pay <= o + HeaderSize(b.len) + 1
                    && 1 <= b.req && b.pay + b.req <= o + b.len
                    && ZeroFrom(mem, o + HeaderSize(b.len), b.pay))
  }

  ghost predicate AllAt(mem: seq<Byte>, heap: Heap) {
    forall o {:trigger o in heap} :: o in heap ==> BlockAt(mem, o, heap[o])
  }

  /** The bytes of a block that its owner may not write. */
  function HeadEnd(o: int, b: Block): int
    requires b.len >= MIN_BLOCK_SIZE
  {
    if b.free then o + HeaderSize(b.len) else b.pay
  }

  /** A block does not notice writes behind its header and padding. */
  lemma BlockFrame(mem: seq<Byte>, mem1: seq<Byte>, o: int, b: Block)
    requires BlockAt(mem, o, b) && |mem1| == |mem|
    requires forall x :: o <= x < HeadEnd(o, b) ==> mem1[x] == mem[x]
    ensures BlockAt(mem1, o, b)
  {
    HeaderSizeFits(b.len);
    HeaderFrame(mem, mem1, o, b.len, b.free);
  }

  lemma HeaderFrame(mem: seq<Byte>, mem1: seq<Byte>, o: int, len: nat, free: bool)
    requires HeaderAt(mem, o, len, free) && |mem1| == |mem|
    requires forall x :: o <= x < o + HeaderSize(len) ==> mem1[x] == mem[x]
    ensures HeaderAt(mem1, o, len, free)
  {
    var h := HeaderSize(len);
    assert mem1[o..o + h] == mem[o..o + h];
  }

  /** Memory changed only inside [a, b). */
  ghost predicate SameOutside(mem: seq<Byte>, mem1: seq<Byte>, a: int, b: int) {
    |mem| == |mem1| && forall x :: 0 <= x < |mem| && !(a <= x < b) ==> mem1[x] == mem[x]
  }

  /** Rewriting the header of o to span p too keeps every block of the merged heap in place. */
  lemma MergeBytes(mem: seq<Byte>, mem1: seq<Byte>, h: Heap, lo: int, hi: int, o: int, p: int)
    requires Tiled(h, lo, hi) && AllAt(mem, h) && hi <= |mem|
    requires o in h && p in h && End(h, o) == p
    requires HeaderAt(mem1, o, h[o].len + h[p].len, true)
    requires SameOutside(mem, mem1, o, o + HeaderSize(h[o].len + h[p].len))
    ensures AllAt(mem1, Merged(h, o, p))
  {
    var len := h[o].len + h[p].len;
    HeaderSizeFits(len);
    FreeBlockAt(mem1, o, len);
    Widen(mem, mem1, o, o + HeaderSize(len), o, o + len);
    hide HeaderAt, SameOutside, BlockAt, HeaderSize;
    forall x | x in h && x != o && x != p ensures BlockAt(mem1, x, h[x]) {
      FarBlock(mem, mem1, x, h[x], o, o + len);
    }
  }

  lemma FreeBlockAt(mem: seq<Byte>, o: int, len: nat)
    requires HeaderAt(mem, o, len, true) && o + len <= |mem|
    ensures BlockAt(mem, o, FreeBlock(len))
  {
  }

  lemma Widen(mem: seq<Byte>, mem1: seq<Byte>, a: int, b: int, a1: int, b1: int)
    requires SameOutside(mem, mem1, a, b) && a1 <= a && b <= b1
    ensures SameOutside(mem, mem1, a1, b1)
  {
  }

  /** A block keeps its bytes when memory changes only in an area it does not meet. */
  lemma FarBlock(mem: seq<Byte>, mem1: seq<Byte>, x: int, b: Block, s: int, e: int)
    requires BlockAt(mem, x, b) && SameOutside(mem, mem1, s, e)
    requires x + b.len <= s || e <= x
    ensures BlockAt(mem1, x, b)
  {
    HeaderSizeFits(b.len);
    BlockFrame(mem, mem1, x, b);
  }
}
