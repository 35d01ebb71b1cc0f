/** The tiny allocator: a pool below the size for which pages are useful. */
module Tiny {
  import opened Shared
  import opened Wrappers
  import opened Powers
  import opened Bits
  import opened BitOps
  import opened Logs
  import opened Tiling
  import opened TinyCodec
  import opened TinyPlacement
  import opened TinyHeap
  import opened TinyCache
  import opened TinyCoalesce

  function FreeArraySize(poolsize: nat): (r: nat)
    ensures 1024 * r <= poolsize < 1024 * (r + 1)
  {
    poolsize / 1024
  }

  // ----- Headers in memory -----

  lemma HeaderDecodes(mem: seq<Byte>, o: int, len: nat, free: bool)
    requires HeaderAt(mem, o, len, free)
    ensures Decode(mem[o..]) == Header(len, free, HeaderSize(len))
  {
    EncodedLength(len, free);
    assert mem[o..] == Encode(len, free) + mem[o + HeaderSize(len)..];
    DecodeEncode(len, free, mem[o + HeaderSize(len)..]);
  }

  /** Digits placed at and above position bits do not meet the ones below it. */
  lemma OrValue(low: nat, b: nat, bits: nat)
    requires low < Pow2(bits)
    ensures Or(low, Shl(b, bits)) == low + Shl(b, bits)
  {
    hide Or, Pow2;
    AndSplit(low, 0, 0, b, bits);
    AndZero(low);
    AndZero(b);
    OrSum(low, Shl(b, bits));
  }

  /** Seven more digits, placed bits places up. */
  lemma ShiftStep(low: nat, bits: nat, b: nat, w: nat)
    requires low < Pow2(bits) && b < 128
    ensures Or(low, Shl(b, bits)) < Pow2(bits + 7)
    ensures low + Shl(b + 128 * w, bits) == Or(low, Shl(b, bits)) + Shl(w, bits + 7)
  {
    hide Or;
    assert Pow2(7) == 128;
    Pow2Add(bits, 7);
    OrValue(low, b, bits);
    Distribute3(Pow2(bits), b, w);
    MulMono(b, 127, Pow2(bits));
  }

  lemma Distribute3(p: int, b: int, w: int)
    ensures p * (b + 128 * w) == b * p + p * 128 * w
  {
  }

  lemma FiveDigits(v: nat)
    ensures Pow2(5) == 32 && Shl(v, 5) == 32 * v
  {
  }

  /** decode, on any bytes that hold a whole header. */
  method DecodeAt(arr: array<Byte>, o: int) returns (len: nat, free: bool, hdrlen: nat)
    requires 0 <= o <= arr.Length && Decode(arr[o..]).Header?
    ensures Header(len, free, hdrlen) == Decode(arr[o..])
  {
    free := HasFree(arr[o]);
    len := arr[o] % 32;
    hdrlen := 1;
    if !HasSingle(arr[o]) {
      assert arr[o..][1..] == arr[o + 1..];
      len, hdrlen := DecodeTailAt(arr, o + 1, len);
      hdrlen := hdrlen + 1;
    }
    len := len + MIN_BLOCK_SIZE;
  }

  /** The part of decode after the first byte of a longer header. */
  method DecodeTailAt(arr: array<Byte>, o: int, low: nat) returns (len: nat, n: nat)
    requires 0 <= o <= arr.Length && DecodeTail(arr[o..]).Tail? && low < 32
    ensures n == DecodeTail(arr[o..]).bytes && len == low + 32 * DecodeTail(arr[o..]).value
  {
    var bits := 5;
    hide Pow2, Or, Shl;
    len, n := low, 0;
    ghost var all := DecodeTail(arr[o..]);
    FiveDigits(all.value);
    while !HasTerm(arr[o + n])
      invariant 0 <= n && o + n < arr.Length && len < Pow2(bits)
      invariant DecodeTail(arr[o + n..]).Tail?
      invariant n + DecodeTail(arr[o + n..]).bytes == all.bytes
      invariant len + Shl(DecodeTail(arr[o + n..]).value, bits) == low + 32 * all.value
      decreases arr.Length - n
    {
      assert arr[o + n..][1..] == arr[o + n + 1..];
      ShiftStep(len, bits, arr[o + n], DecodeTail(arr[o + n + 1..]).value);
      len := Or(len, Shl(arr[o + n], bits));
      n := n + 1;
      bits := bits + 7;
    }
    OrValue(len, arr[o + n] % 64, bits);
    len := Or(len, Shl(arr[o + n] % 64, bits));
    n := n + 1;
  }

  /** encode. */
  method EncodeAt(arr: array<Byte>, o: int, len0: nat, free: bool) returns (hdrlen: nat)
    requires len0 >= MIN_BLOCK_SIZE && 0 <= o && o + HeaderSize(len0) <= arr.Length
    modifies arr
    ensures hdrlen == HeaderSize(len0)
    ensures HeaderAt(arr[..], o, len0, free)
    ensures SameOutside(old(arr[..]), arr[..], o, o + HeaderSize(len0))
  {
    EncodedLength(len0, free);
    ghost var code := Encode(len0, free);
    hdrlen := 1;
    var len: nat := len0 - MIN_BLOCK_SIZE;
    EncodeFirst(arr, o, len, free);
    len := len / 32;
    if len == 0 {
      assert arr[o..o + 1] == code;
      return;
    }
    assert code == [arr[o]] + EncodeTail(len);
    hdrlen := EncodeTailAt(arr, o + 1, len);
    hdrlen := hdrlen + 1;
    assert arr[o..o + hdrlen] == [arr[o]] + arr[o + 1..o + hdrlen];
  }

  /** The first byte of a header. */
  method EncodeFirst(arr: array<Byte>, o: int, v: nat, free: bool)
    requires 0 <= o < arr.Length
    modifies arr
    ensures arr[o] == FirstByte(v, free)
    ensures forall x :: 0 <= x < arr.Length && x != o ==> arr[x] == old(arr[x])
  {
    arr[o] := TERM_BIT + if free then FREE_BIT else 0;
    arr[o] := arr[o] + v % 32;
    if v / 32 == 0 {
      arr[o] := arr[o] + SINGLE_BYTE;
    }
  }

  /** The part of encode after the first byte of a longer header. */
  method EncodeTailAt(arr: array<Byte>, o: int, v: nat) returns (n: nat)
    requires 0 <= o && o + |EncodeTail(v)| <= arr.Length
    modifies arr
    ensures n == |EncodeTail(v)| && arr[o..o + n] == EncodeTail(v)
    ensures forall x :: 0 <= x < arr.Length && !(o <= x < o + n) ==> arr[x] == old(arr[x])
  {
    ghost var code := EncodeTail(v);
    var len: nat := v;
    n := 0;
    while len >= 64
      invariant 0 <= n <= |code| && code == arr[o..o + n] + EncodeTail(len)
      invariant forall x :: 0 <= x < arr.Length && !(o <= x < o + n) ==> arr[x] == old(arr[x])
    {
      ghost var done := arr[o..o + n];
      arr[o + n] := len % 128;
      assert arr[o..o + n + 1] == done + [len % 128];
      n := n + 1;
      len := len / 128;
    }
    ghost var done := arr[o..o + n];
    arr[o + n] := len + TERM_BIT;
    assert arr[o..o + n + 1] == done + [len + TERM_BIT];
    n := n + 1;
  }

  // ----- The pool -----

  /** The pool's bytes agree with its heap of blocks and with its free array. */
  ghost predicate Sound(mem: seq<Byte>, heap: Heap) {
    && MIN_BLOCK_SIZE <= |mem| < MIN_USEFUL_SIZE
    && Tiled(heap, FreeArraySize(|mem|), |mem|)
    && AllAt(mem, heap)
    && CacheOK(mem, FreeArraySize(|mem|), heap)
  }

  /** Free block o of the heap can serve the request. */
  ghost predicate Fits(heap: Heap, o: int, size: nat, align: nat)
    requires align >= 1
  {
    o in heap && heap[o].free && 0 <= o && heap[o].len >= 1 && LongEnough(o, heap[o].len, size, align)
  }

  ghost predicate NoneFits(heap: Heap, size: nat, align: nat)
    requires align >= 1
  {
    forall o {:trigger Fits(heap, o, size, align)} :: !Fits(heap, o, size, align)
  }

  /** No block that the free array names can serve the request. */
  ghost predicate NoListedFits(mem: seq<Byte>, heap: Heap, size: nat, align: nat)
    requires align >= 1
  {
    forall o {:trigger Listed(mem, FreeArraySize(|mem|), o)} :: Listed(mem, FreeArraySize(|mem|), o) ==> !Fits(heap, o, size, align)
  }

  /** Slot s names a free block that can serve the request. */
  ghost predicate SlotHit(mem: seq<Byte>, heap: Heap, s: int, size: nat, align: nat)
    requires align >= 1
  {
    IsSlot(FreeArraySize(|mem|), s) && SlotValue(mem, s) != 0 && Fits(heap, SlotValue(mem, s), size, align)
  }

  ghost predicate SlotMisses(mem: seq<Byte>, heap: Heap, s: int, size: nat, align: nat)
    requires align >= 1
  {
    !SlotHit(mem, heap, s, size, align)
  }

  /** The slots of all buckets below this one cannot serve the request. */
  ghost predicate BucketsMiss(mem: seq<Byte>, heap: Heap, bucket: int, size: nat, align: nat)
    requires align >= 1
  {
    forall s {:trigger SlotMisses(mem, heap, s, size, align)} ::
      IsSlot(FreeArraySize(|mem|), s) && BucketOf(s) < bucket ==> SlotMisses(mem, heap, s, size, align)
  }

  /** Slot s comes before slot t in the search, bucket by bucket. */
  predicate SearchedBefore(s: int, t: int) {
    BucketOf(s) < BucketOf(t) || (BucketOf(s) == BucketOf(t) && s < t)
  }

  /** Slot s is the first one whose block can serve the request. */
  ghost predicate FirstHit(mem: seq<Byte>, heap: Heap, s: int, size: nat, align: nat)
    requires align >= 1
  {
    && SlotHit(mem, heap, s, size, align)
    && forall t {:trigger SlotMisses(mem, heap, t, size, align)} ::
         IsSlot(FreeArraySize(|mem|), t) && SearchedBefore(t, s) ==> SlotMisses(mem, heap, t, size, align)
  }

  /** off is the lowest block that can serve the request. */
  ghost predicate LowestFit(heap: Heap, off: int, size: nat, align: nat)
    requires align >= 1
  {
    Fits(heap, off, size, align) && NoneFitsBelow(heap, off, size, align)
  }

  /**
    Where tiny_alloc_get finds its block, and the free array a at that moment: in the first
    slot that serves the request; if there is none, lowest in the pool; if there is none
    either, lowest after coalescing, with the array filled anew on the way.
   */
  ghost predicate Sought(mem: seq<Byte>, heap: Heap, before: Heap, size: nat, align: nat, from: int, a: seq<Byte>)
    requires align >= 1
  {
    var lo := FreeArraySize(|mem|);
    || (before == heap && exists s {:trigger SlotValue(mem, s)} ::
          FirstHit(mem, heap, s, size, align) && from == SlotValue(mem, s) && a == Stored(mem[..lo], s, 0))
    || (before == heap && NoListedFits(mem, heap, size, align) && LowestFit(heap, from, size, align) && a == mem[..lo])
    || (NoneFits(heap, size, align) && LowestFit(before, from, size, align) && a == Refilled(Wiped(lo), before, lo, from))
  }

  lemma OneFirstHit(mem: seq<Byte>, heap: Heap, s: int, t: int, size: nat, align: nat)
    requires align >= 1 && FirstHit(mem, heap, s, size, align) && FirstHit(mem, heap, t, size, align)
    ensures s == t
  {
    hide BucketOf;
    assert SearchedBefore(s, t) ==> SlotMisses(mem, heap, s, size, align);
    assert SearchedBefore(t, s) ==> SlotMisses(mem, heap, t, size, align);
    BucketApart(mem, heap, s, t, size, align);
  }

  lemma BucketApart(mem: seq<Byte>, heap: Heap, s: int, t: int, size: nat, align: nat)
    requires align >= 1 && SlotHit(mem, heap, s, size, align) && SlotHit(mem, heap, t, size, align)
    ensures s == t || SearchedBefore(s, t) || SearchedBefore(t, s)
  {
  }

  /** The search has one outcome: the pool and the coalesced heap determine the block and the array. */
  lemma SoughtOnce(mem: seq<Byte>, heap: Heap, before: Heap, size: nat, align: nat, from: int, a: seq<Byte>, from1: int, a1: seq<Byte>)
    requires align >= 1 && Sought(mem, heap, before, size, align, from, a) && Sought(mem, heap, before, size, align, from1, a1)
    ensures from1 == from && a1 == a
  {
    hide SlotValue, SlotMisses, SearchedBefore, Stored, Refilled, Fits;
    var lo := FreeArraySize(|mem|);
    if s {:trigger SlotValue(mem, s)} :| FirstHit(mem, heap, s, size, align) && from == SlotValue(mem, s) && a == Stored(mem[..lo], s, 0) {
      HitListed(mem, heap, s, size, align);
      if t {:trigger SlotValue(mem, t)} :| FirstHit(mem, heap, t, size, align) && from1 == SlotValue(mem, t) && a1 == Stored(mem[..lo], t, 0) {
        OneFirstHit(mem, heap, s, t, size, align);
      }
    } else if t {:trigger SlotValue(mem, t)} :| FirstHit(mem, heap, t, size, align) && from1 == SlotValue(mem, t) && a1 == Stored(mem[..lo], t, 0) {
      HitListed(mem, heap, t, size, align);
    }
  }

  lemma HitListed(mem: seq<Byte>, heap: Heap, s: int, size: nat, align: nat)
    requires align >= 1 && FirstHit(mem, heap, s, size, align)
    ensures !NoListedFits(mem, heap, size, align) && !NoneFits(heap, size, align)
  {
    assert Listed(mem, FreeArraySize(|mem|), SlotValue(mem, s));
  }

  lemma HitIsHit(mem: seq<Byte>, heap: Heap, s: int, size: nat, align: nat)
    requires align >= 1 && FirstHit(mem, heap, s, size, align)
    ensures SlotHit(mem, heap, s, size, align)
  {
  }

  lemma SoughtSlot(mem: seq<Byte>, heap: Heap, s: int, size: nat, align: nat)
    requires align >= 1 && FirstHit(mem, heap, s, size, align)
    ensures Sought(mem, heap, heap, size, align, SlotValue(mem, s), Stored(mem[..FreeArraySize(|mem|)], s, 0))
  {
    hide SlotValue, SlotMisses, SearchedBefore, Stored, Fits;
  }

  lemma SoughtLow(mem: seq<Byte>, heap: Heap, off: int, size: nat, align: nat)
    requires align >= 1 && NoListedFits(mem, heap, size, align)
    requires Fits(heap, off, size, align) && NoneFitsBelow(heap, off, size, align)
    ensures Sought(mem, heap, heap, size, align, off, mem[..FreeArraySize(|mem|)])
  {
  }

  lemma SoughtCoalesced(mem: seq<Byte>, heap: Heap, before: Heap, off: int, size: nat, align: nat)
    requires align >= 1 && NoneFits(heap, size, align)
    requires Fits(before, off, size, align) && NoneFitsBelow(before, off, size, align)
    ensures var lo := FreeArraySize(|mem|);
            Sought(mem, heap, before, size, align, off, Refilled(Wiped(lo), before, lo, off))
  {
  }

  /** The array after a request that fails: filled anew if the heap could be coalesced. */
  ghost function SearchedArray(a: seq<Byte>, heap: Heap, before: Heap, hi: int): seq<Byte> {
    if before == heap then a else Refilled(Wiped(|a|), before, |a|, hi)
  }

  ghost predicate InBlock(heap: Heap, off: int, p: int) {
    off in heap && 0 <= off && 0 <= p < off + heap[off].len
  }

  /** The front part that is split off is handed to the free array. */
  ghost function WithFront(a: seq<Byte>, before: Heap, off: int, p: int): seq<Byte>
    requires InBlock(before, off, p)
  {
    var hdr := HeaderStart(off, before[off].len, p);
    if hdr - off >= MIN_BLOCK_SIZE then Filed(a, hdr - off, off) else a
  }

  /** Blocks in the buckets below that of the request are too small for it. */
  lemma SmallMiss(mem: seq<Byte>, heap: Heap, size: nat, align: nat)
    requires Sound(mem, heap) && size >= 1 && OneBit(align)
    ensures BucketsMiss(mem, heap, FreeArrayOff(size), size, align)
  {
    forall s | IsSlot(FreeArraySize(|mem|), s) && BucketOf(s) < FreeArrayOff(size)
      ensures SlotMisses(mem, heap, s, size, align)
    {
      var o := SlotValue(mem, s);
      if SlotHit(mem, heap, s, size, align) {
        assert Cached(heap, s, o);
        LongEnoughSize(o, heap[o].len, size, align);
        FreeArrayOffMono(size, heap[o].len);
      }
    }
  }

  /** Once the slots of a bucket miss too, so do all below the next bucket. */
  lemma BucketDone(mem: seq<Byte>, heap: Heap, bucket: int, size: nat, align: nat)
    requires align >= 1 && bucket % 3 == 0 && BucketsMiss(mem, heap, bucket, size, align)
    requires forall s {:trigger SlotMisses(mem, heap, s, size, align)} ::
               IsSlot(FreeArraySize(|mem|), s) && BucketOf(s) == bucket ==> SlotMisses(mem, heap, s, size, align)
    ensures BucketsMiss(mem, heap, bucket + 3, size, align)
  {
    hide SlotMisses, FreeArraySize;
    forall s | IsSlot(FreeArraySize(|mem|), s) && BucketOf(s) < bucket + 3 ensures SlotMisses(mem, heap, s, size, align) {
      SlotThird(s);
    }
  }

  lemma AllMiss(mem: seq<Byte>, heap: Heap, bucket: int, size: nat, align: nat)
    requires align >= 1 && bucket >= BUCKET_SPAN && BucketsMiss(mem, heap, bucket, size, align)
    ensures NoListedFits(mem, heap, size, align)
  {
    var lo := FreeArraySize(|mem|);
    forall o | Listed(mem, lo, o) ensures !Fits(heap, o, size, align) {
      var s :| IsSlot(lo, s) && SlotValue(mem, s) == o;
      assert SlotMisses(mem, heap, s, size, align);
    }
  }

  /** Nothing but off has become listed. */
  ghost predicate OnlyNew(mem: seq<Byte>, mem1: seq<Byte>, off: int) {
    |mem1| == |mem| && forall x {:trigger Listed(mem1, FreeArraySize(|mem|), x)} ::
      Listed(mem1, FreeArraySize(|mem|), x) ==> Listed(mem, FreeArraySize(|mem|), x) || x == off
  }

  /** The blocks before off cannot serve the request. */
  ghost predicate NoneFitsBelow(heap: Heap, off: int, size: nat, align: nat)
    requires align >= 1
  {
    forall o {:trigger Fits(heap, o, size, align)} :: o < off ==> !Fits(heap, o, size, align)
  }

  /** Every slot in use names a block before off. */
  ghost predicate ListedBelow(mem: seq<Byte>, off: int) {
    forall o {:trigger Listed(mem, FreeArraySize(|mem|), o)} :: Listed(mem, FreeArraySize(|mem|), o) ==> o < off
  }

  /** Going on from off refills the array as going on from the first block did. */
  ghost predicate RefillAt(a0: seq<Byte>, a: seq<Byte>, heap: Heap, lo: int, off: int) {
    forall hi {:trigger Refilled(a, heap, off, hi)} :: off <= hi ==> Refilled(a, heap, off, hi) == Refilled(a0, heap, lo, hi)
  }

  lemma RefillNext(a0: seq<Byte>, a: seq<Byte>, heap: Heap, lo: int, off: int)
    requires RefillAt(a0, a, heap, lo, off) && off in heap && 0 <= off && heap[off].len >= 1
    ensures RefillAt(a0, if heap[off].free then Filed(a, heap[off].len, off) else a, heap, lo, off + heap[off].len)
  {
    hide Filed;
    var a1 := if heap[off].free then Filed(a, heap[off].len, off) else a;
    forall hi | off + heap[off].len <= hi ensures Refilled(a1, heap, off + heap[off].len, hi) == Refilled(a0, heap, lo, hi) {
      assert Refilled(a, heap, off, hi) == Refilled(a0, heap, lo, hi);
    }
  }

  lemma RefillStart(a: seq<Byte>, heap: Heap, lo: int)
    ensures RefillAt(a, a, heap, lo, lo)
  {
  }

  lemma RefillDone(a0: seq<Byte>, a: seq<Byte>, heap: Heap, lo: int, off: int)
    requires RefillAt(a0, a, heap, lo, off)
    ensures a == Refilled(a0, heap, lo, off)
  {
    assert Refilled(a, heap, off, off) == a;
  }

  /** Writing behind the free array leaves it as it is. */
  lemma ArrayFrame(mem: seq<Byte>, mem1: seq<Byte>, a: int, b: int)
    requires SameOutside(mem, mem1, a, b) && FreeArraySize(|mem|) <= a
    ensures mem1[..FreeArraySize(|mem|)] == mem[..FreeArraySize(|mem|)]
    ensures |mem1| == |mem| && forall x :: 0 <= x < FreeArraySize(|mem|) ==> mem1[x] == mem[x]
  {
  }

  /** A slot write, seen on the bytes of the array. */
  lemma ArrayStored(mem: seq<Byte>, mem1: seq<Byte>, s: int, v: nat)
    requires 0 <= s && s + 3 <= FreeArraySize(|mem|) && mem1 == Stored(mem, s, v)
    ensures mem1[..FreeArraySize(|mem|)] == Stored(mem[..FreeArraySize(|mem|)], s, v)
  {
  }

  /** Zeros in the bytes of a slot. */
  lemma ClearedSlot(mem: seq<Byte>, mem1: seq<Byte>, s: int)
    requires 0 <= s && s + 3 <= FreeArraySize(|mem|) && ZeroFrom(mem1, s, s + 3) && SameOutside(mem, mem1, s, s + 3)
    ensures mem1[..FreeArraySize(|mem|)] == Stored(mem[..FreeArraySize(|mem|)], s, 0)
  {
    assert mem1 == Stored(mem, s, 0);
    ArrayStored(mem, mem1, s, 0);
  }

  lemma WipedArray(mem: seq<Byte>)
    requires ZeroFrom(mem, 0, FreeArraySize(|mem|))
    ensures mem[..FreeArraySize(|mem|)] == Wiped(FreeArraySize(|mem|))
  {
  }

  /** The next block after off starts at its end: none is skipped. */
  lemma FitsBelowNext(mem: seq<Byte>, heap: Heap, off: int, size: nat, align: nat)
    requires Sound(mem, heap) && off in heap && align >= 1
    requires NoneFitsBelow(heap, off, size, align) && !Fits(heap, off, size, align)
    ensures NoneFitsBelow(heap, End(heap, off), size, align)
  {
  }

  lemma NoneFitsAtEnd(mem: seq<Byte>, heap: Heap, off: int, size: nat, align: nat)
    requires Sound(mem, heap) && align >= 1 && off >= |mem| && NoneFitsBelow(heap, off, size, align)
    ensures NoneFits(heap, size, align)
  {
    forall o ensures !Fits(heap, o, size, align) {
      if Fits(heap, o, size, align) {
        HeaderOf(mem, heap, o);
      }
    }
  }

  /** The heap part of soundness does not depend on the free array's bytes. */
  lemma CacheWritten(mem: seq<Byte>, mem1: seq<Byte>, heap: Heap)
    requires Sound(mem, heap) && SameOutside(mem, mem1, 0, FreeArraySize(|mem|))
    requires CacheOK(mem1, FreeArraySize(|mem|), heap)
    ensures Sound(mem1, heap)
  {
    forall o | o in heap ensures BlockAt(mem1, o, heap[o]) {
      FarBlock(mem, mem1, o, heap[o], 0, FreeArraySize(|mem|));
    }
  }

  lemma FirstBlock(mem: seq<Byte>, heap: Heap, size: nat, align: nat)
    requires Sound(mem, heap) && align >= 1
    ensures FreeArraySize(|mem|) in heap && NoneFitsBelow(heap, FreeArraySize(|mem|), size, align)
  {
  }

  lemma SameSelf(mem: seq<Byte>)
    ensures forall a, b :: SameOutside(mem, mem, a, b)
  {
  }

  // ----- Placing an allocation -----

  /** What serving a request from the free block at off does to the heap. */
  ghost predicate Placed(h0: Heap, h1: Heap, off: int, size: nat, align: nat, p: int)
    requires align >= 1
  {
    && Fits(h0, off, size, align) && MIN_BLOCK_SIZE <= h0[off].len && size <= off + h0[off].len
    && p == PayloadStart(off, h0[off].len, size, align) < off + h0[off].len
    && h1 == Carved(h0, off, HeaderStart(off, h0[off].len, p), p, size)
  }

  /** The block at off is split at hdr when the front part is large enough to be a block, and used whole if not. */
  ghost function Carved(h: Heap, off: int, hdr: int, p: int, size: nat): Heap
    requires off in h && hdr <= off + h[off].len
  {
    if hdr - off >= MIN_BLOCK_SIZE
    then h[off := FreeBlock(hdr - off)][hdr := Block(off + h[off].len - hdr, false, p, size)]
    else h[off := Block(h[off].len, false, p, size)]
  }

  /** The pointer p is the payload of the allocated block at o. */
  ghost predicate Owns(heap: Heap, o: int, p: int) {
    o in heap && !heap[o].free && heap[o].pay == p
  }

  /** Where the block of an allocation placed in the free block at off starts. */
  ghost function OwnerStart(h: Heap, off: int, p: int): int
    requires off in h && 0 <= off && 0 <= p < off + h[off].len
  {
    var hdr := HeaderStart(off, h[off].len, p);
    if hdr - off >= MIN_BLOCK_SIZE then hdr else off
  }

  /** The block at o has a byte of padding between its header and its payload. */
  ghost predicate Padded(heap: Heap, o: int) {
    o in heap && MIN_BLOCK_SIZE <= heap[o].len && heap[o].pay == o + HeaderSize(heap[o].len) + 1
  }

  /** The new block has padding exactly in the case LeavesByte, which never splits the free block. */
  lemma PlacedPadding(h0: Heap, h1: Heap, off: int, size: nat, align: nat, p: int)
    requires size >= 1 && OneBit(align) && Placed(h0, h1, off, size, align, p)
    ensures 0 <= off && 0 <= p < off + h0[off].len
    ensures var o := OwnerStart(h0, off, p);
            Owns(h1, o, p) && (Padded(h1, o) <==> LeavesByte(off, h0[off].len, p))
  {
    hide LongEnough, LenWithHeader, PayloadStart, EncodeLength;
    var len := h0[off].len;
    PayloadFits(off, len, size, align);
    HeaderFits(off, len, p);
    if HeaderStart(off, len, p) - off < MIN_BLOCK_SIZE {
      PaddingExactly(off, len, p);
    }
  }

  lemma PlaceFacts(mem: seq<Byte>, heap: Heap, off: int, size: nat, align: nat)
    requires Sound(mem, heap) && OneBit(align) && Fits(heap, off, size, align) && size >= 1
    ensures FreeArraySize(|mem|) <= off && off + heap[off].len <= |mem| && size <= off + heap[off].len
    ensures var p := PayloadStart(off, heap[off].len, size, align);
            p % align == 0 && off + LenWithHeader(heap[off].len) <= p && p + size <= off + heap[off].len
    ensures var p := PayloadStart(off, heap[off].len, size, align);
            var hdr := HeaderStart(off, heap[off].len, p);
            && off <= hdr < p && off + heap[off].len - hdr >= MIN_BLOCK_SIZE
            && HeaderSize(off + heap[off].len - hdr) == p - hdr
            && (hdr - off < MIN_BLOCK_SIZE ==> off + HeaderSize(heap[off].len) <= p <= off + HeaderSize(heap[off].len) + 1)
  {
    hide LongEnough, LenWithHeader, PayloadStart, AllAt, CacheOK, Ordered, Chained;
    HeaderInPlace(mem, heap, off);
    PayloadFits(off, heap[off].len, size, align);
    HeaderFits(off, heap[off].len, PayloadStart(off, heap[off].len, size, align));
  }

  /** Memory behind the free array changed only inside [a, b). */
  ghost predicate SameElse(mem: seq<Byte>, mem1: seq<Byte>, lo: int, a: int, b: int) {
    |mem| == |mem1| && forall x :: 0 <= lo <= x < |mem| && !(a <= x < b) ==> mem1[x] == mem[x]
  }

  /** Blocks other than the one at off are not touched by placing an allocation in it. */
  /** A header fits the front part. */
  lemma FrontRoom(mem: seq<Byte>, heap: Heap, off: int, hdr: int)
    requires Sound(mem, heap) && 0 <= off && off + MIN_BLOCK_SIZE <= hdr <= |mem|
    ensures 0 <= off < 0x100_0000 && hdr - off >= 1 && off + HeaderSize(hdr - off) <= hdr
  {
    HeaderSizeFits(hdr - off);
    SmallPool(mem, heap);
  }

  lemma FrontMemory(mem: seq<Byte>, mem1: seq<Byte>, mem2: seq<Byte>, off: int, mid: int, hdr: int)
    requires SameOutside(mem, mem1, off, mid) && mid <= hdr && SameOutside(mem1, mem2, 0, FreeArraySize(|mem|))
    ensures SameElse(mem, mem2, FreeArraySize(|mem|), off, hdr)
  {
  }

  lemma OthersInPlace(mem: seq<Byte>, mem1: seq<Byte>, heap: Heap, off: int, x: int)
    requires Sound(mem, heap) && off in heap && x in heap && x != off
    requires SameElse(mem, mem1, FreeArraySize(|mem|), off, off + heap[off].len)
    ensures BlockAt(mem1, x, heap[x])
  {
    HeaderSizeFits(heap[x].len);
    BlockFrame(mem, mem1, x, heap[x]);
  }

  lemma PlacedData(mem: seq<Byte>, mem1: seq<Byte>, heap: Heap, off: int)
    requires Sound(mem, heap) && off in heap && heap[off].free
    requires SameElse(mem, mem1, FreeArraySize(|mem|), off, off + heap[off].len)
    ensures KeepsData(heap, mem, mem1)
  {
  }

  lemma AllocatedAt(mem: seq<Byte>, o: int, b: Block)
    requires !b.free && HeaderAt(mem, o, b.len, false) && o + b.len <= |mem|
    requires o + HeaderSize(b.len) <= b.pay <= o + HeaderSize(b.len) + 1 && 1 <= b.req && b.pay + b.req <= o + b.len
    requires ZeroFrom(mem, o + HeaderSize(b.len), b.pay)
    ensures BlockAt(mem, o, b)
  {
  }

  lemma SplitSound(mem: seq<Byte>, mem1: seq<Byte>, heap: Heap, off: int, hdr: int, p: int, size: nat)
    requires Sound(mem, heap) && off in heap && heap[off].free
    requires off + MIN_BLOCK_SIZE <= hdr < p && size >= 1 && p + size <= off + heap[off].len
    requires HeaderSize(off + heap[off].len - hdr) == p - hdr
    requires SameElse(mem, mem1, FreeArraySize(|mem|), off, off + heap[off].len)
    requires HeaderAt(mem1, off, hdr - off, true) && HeaderAt(mem1, hdr, off + heap[off].len - hdr, false)
    requires CacheOK(mem1, FreeArraySize(|mem|), Carved(heap, off, hdr, p, size))
    ensures Sound(mem1, Carved(heap, off, hdr, p, size))
  {
    var a, b := FreeBlock(hdr - off), Block(off + heap[off].len - hdr, false, p, size);
    SplitTiled(heap, FreeArraySize(|mem|), |mem|, off, hdr, a, b);
    FreeBlockAt(mem1, off, hdr - off);
    AllocatedAt(mem1, hdr, b);
    hide HeaderAt, BlockAt, SameElse, CacheOK, HeaderSize;
    forall x | x in heap && x != off ensures BlockAt(mem1, x, heap[x]) {
      OthersInPlace(mem, mem1, heap, off, x);
    }
  }

  lemma AbsorbSound(mem: seq<Byte>, mem1: seq<Byte>, heap: Heap, off: int, hdr: int, p: int, size: nat)
    requires Sound(mem, heap) && off in heap && heap[off].free && hdr - off < MIN_BLOCK_SIZE && hdr <= off + heap[off].len
    requires size >= 1 && p + size <= off + heap[off].len
    requires off + HeaderSize(heap[off].len) <= p <= off + HeaderSize(heap[off].len) + 1
    requires SameElse(mem, mem1, FreeArraySize(|mem|), off, off + heap[off].len)
    requires HeaderAt(mem1, off, heap[off].len, false) && ZeroFrom(mem1, off + HeaderSize(heap[off].len), p)
    requires CacheOK(mem1, FreeArraySize(|mem|), Carved(heap, off, hdr, p, size))
    ensures Sound(mem1, Carved(heap, off, hdr, p, size))
  {
    var b := Block(heap[off].len, false, p, size);
    ReplaceTiled(heap, FreeArraySize(|mem|), |mem|, off, b);
    AllocatedAt(mem1, off, b);
    hide HeaderAt, BlockAt, SameElse, CacheOK, HeaderSize;
    forall x | x in heap && x != off ensures BlockAt(mem1, x, heap[x]) {
      OthersInPlace(mem, mem1, heap, off, x);
    }
  }

  lemma HeaderUntouched(mem: seq<Byte>, mem1: seq<Byte>, o: int, len: nat, free: bool, a: int, b: int)
    requires HeaderAt(mem, o, len, free) && SameOutside(mem, mem1, a, b)
    requires o + HeaderSize(len) <= a || b <= o
    ensures HeaderAt(mem1, o, len, free)
  {
    HeaderFrame(mem, mem1, o, len, free);
  }

  lemma SmallPool(mem: seq<Byte>, heap: Heap)
    requires Sound(mem, heap)
    ensures |mem| < MIN_USEFUL_SIZE
  {
  }

  /** After the front block and the allocated header are written. */
  lemma SplitMemory(mem: seq<Byte>, mem1: seq<Byte>, mem2: seq<Byte>, heap: Heap, heap1: Heap, off: int, hdr: int, p: int)
    requires Sound(mem, heap) && off in heap && off + MIN_BLOCK_SIZE <= hdr < p < off + heap[off].len
    requires SameElse(mem, mem1, FreeArraySize(|mem|), off, hdr) && HeaderAt(mem1, off, hdr - off, true)
    requires CacheOK(mem1, FreeArraySize(|mem|), heap1) && SameOutside(mem1, mem2, hdr, p)
    ensures SameElse(mem, mem2, FreeArraySize(|mem|), off, off + heap[off].len)
    ensures HeaderAt(mem2, off, hdr - off, true) && CacheOK(mem2, FreeArraySize(|mem|), heap1)
  {
    HeaderSizeFits(hdr - off);
    HeaderUntouched(mem1, mem2, off, hdr - off, true, hdr, p);
    CacheFrame(mem1, mem2, FreeArraySize(|mem|), heap1, heap1);
  }

  /** The free array still agrees with the heap once an unlisted block has been carved up. */
  lemma CarvedCache(mem: seq<Byte>, mem1: seq<Byte>, heap: Heap, off: int, hdr: int, p: int, size: nat)
    requires Sound(mem, heap) && off in heap && heap[off].free && !Listed(mem, FreeArraySize(|mem|), off)
    requires hdr <= off + heap[off].len && (hdr - off >= MIN_BLOCK_SIZE ==> hdr < off + heap[off].len)
    requires |mem1| == |mem| && forall x :: 0 <= x < FreeArraySize(|mem|) ==> mem1[x] == mem[x]
    ensures CacheOK(mem1, FreeArraySize(|mem|), Carved(heap, off, hdr, p, size))
    ensures !Listed(mem1, FreeArraySize(|mem|), off)
    ensures var h := Carved(heap, off, hdr, p, size);
            off in h && (hdr - off >= MIN_BLOCK_SIZE ==> h[off] == FreeBlock(hdr - off))
  {
    assert hdr - off >= MIN_BLOCK_SIZE ==> hdr !in heap;
    CacheFrame(mem, mem1, FreeArraySize(|mem|), heap, Carved(heap, off, hdr, p, size));
  }

  /** No maximal run of free blocks, taken as one block, can serve the request. */
  ghost predicate NoRunFits(heap: Heap, hi: int, size: nat, align: nat)
    requires align >= 1
  {
    forall a, e {:trigger MaximalRun(heap, hi, a, e)} :: 0 <= a && MaximalRun(heap, hi, a, e) ==> !LongEnough(a, e - a, size, align)
  }

  /** After coalescing, a block fits exactly when a maximal run of the original heap does. */
  lemma RunsFit(h0: Heap, h1: Heap, lo: int, hi: int, size: nat, align: nat)
    requires 0 <= lo && align >= 1
    requires Tiled(h0, lo, hi) && Tiled(h1, lo, hi) && Condenses(h0, h1) && NoAdjacentFree(h1)
    ensures NoneFits(h1, size, align) <==> NoRunFits(h0, hi, size, align)
  {
    forall a, e | 0 <= a && MaximalRun(h0, hi, a, e) && NoneFits(h1, size, align) ensures !LongEnough(a, e - a, size, align) {
      RunsAreBlocks(h0, h1, lo, hi, a, e);
      assert !Fits(h1, a, size, align);
    }
    forall o | NoRunFits(h0, hi, size, align) ensures !Fits(h1, o, size, align) {
      if Fits(h1, o, size, align) {
        RunsAreBlocks(h0, h1, lo, hi, o, o + h1[o].len);
      }
    }
  }

  lemma RunsFitSound(mem0: seq<Byte>, mem1: seq<Byte>, h0: Heap, h1: Heap, size: nat, align: nat)
    requires Sound(mem0, h0) && Sound(mem1, h1) && |mem0| == |mem1| && align >= 1
    requires Condenses(h0, h1) && NoAdjacentFree(h1)
    ensures NoneFits(h1, size, align) <==> NoRunFits(h0, |mem0|, size, align)
  {
    RunsFit(h0, h1, FreeArraySize(|mem0|), |mem0|, size, align);
  }

  lemma CondensedData(h0: Heap, h1: Heap, mem0: seq<Byte>, mem1: seq<Byte>, mem2: seq<Byte>)
    requires Condenses(h0, h1) && KeepsData(h0, mem0, mem1) && KeepsData(h1, mem1, mem2)
    ensures KeepsData(h0, mem0, mem2)
  {
    forall o, x | o in h0 && !h0[o].free && 0 <= x < |mem0| && o <= x < o + h0[o].len ensures mem2[x] == mem0[x] {
      assert h1[o] == h0[o];
    }
  }

  lemma CacheKeepsData(mem: seq<Byte>, mem1: seq<Byte>, heap: Heap)
    requires Sound(mem, heap) && SameOutside(mem, mem1, 0, FreeArraySize(|mem|))
    ensures KeepsData(heap, mem, mem1)
  {
  }

  lemma SoundCondenses(mem: seq<Byte>, heap: Heap)
    requires Sound(mem, heap)
    ensures Condenses(heap, heap)
  {
    CondensesSelf(heap, FreeArraySize(|mem|), |mem|);
  }

  lemma WiredEmpty(mem: seq<Byte>, heap: Heap)
    requires Sound(mem, heap) && ZeroFrom(mem, 0, FreeArraySize(|mem|))
    ensures ListedBelow(mem, FreeArraySize(|mem|))
  {
    EmptyCache(mem, FreeArraySize(|mem|), heap);
  }

  lemma SlotFrees(mem: seq<Byte>, mem1: seq<Byte>, heap: Heap, s: int)
    requires Sound(mem, heap) && IsSlot(FreeArraySize(|mem|), s)
    requires ZeroFrom(mem1, s, s + 3) && SameOutside(mem, mem1, s, s + 3)
    ensures Sound(mem1, heap) && !Listed(mem1, FreeArraySize(|mem|), SlotValue(mem, s)) && KeepsData(heap, mem, mem1)
  {
    EmptiedSlot(mem, mem1, FreeArraySize(|mem|), heap, s);
    CacheWritten(mem, mem1, heap);
    CacheKeepsData(mem, mem1, heap);
  }

  lemma HeaderInPlace(mem: seq<Byte>, heap: Heap, o: int)
    requires Sound(mem, heap) && o in heap
    ensures HeaderAt(mem, o, heap[o].len, heap[o].free) && 0 <= o && o + heap[o].len <= |mem| && MIN_BLOCK_SIZE <= heap[o].len
    ensures !heap[o].free ==> o + HeaderSize(heap[o].len) <= heap[o].pay <= o + HeaderSize(heap[o].len) + 1
                              && 1 <= heap[o].req && heap[o].pay + heap[o].req <= End(heap, o)
  {
    assert BlockAt(mem, o, heap[o]);
  }

  lemma SoundCache(mem: seq<Byte>, heap: Heap)
    requires Sound(mem, heap)
    ensures CacheOK(mem, FreeArraySize(|mem|), heap)
  {
  }

  // ----- Finding the header of a payload -----

  /** The bytes in front of a payload: zeros back to the last header byte. */
  lemma BeforePayload(mem: seq<Byte>, heap: Heap, o: int, p: int)
    requires Sound(mem, heap) && Owns(heap, o, p)
    ensures MIN_BLOCK_SIZE <= heap[o].len && 0 <= o
    ensures var h := HeaderSize(heap[o].len);
            && 1 <= h && o + h <= p <= |mem|
            && (forall x :: o + h <= x < p ==> mem[x] == 0)
            && (forall x {:trigger mem[x]} :: o <= x < o + h ==> (HasTerm(mem[x]) <==> x == o || x == o + h - 1))
            && (HasSingle(mem[o + h - 1]) <==> h == 1)
  {
    var len := heap[o].len;
    var h := HeaderSize(len);
    assert BlockAt(mem, o, heap[o]);
    HeaderSizeFits(len);
    EncodedLength(len, false);
    forall x | o <= x < o + h
      ensures HasTerm(mem[x]) <==> x == o || x == o + h - 1
      ensures x == o + h - 1 ==> (HasSingle(mem[x]) <==> x == o)
    {
      assert mem[x] == mem[o..o + h][x - o];
      HeaderBytes(len, false, x - o);
    }
  }

  /** Marking an allocated block free, as the free bit in its first header byte does. */
  lemma SetFreeBit(mem: seq<Byte>, o: int, len: nat)
    requires HeaderAt(mem, o, len, false)
    ensures 0 <= o < |mem| && !HasFree(mem[o]) && mem[o] + FREE_BIT < 256
    ensures HeaderAt(mem[o := mem[o] + FREE_BIT], o, len, true)
  {
    EncodedLength(len, false);
    EncodedLength(len, true);
    var h := HeaderSize(len);
    var v := len - MIN_BLOCK_SIZE;
    FirstByteFacts(v, false);
    assert mem[o] == mem[o..o + h][0];
    var mem1: seq<Byte> := mem[o := mem[o] + FREE_BIT];
    assert mem1[o..o + h] == [mem1[o]] + mem[o..o + h][1..];
    assert Encode(len, true) == [mem1[o]] + Encode(len, false)[1..];
  }

  lemma FreedSound(mem: seq<Byte>, mem1: seq<Byte>, heap: Heap, o: int)
    requires Sound(mem, heap) && o in heap && !heap[o].free
    requires HeaderAt(mem1, o, heap[o].len, true) && SameOutside(mem, mem1, o, o + 1)
    ensures Sound(mem1, Freed(heap, o)) && !Listed(mem1, FreeArraySize(|mem|), o)
  {
    var h1 := Freed(heap, o);
    ReplaceTiled(heap, FreeArraySize(|mem|), |mem|, o, FreeBlock(heap[o].len));
    forall x | x in h1 ensures BlockAt(mem1, x, h1[x]) {
      if x != o {
        FarBlock(mem, mem1, x, heap[x], o, o + 1);
      }
    }
    FreedCache(mem, mem1, heap, o);
  }

  lemma FreedCache(mem: seq<Byte>, mem1: seq<Byte>, heap: Heap, o: int)
    requires Sound(mem, heap) && o in heap && !heap[o].free && SameOutside(mem, mem1, o, o + 1)
    ensures CacheOK(mem1, FreeArraySize(|mem|), Freed(heap, o)) && !Listed(mem1, FreeArraySize(|mem|), o)
  {
    forall x | Listed(mem, FreeArraySize(|mem|), x) ensures x != o {
      ListedIsFree(mem, FreeArraySize(|mem|), heap, x);
    }
    CacheFrame(mem, mem1, FreeArraySize(|mem|), heap, Freed(heap, o));
  }

  lemma FreedData(mem: seq<Byte>, mem1: seq<Byte>, mem2: seq<Byte>, heap: Heap, o: int)
    requires Sound(mem, heap) && o in heap && !heap[o].free
    requires SameOutside(mem, mem1, o, o + 1) && SameOutside(mem1, mem2, 0, FreeArraySize(|mem|))
    ensures KeepsData(heap - {o}, mem, mem2)
  {
  }

  lemma WriteSound(mem: seq<Byte>, mem1: seq<Byte>, heap: Heap, o: int, x: int)
    requires Sound(mem, heap) && o in heap && !heap[o].free && heap[o].pay <= x < o + heap[o].len
    requires SameOutside(mem, mem1, x, x + 1)
    ensures Sound(mem1, heap)
  {
    assert BlockAt(mem, o, heap[o]);
    HeaderSizeFits(heap[o].len);
    forall y | y in heap ensures BlockAt(mem1, y, heap[y]) {
      if y == o {
        BlockFrame(mem, mem1, o, heap[o]);
      } else {
        FarBlock(mem, mem1, y, heap[y], x, x + 1);
      }
    }
    CacheFrame(mem, mem1, FreeArraySize(|mem|), heap, heap);
  }

  lemma ZeroUntouched(mem: seq<Byte>, mem1: seq<Byte>, a: int, b: int)
    requires ZeroFrom(mem, 0, a) && SameOutside(mem, mem1, a, b)
    ensures ZeroFrom(mem1, 0, a)
  {
  }

  lemma InitialSound(mem: seq<Byte>)
    requires MIN_BLOCK_SIZE <= |mem| < MIN_USEFUL_SIZE
    requires var lo := FreeArraySize(|mem|); ZeroFrom(mem, 0, lo) && |mem| - lo >= MIN_BLOCK_SIZE && HeaderAt(mem, lo, |mem| - lo, true)
    ensures var lo := FreeArraySize(|mem|); Sound(mem, map[lo := FreeBlock(|mem| - lo)])
  {
    var lo := FreeArraySize(|mem|);
    EmptyCache(mem, lo, map[lo := FreeBlock(|mem| - lo)]);
  }

  lemma WalkHeader(mem: seq<Byte>, heap: Heap, h0: Heap, lo: int, off: int, last: Last)
    requires Walking(mem, heap, h0, lo, off, last) && off < |mem|
    ensures off in heap && 0 <= off && MIN_BLOCK_SIZE <= heap[off].len && off + heap[off].len <= |mem|
    ensures Decode(mem[off..]) == Header(heap[off].len, heap[off].free, HeaderSize(heap[off].len))
    ensures last.free ==> 0 <= last.off && last.len >= MIN_BLOCK_SIZE
                          && last.off + HeaderSize(last.len + heap[off].len) <= |mem|
  {
    hide Condenses, AdjacentFree, Encode, Decode, EncodeLength, Ordered;
    HeaderDecodes(mem, off, heap[off].len, heap[off].free);
    HeaderSizeFits(heap[off].len);
    if last.free {
      HeaderSizeFits(last.len + heap[off].len);
    }
  }

  lemma WalkSound(mem: seq<Byte>, heap: Heap)
    requires Sound(mem, heap)
    ensures FreeArraySize(|mem|) < |mem| && KeepsData(heap, mem, mem)
    ensures Walking(mem, heap, heap, FreeArraySize(|mem|), FreeArraySize(|mem|), Last(0, 0, false))
  {
    WalkStart(mem, heap, FreeArraySize(|mem|));
  }

  lemma WalkDone(mem: seq<Byte>, heap: Heap, h0: Heap, lo: int, off: int, last: Last)
    requires Walking(mem, heap, h0, lo, off, last)
    ensures Tiled(heap, lo, |mem|) && AllAt(mem, heap) && Condenses(h0, heap)
  {
  }

  /** Wiping the free array after coalescing makes the pool sound again. */
  lemma Cleared(h0: Heap, mem0: seq<Byte>, heap: Heap, mem: seq<Byte>, mem1: seq<Byte>)
    requires Sound(mem0, h0) && |mem| == |mem0| && KeepsData(h0, mem0, mem)
    requires Tiled(heap, FreeArraySize(|mem|), |mem|) && AllAt(mem, heap)
    requires ZeroFrom(mem1, 0, FreeArraySize(|mem|)) && SameOutside(mem, mem1, 0, FreeArraySize(|mem|))
    ensures Sound(mem1, heap) && KeepsData(h0, mem0, mem1)
  {
    EmptyCache(mem1, FreeArraySize(|mem1|), heap);
    forall o | o in heap ensures BlockAt(mem1, o, heap[o]) {
      FarBlock(mem, mem1, o, heap[o], 0, FreeArraySize(|mem|));
    }
    CacheData(h0, mem0, mem, mem1);
  }

  lemma CacheData(heap: Heap, mem0: seq<Byte>, mem: seq<Byte>, mem1: seq<Byte>)
    requires Sound(mem0, heap) && |mem| == |mem0| && KeepsData(heap, mem0, mem)
    requires SameOutside(mem, mem1, 0, FreeArraySize(|mem|))
    ensures KeepsData(heap, mem0, mem1)
  {
  }

  /** Zero-sized requests ask for one byte. */
  function Ask(size: nat): (r: nat)
    ensures r >= 1 && (size >= 1 ==> r == size) && r <= size + 1
  {
    if size == 0 then 1 else size
  }

  lemma FitsSomewhere(heap: Heap, off: int, size: nat, align: nat)
    requires align >= 1 && Fits(heap, off, size, align)
    ensures !NoneFits(heap, size, align)
  {
  }

  lemma HeaderOf(mem: seq<Byte>, heap: Heap, o: int)
    requires Sound(mem, heap) && o in heap
    ensures 0 <= o < |mem| && MIN_BLOCK_SIZE <= heap[o].len && o + heap[o].len <= |mem|
    ensures FreeArraySize(|mem|) <= o
    ensures End(heap, o) == |mem| || End(heap, o) in heap
    ensures Decode(mem[o..]) == Header(heap[o].len, heap[o].free, HeaderSize(heap[o].len))
  {
    HeaderDecodes(mem, o, heap[o].len, heap[o].free);
  }

  class TinyPool {
    const arr: array<Byte>
    ghost var heap: Heap

    /** tiny_alloc_init over memory that may hold anything. */
    constructor (pool: array<Byte>)
      requires pool.Length < MIN_USEFUL_SIZE
      modifies pool
      ensures Valid() && arr == pool
      ensures pool.Length < MIN_BLOCK_SIZE ==> pool[..] == old(pool[..])
      ensures pool.Length >= MIN_BLOCK_SIZE ==>
                var lo := FreeArraySize(pool.Length); heap == map[lo := FreeBlock(pool.Length - lo)] && FreeArray() == Wiped(lo)
    {
      hide HeaderAt, Sound, HeaderSize, ZeroFrom;
      arr := pool;
      heap := map[];
      new;
      var arrsize := FreeArraySize(pool.Length);
      if pool.Length >= MIN_BLOCK_SIZE {
        HeaderSizeFits(pool.Length - arrsize);
        Clear(0, arrsize);
        ghost var mem1 := arr[..];
        var hdrlen := EncodeAt(arr, arrsize, pool.Length - arrsize, true);
        ZeroUntouched(mem1, arr[..], arrsize, arrsize + HeaderSize(pool.Length - arrsize));
        WipedArray(arr[..]);
        heap := map[arrsize := FreeBlock(pool.Length - arrsize)];
        InitialSound(arr[..]);
      }
    }

    ghost predicate Valid()
      reads this, arr
    {
      arr.Length < MIN_USEFUL_SIZE && if arr.Length < MIN_BLOCK_SIZE then heap == map[] else Sound(arr[..], heap)
    }

    method ReadHeader(o: int) returns (len: nat, free: bool)
      requires Sound(arr[..], heap) && o in heap
      ensures len == heap[o].len && free == heap[o].free
      ensures 0 <= o && MIN_BLOCK_SIZE <= len && o + len <= arr.Length && FreeArraySize(arr.Length) <= o
      ensures o + len == arr.Length || o + len in heap
    {
      hide Sound, Decode, HeaderSize;
      HeaderOf(arr[..], heap, o);
      assert arr[..][o..] == arr[o..];
      var hdrlen;
      len, free, hdrlen := DecodeAt(arr, o);
    }

    /** memset to zero. */
    method Clear(a: int, b: int)
      requires 0 <= a <= b <= arr.Length
      modifies arr
      ensures ZeroFrom(arr[..], a, b) && SameOutside(old(arr[..]), arr[..], a, b)
    {
      for x := a to b
        invariant forall y :: a <= y < x ==> arr[y] == 0
        invariant forall y :: 0 <= y < arr.Length && !(a <= y < x) ==> arr[y] == old(arr[y])
      {
        arr[x] := 0;
      }
    }

    /** The bytes of the free array. */
    ghost function FreeArray(): seq<Byte>
      reads arr
    {
      arr[..FreeArraySize(arr.Length)]
    }

    /** The three bytes of a slot. */
    function Slot(s: int): (v: nat)
      requires 0 <= s && s + 3 <= arr.Length
      reads arr
      ensures v == SlotValue(arr[..], s)
    {
      0x1_0000 * (arr[s] as int) + 0x100 * (arr[s + 1] as int) + arr[s + 2] as int
    }

    method WriteSlot(s: int, off: int)
      requires 0 <= s && s + 3 <= arr.Length && 0 <= off < 0x100_0000
      modifies arr
      ensures SlotValue(arr[..], s) == off && SameOutside(old(arr[..]), arr[..], s, s + 3)
      ensures arr[..] == Stored(old(arr[..]), s, off)
    {
      StoredSlot(arr[..], s, off);
      arr[s] := off / 0x1_0000 % 256;
      arr[s + 1] := off / 0x100 % 256;
      arr[s + 2] := off % 256;
    }

    /** add_to_free_array. */
    method AddToFreeArray(size: nat, off: int)
      requires CacheOK(arr[..], FreeArraySize(arr.Length), heap) && off in heap && heap[off].free && heap[off].len == size >= 1
      requires FreeArraySize(arr.Length) <= off < 0x100_0000 && !Listed(arr[..], FreeArraySize(arr.Length), off)
      modifies arr
      ensures CacheOK(arr[..], FreeArraySize(arr.Length), heap)
      ensures SameOutside(old(arr[..]), arr[..], 0, FreeArraySize(arr.Length))
      ensures OnlyNew(old(arr[..]), arr[..], off)
      ensures FreeArray() == Filed(old(FreeArray()), size, off)
    {
      hide CacheOK, Listed, SlotValue, BucketOf, FreeArrayOff, Stored;
      if size >= MAX_FREE_CACHED_SIZE {
        return;
      }
      FreeArrayOffBounds(size);
      var faOff := FreeArrayOff(size);
      FirstOfBucket(faOff);
      while faOff + 3 < FreeArraySize(arr.Length)
        invariant 0 <= faOff && faOff % 3 == 0 && BucketOf(faOff) == FreeArrayOff(size)
        invariant arr[..] == old(arr[..])
        invariant UnusedSlot(FreeArray(), faOff) == UnusedSlot(FreeArray(), FreeArrayOff(size))
        decreases FreeArraySize(arr.Length) - faOff
      {
        SlotBytes(faOff);
        if arr[faOff] == 0 && arr[faOff + 1] == 0 && arr[faOff + 2] == 0 {
          WriteSlot(faOff, off);
          ArrayStored(old(arr[..]), arr[..], faOff, off);
          AddedSlot(old(arr[..]), arr[..], FreeArraySize(arr.Length), heap, faOff, off);
          return;
        }
        NextSlot(faOff);
        SlotThird(faOff);
        faOff := faOff + BUCKET_SPAN;
      }
    }

    /** A slot is unused when its three bytes are zero. */
    lemma SlotBytes(s: int)
      requires 0 <= s && s + 3 < FreeArraySize(arr.Length)
      ensures SlotValue(FreeArray(), s) == SlotValue(arr[..], s)
      ensures SlotValue(arr[..], s) == 0 <==> arr[s] == 0 && arr[s + 1] == 0 && arr[s + 2] == 0
    {
    }

    /** The search of the free array in tiny_alloc_get: a slot whose block fits, or -1. */
    method SearchCache(size: nat, align: nat) returns (slot: int)
      requires Sound(arr[..], heap) && size >= 1 && OneBit(align)
      ensures slot >= 0 ==> FirstHit(arr[..], heap, slot, size, align)
      ensures slot < 0 ==> NoListedFits(arr[..], heap, size, align)
    {
      hide Sound, SlotMisses;
      var bucket := FreeArrayOff(size);
      FreeArrayOffBounds(size);
      SmallMiss(arr[..], heap, size, align);
      while bucket < BUCKET_SPAN
        invariant bucket % 3 == 0 && BucketsMiss(arr[..], heap, bucket, size, align)
      {
        slot := SearchBucket(bucket, size, align);
        if slot >= 0 {
          return;
        }
        bucket := bucket + 3;
      }
      AllMiss(arr[..], heap, bucket, size, align);
      slot := -1;
    }

    /** The inner loop: the slots of one bucket. */
    method SearchBucket(bucket: int, size: nat, align: nat) returns (slot: int)
      requires Sound(arr[..], heap) && size >= 1 && OneBit(align)
      requires 0 <= bucket < BUCKET_SPAN && bucket % 3 == 0 && BucketsMiss(arr[..], heap, bucket, size, align)
      ensures slot >= 0 ==> FirstHit(arr[..], heap, slot, size, align)
      ensures slot < 0 ==> BucketsMiss(arr[..], heap, bucket + 3, size, align)
    {
      hide Sound, SlotMisses, BucketOf;
      slot := bucket;
      FirstOfBucket(bucket);
      BelowFirst(bucket);
      while slot + 3 < FreeArraySize(arr.Length)
        invariant bucket <= slot && BucketOf(slot) == bucket && slot % 3 == 0
        invariant forall s {:trigger SlotMisses(arr[..], heap, s, size, align)} ::
                    IsSlot(FreeArraySize(arr.Length), s) && BucketOf(s) == bucket && s < slot ==> SlotMisses(arr[..], heap, s, size, align)
      {
        var hit := TrySlot(slot, size, align);
        if hit {
          return;
        }
        NextSlot(slot);
        SlotThird(slot);
        BetweenSlots(slot);
        slot := slot + BUCKET_SPAN;
      }
      BucketDone(arr[..], heap, bucket, size, align);
      slot := -1;
    }

    /** The inner loop's body: the slot's block is trusted to be free, its header is read for the length only. */
    method TrySlot(slot: int, size: nat, align: nat) returns (hit: bool)
      requires Sound(arr[..], heap) && size >= 1 && OneBit(align) && IsSlot(FreeArraySize(arr.Length), slot)
      ensures hit ==> SlotHit(arr[..], heap, slot, size, align)
      ensures !hit ==> SlotMisses(arr[..], heap, slot, size, align)
    {
      var off := Slot(slot);
      if off == 0 {
        return false;
      }
      assert Cached(heap, slot, SlotValue(arr[..], slot));
      var len, free := ReadHeader(off);
      hit := LongEnough(off, len, size, align);
    }
  
    /**
      The walk over all blocks in tiny_alloc_get: the first block that fits, or -1.  When
      refill is set the free array is filled with the free blocks that are passed over.
     */
    method Scan(size: nat, align: nat, refill: bool) returns (off: int)
      requires Sound(arr[..], heap) && size >= 1 && OneBit(align)
      requires if refill then ListedBelow(arr[..], FreeArraySize(arr.Length)) else NoListedFits(arr[..], heap, size, align)
      modifies arr
      ensures Sound(arr[..], heap) && SameOutside(old(arr[..]), arr[..], 0, FreeArraySize(arr.Length))
      ensures off >= 0 ==> Fits(heap, off, size, align) && !Listed(arr[..], FreeArraySize(arr.Length), off)
      ensures off < 0 ==> NoneFits(heap, size, align)
      ensures off >= 0 ==> NoneFitsBelow(heap, off, size, align)
      ensures off < 0 && !refill ==> arr[..] == old(arr[..])
      ensures FreeArray() == if refill then Refilled(old(FreeArray()), heap, FreeArraySize(arr.Length), if off >= 0 then off else arr.Length)
                             else old(FreeArray())
    {
      hide Sound, Listed, Refilled, Filed, RefillAt;
      off := FreeArraySize(arr.Length);
      ghost var a0 := FreeArray();
      RefillStart(a0, heap, off);
      FirstBlock(arr[..], heap, size, align);
      var len, free := ReadHeader(off);
      SameSelf(arr[..]);
      while !free || !LongEnough(off, len, size, align)
        invariant off in heap && FreeArraySize(arr.Length) <= off && len == heap[off].len && free == heap[off].free
        invariant 1 <= len && (off + len == arr.Length || off + len in heap) && off + len <= arr.Length
        invariant Sound(arr[..], heap) && SameOutside(old(arr[..]), arr[..], 0, FreeArraySize(arr.Length))
        invariant NoneFitsBelow(heap, off, size, align)
        invariant if refill then ListedBelow(arr[..], off) else arr[..] == old(arr[..])
        invariant refill ==> RefillAt(a0, FreeArray(), heap, FreeArraySize(arr.Length), off)
        decreases arr.Length - off
      {
        if refill {
          RefillNext(a0, FreeArray(), heap, FreeArraySize(arr.Length), off);
        }
        if free && refill {
          Refill(len, off);
        }
        FitsBelowNext(arr[..], heap, off, size, align);
        off := off + len;
        if off == arr.Length {
          if refill {
            RefillDone(a0, FreeArray(), heap, FreeArraySize(arr.Length), off);
          }
          NoneFitsAtEnd(arr[..], heap, off, size, align);
          return -1;
        }
        len, free := ReadHeader(off);
      }
      if refill {
        RefillDone(a0, FreeArray(), heap, FreeArraySize(arr.Length), off);
      }
    }

    method Refill(len: nat, off: int)
      requires Sound(arr[..], heap) && off in heap && heap[off].free && heap[off].len == len
      requires ListedBelow(arr[..], off)
      modifies arr
      ensures Sound(arr[..], heap) && SameOutside(old(arr[..]), arr[..], 0, FreeArraySize(arr.Length))
      ensures ListedBelow(arr[..], off + len)
      ensures len >= 1 && 0 <= off && FreeArray() == Filed(old(FreeArray()), len, off)
    {
      HeaderOf(arr[..], heap, off);
      assert !Listed(arr[..], FreeArraySize(arr.Length), off);
      assert CacheOK(arr[..], FreeArraySize(arr.Length), heap);
      AddToFreeArray(len, off);
      CacheWritten(old(arr[..]), arr[..], heap);
    }
  
    /** try_coalesce. */
    method TryCoalesce() returns (coalesced: bool)
      requires Sound(arr[..], heap)
      modifies arr, this`heap
      ensures Sound(arr[..], heap) && Condenses(old(heap), heap) && NoAdjacentFree(heap)
      ensures coalesced <==> exists o {:trigger AdjacentFree(old(heap), o)} :: AdjacentFree(old(heap), o)
      ensures !coalesced ==> heap == old(heap) && arr[..] == old(arr[..])
      ensures coalesced ==> ZeroFrom(arr[..], 0, FreeArraySize(arr.Length))
      ensures KeepsData(old(heap), old(arr[..]), arr[..])
    {
      hide Walking, CacheOK, Condenses, SameOutside, ZeroFrom;
      coalesced := Walk();
      if coalesced {
        ghost var mem := arr[..];
        var arrsize := FreeArraySize(arr.Length);
        Clear(0, arrsize);
        Cleared(old(heap), old(arr[..]), heap, mem, arr[..]);
      }
    }

    /** The loop of try_coalesce. */
    method Walk() returns (coalesced: bool)
      requires Sound(arr[..], heap)
      modifies arr, this`heap
      ensures Tiled(heap, FreeArraySize(arr.Length), arr.Length) && AllAt(arr[..], heap)
      ensures Condenses(old(heap), heap) && NoAdjacentFree(heap)
      ensures coalesced <==> exists o {:trigger AdjacentFree(old(heap), o)} :: AdjacentFree(old(heap), o)
      ensures !coalesced ==> heap == old(heap) && arr[..] == old(arr[..])
      ensures KeepsData(old(heap), old(arr[..]), arr[..])
    {
      ghost var h0, mem0, lo := heap, arr[..], FreeArraySize(arr.Length);
      var off := FreeArraySize(arr.Length);
      var last := Last(0, 0, false);
      coalesced := false;
      WalkStart(arr[..], heap, lo);
      WalkSound(arr[..], heap);
      hide Walking, Sound, Tiled, AllAt, KeepsData, SameOutside, AdjacentFree;
      while off < arr.Length
        invariant Walking(arr[..], heap, h0, lo, off, last) && lo <= off <= arr.Length
        invariant KeepsData(h0, mem0, arr[..])
        invariant !coalesced ==> heap == h0 && arr[..] == mem0
        invariant coalesced ==> exists o {:trigger AdjacentFree(h0, o)} :: AdjacentFree(h0, o)
        decreases arr.Length - off
      {
        ghost var heap1, mem1 := heap, arr[..];
        var merged;
        off, last, merged := WalkStep(off, last, h0);
        coalesced := coalesced || merged;
        KeepsDataTrans(h0, mem0, mem1, arr[..]);
        assert merged ==> exists o {:trigger AdjacentFree(heap1, o)} :: AdjacentFree(heap1, o);
      }
      WalkEnd(arr[..], heap, h0, lo, last);
      WalkDone(arr[..], heap, h0, lo, off, last);
      assert !coalesced ==> forall o {:trigger AdjacentFree(h0, o)} :: !AdjacentFree(h0, o);
    }

    /** The body of that loop. */
    method WalkStep(off: int, last: Last, ghost h0: Heap) returns (off1: int, last1: Last, merged: bool)
      requires Walking(arr[..], heap, h0, FreeArraySize(arr.Length), off, last) && off < arr.Length
      modifies arr, this`heap
      ensures off < off1 <= arr.Length
      ensures Walking(arr[..], heap, h0, FreeArraySize(arr.Length), off1, last1)
      ensures KeepsData(h0, old(arr[..]), arr[..])
      ensures !merged ==> heap == old(heap) && arr[..] == old(arr[..])
      ensures merged ==> exists o {:trigger AdjacentFree(old(heap), o)} :: AdjacentFree(old(heap), o)
    {
      hide Walking, SameOutside, Decode, HeaderAt, HeaderSize, KeepsData, AdjacentFree;
      WalkHeader(arr[..], heap, h0, FreeArraySize(arr.Length), off, last);
      KeepsDataSelf(h0, arr[..]);
      assert arr[..][off..] == arr[off..];
      var len, free, hdrlen := DecodeAt(arr, off);
      if free && last.free {
        last1 := Extend(off, last, len, h0);
        merged := true;
      } else {
        WalkOn(arr[..], heap, h0, FreeArraySize(arr.Length), off, last);
        last1 := Last(off, len, free);
        merged := false;
      }
      off1 := off + len;
    }
  
    /** The last block's header is written again to span the block at off. */
    method Extend(off: int, last: Last, len: nat, ghost h0: Heap) returns (last1: Last)
      requires Walking(arr[..], heap, h0, FreeArraySize(arr.Length), off, last) && off in heap
      requires last.free && heap[off].free && heap[off].len == len && 0 <= last.off && last.len >= MIN_BLOCK_SIZE
      requires last.off + HeaderSize(last.len + len) <= arr.Length
      modifies arr, this`heap
      ensures Walking(arr[..], heap, h0, FreeArraySize(arr.Length), off + len, last1)
      ensures KeepsData(h0, old(arr[..]), arr[..])
      ensures exists o {:trigger AdjacentFree(old(heap), o)} :: AdjacentFree(old(heap), o)
    {
      hide Walking, SameOutside, HeaderAt, HeaderSize, KeepsData, AdjacentFree;
      ghost var mem := arr[..];
      last1 := last.(len := last.len + len);
      var hdrlen := EncodeAt(arr, last.off, last1.len, true);
      WalkMerge(mem, arr[..], heap, h0, FreeArraySize(arr.Length), off, last);
      heap := Merged(heap, last.off, off);
    }
  
    /** encode_len_with_header: the loop that finds the least fixpoint. */
    method EncodeLenWithHeader(len: nat) returns (hdrlen: nat)
      requires len >= 1
      ensures hdrlen == LenWithHeader(len)
    {
      hdrlen := 1;
      EncodeLengthSmall(len - 1);
      while EncodeLength(len + hdrlen - MIN_BLOCK_SIZE) != hdrlen
        invariant 1 <= hdrlen <= len && hdrlen <= HeaderFor(len, hdrlen)
        invariant HeaderFrom(len, hdrlen) == LenWithHeader(len)
        decreases len - hdrlen
      {
        HeaderForBounded(len, hdrlen);
        HeaderForMono(len, hdrlen, len, HeaderFor(len, hdrlen));
        hdrlen := EncodeLength(len + hdrlen - MIN_BLOCK_SIZE);
      }
    }

    /** The end of tiny_alloc_get: the allocation goes to the far end of the free block at off. */
    method Place(off: int, len: nat, size: nat, align: nat) returns (actual: int)
      requires Sound(arr[..], heap) && OneBit(align) && Fits(heap, off, size, align) && heap[off].len == len && size >= 1
      requires !Listed(arr[..], FreeArraySize(arr.Length), off)
      modifies arr, this`heap
      ensures Sound(arr[..], heap) && Placed(old(heap), heap, off, size, align, actual)
      ensures actual % align == 0 && off < actual && actual + size <= off + len <= arr.Length
      ensures 0 <= off && FreeArray() == WithFront(old(FreeArray()), old(heap), off, actual)
      ensures KeepsData(old(heap), old(arr[..]), arr[..])
      ensures var o := OwnerStart(old(heap), off, actual);
              Owns(heap, o, actual) && (Padded(heap, o) <==> LeavesByte(off, len, actual))
    {
      hide Sound, Listed, HeaderSize, KeepsData, LongEnough, PayloadStart, LenWithHeader, Padded, LeavesByte, OwnerStart, Carved, Filed;
      HeaderInPlace(arr[..], heap, off);
      PlaceFacts(arr[..], heap, off, size, align);
      actual := PayloadStart(off, len, size, align);
      var hdrlen := EncodeLenWithHeader(off + len - actual);
      var hdr := actual - hdrlen;
      if hdr - off >= MIN_BLOCK_SIZE {
        SplitBlock(off, len, hdr, actual, size);
      } else {
        WholeBlock(off, len, hdr, actual, size);
      }
      PlacedPadding(old(heap), heap, off, size, align, actual);
    }

    /** The front part stays a free block of its own. */
    method SplitBlock(off: int, len: nat, hdr: int, actual: int, size: nat)
      requires Sound(arr[..], heap) && off in heap && heap[off].free && heap[off].len == len && 0 <= off && off + len <= arr.Length
      requires !Listed(arr[..], FreeArraySize(arr.Length), off)
      requires off + MIN_BLOCK_SIZE <= hdr < actual && size >= 1 && actual + size <= off + len
      requires HeaderSize(off + len - hdr) == actual - hdr
      modifies arr, this`heap
      ensures Sound(arr[..], heap) && heap == Carved(old(heap), off, hdr, actual, size)
      ensures KeepsData(old(heap), old(arr[..]), arr[..])
      ensures FreeArray() == Filed(old(FreeArray()), hdr - off, off)
    {
      hide Filed, Sound, Listed, HeaderSize, HeaderAt, SameOutside, SameElse, CacheOK, ZeroFrom, KeepsData;
      HeaderOf(arr[..], heap, off);
      FrontBlock(off, len, hdr, actual, size);
      ghost var mem1 := arr[..];
      AllocatedHeader(hdr, off + len - hdr, actual);
      ArrayFrame(mem1, arr[..], hdr, actual);
      SplitMemory(old(arr[..]), mem1, arr[..], old(heap), heap, off, hdr, actual);
      SplitSound(old(arr[..]), arr[..], old(heap), off, hdr, actual, size);
      PlacedData(old(arr[..]), arr[..], old(heap), off);
    }

    method FrontBlock(off: int, len: nat, hdr: int, actual: int, size: nat)
      requires Sound(arr[..], heap) && off in heap && heap[off].free && heap[off].len == len && 0 <= off && off + len <= arr.Length
      requires FreeArraySize(arr.Length) <= off && !Listed(arr[..], FreeArraySize(arr.Length), off)
      requires off + MIN_BLOCK_SIZE <= hdr < actual < off + len
      modifies arr, this`heap
      ensures heap == Carved(old(heap), off, hdr, actual, size)
      ensures SameElse(old(arr[..]), arr[..], FreeArraySize(arr.Length), off, hdr) && HeaderAt(arr[..], off, hdr - off, true)
      ensures CacheOK(arr[..], FreeArraySize(arr.Length), heap)
      ensures FreeArray() == Filed(old(FreeArray()), hdr - off, off)
    {
      hide *;
      FrontRoom(arr[..], heap, off, hdr);
      FrontHeader(off, len, hdr, actual, size);
      ghost var mem1 := arr[..];
      AddToFreeArray(hdr - off, off);
      FrontMemory(old(arr[..]), mem1, arr[..], off, off + HeaderSize(hdr - off), hdr);
      HeaderUntouched(mem1, arr[..], off, hdr - off, true, 0, FreeArraySize(arr.Length));
    }

    /** The header of the front part, which no slot names yet. */
    method FrontHeader(off: int, len: nat, hdr: int, actual: int, size: nat)
      requires Sound(arr[..], heap) && off in heap && heap[off].free && heap[off].len == len && 0 <= off && off + len <= arr.Length
      requires FreeArraySize(arr.Length) <= off && !Listed(arr[..], FreeArraySize(arr.Length), off)
      requires off + MIN_BLOCK_SIZE <= hdr < actual < off + len && off + HeaderSize(hdr - off) <= arr.Length
      modifies arr, this`heap
      ensures heap == Carved(old(heap), off, hdr, actual, size) && off in heap && heap[off].free && heap[off].len == hdr - off
      ensures SameOutside(old(arr[..]), arr[..], off, off + HeaderSize(hdr - off)) && HeaderAt(arr[..], off, hdr - off, true)
      ensures CacheOK(arr[..], FreeArraySize(arr.Length), heap) && !Listed(arr[..], FreeArraySize(arr.Length), off)
      ensures FreeArray() == old(FreeArray())
    {
      hide Sound, Listed, HeaderSize, HeaderAt, CacheOK, SameOutside, Carved;
      ghost var mem0 := arr[..];
      var hdrlen := EncodeAt(arr, off, hdr - off, true);
      ArrayFrame(mem0, arr[..], off, off + hdrlen);
      CarvedCache(mem0, arr[..], heap, off, hdr, actual, size);
      heap := Carved(heap, off, hdr, actual, size);
    }

    /** Zeros up to the payload, then the header of the allocated block. */
    method AllocatedHeader(hdr: int, len: nat, actual: int)
      requires len >= MIN_BLOCK_SIZE && 0 <= hdr && hdr + HeaderSize(len) <= actual <= arr.Length
      modifies arr
      ensures HeaderAt(arr[..], hdr, len, false) && ZeroFrom(arr[..], hdr + HeaderSize(len), actual)
      ensures SameOutside(old(arr[..]), arr[..], hdr, actual)
    {
      hide HeaderSize, HeaderAt;
      Clear(hdr, actual);
      var hdrlen := EncodeAt(arr, hdr, len, false);
    }

    /** The front part is too small for a block: the allocation takes the whole. */
    method WholeBlock(off: int, len: nat, hdr: int, actual: int, size: nat)
      requires Sound(arr[..], heap) && off in heap && heap[off].free && heap[off].len == len && MIN_BLOCK_SIZE <= len
      requires 0 <= off && off + len <= arr.Length && FreeArraySize(arr.Length) <= off
      requires !Listed(arr[..], FreeArraySize(arr.Length), off)
      requires off <= hdr < off + MIN_BLOCK_SIZE && hdr < actual && size >= 1 && actual + size <= off + len
      requires off + HeaderSize(len) <= actual <= off + HeaderSize(len) + 1
      modifies arr, this`heap
      ensures Sound(arr[..], heap) && heap == Carved(old(heap), off, hdr, actual, size)
      ensures KeepsData(old(heap), old(arr[..]), arr[..]) && FreeArray() == old(FreeArray())
    {
      hide Sound, Listed, HeaderSize, HeaderAt, CacheOK, ZeroFrom, KeepsData;
      ghost var mem0 := arr[..];
      AllocatedHeader(off, len, actual);
      ArrayFrame(mem0, arr[..], off, actual);
      CarvedCache(mem0, arr[..], heap, off, hdr, actual, size);
      AbsorbSound(mem0, arr[..], heap, off, hdr, actual, size);
      PlacedData(mem0, arr[..], heap, off);
      heap := Carved(heap, off, hdr, actual, size);
    }
  
    /** tiny_alloc_get on a pool that can hold blocks; before is the heap the allocation is taken from. */
    method GetFrom(size: nat, align: nat) returns (p: Option<int>, ghost before: Heap, ghost from: int)
      requires Sound(arr[..], heap) && size >= 1 && OneBit(align)
      modifies arr, this`heap
      ensures Sound(arr[..], heap) && KeepsData(old(heap), old(arr[..]), arr[..])
      ensures Condenses(old(heap), before)
      ensures before == old(heap) || (NoAdjacentFree(before) && NoneFits(old(heap), size, align))
      ensures p.None? <==> NoneFits(old(heap), size, align) && NoRunFits(old(heap), arr.Length, size, align)
      ensures p.None? ==> heap == before
      ensures p.Some? ==> Placed(before, heap, from, size, align, p.value)
      ensures p.Some? ==> p.value % align == 0 && 0 <= p.value && p.value + size <= arr.Length
      ensures p.Some? ==> InBlock(before, from, p.value) && exists a ::
                Sought(old(arr[..]), old(heap), before, size, align, from, a) && FreeArray() == WithFront(a, before, from, p.value)
      ensures p.None? ==> FreeArray() == SearchedArray(old(FreeArray()), old(heap), before, arr.Length)
    {
      hide Sound, Listed, KeepsData, Condenses, Placed, NoneFits, NoRunFits, NoListedFits, SlotValue, ListedBelow, ZeroFrom, SameOutside,
        AdjacentFree, Fits, WithFront, Stored, Refilled, SearchedArray, NoneFitsBelow, FirstHit, SearchedBefore;
      before := heap;
      SoundCondenses(arr[..], heap);
      KeepsDataSelf(heap, arr[..]);
      var slot := SearchCache(size, align);
      if slot >= 0 {
        var actual;
        HitIsHit(arr[..], heap, slot, size, align);
        SoughtSlot(arr[..], heap, slot, size, align);
        actual, from := TakeSlot(slot, size, align);
        return Some(actual), before, from;
      }
      ghost var mem0 := arr[..];
      assert mem0[..FreeArraySize(|mem0|)] == FreeArray();
      var off := Scan(size, align, false);
      if off < 0 {
        p, before, from := GetCoalesced(size, align);
        return;
      }
      CacheKeepsData(mem0, arr[..], heap);
      ghost var mem1 := arr[..];
      FitsSomewhere(heap, off, size, align);
      SoughtLow(mem0, heap, off, size, align);
      var actual := PlaceAt(off, size, align);
      KeepsDataTrans(old(heap), mem0, mem1, arr[..]);
      return Some(actual), before, off;
    }

    method TakeSlot(slot: int, size: nat, align: nat) returns (actual: int, ghost from: int)
      requires Sound(arr[..], heap) && size >= 1 && OneBit(align) && SlotHit(arr[..], heap, slot, size, align)
      modifies arr, this`heap
      ensures from == SlotValue(old(arr[..]), slot) && InBlock(old(heap), from, actual)
      ensures FreeArray() == WithFront(Stored(old(FreeArray()), slot, 0), old(heap), from, actual)
      ensures Sound(arr[..], heap) && Placed(old(heap), heap, from, size, align, actual)
      ensures actual % align == 0 && 0 <= actual && actual + size <= arr.Length
      ensures KeepsData(old(heap), old(arr[..]), arr[..]) && !NoneFits(old(heap), size, align)
    {
      hide Sound, Listed, KeepsData, Placed, ZeroFrom, SameOutside, Fits, WithFront, Stored;
      var off := Slot(slot);
      from := off;
      FitsSomewhere(heap, off, size, align);
      Clear(slot, slot + 3);
      ClearedSlot(old(arr[..]), arr[..], slot);
      SlotFrees(old(arr[..]), arr[..], heap, slot);
      ghost var mem1 := arr[..];
      actual := PlaceAt(off, size, align);
      KeepsDataTrans(old(heap), old(arr[..]), mem1, arr[..]);
    }

    method PlaceAt(off: int, size: nat, align: nat) returns (actual: int)
      requires Sound(arr[..], heap) && size >= 1 && OneBit(align) && Fits(heap, off, size, align)
      requires !Listed(arr[..], FreeArraySize(arr.Length), off)
      modifies arr, this`heap
      ensures Sound(arr[..], heap) && Placed(old(heap), heap, off, size, align, actual)
      ensures actual % align == 0 && 0 <= actual && actual + size <= arr.Length
      ensures KeepsData(old(heap), old(arr[..]), arr[..])
      ensures InBlock(old(heap), off, actual) && FreeArray() == WithFront(old(FreeArray()), old(heap), off, actual)
    {
      hide Sound, Listed, KeepsData, Placed, WithFront;
      var len, free := ReadHeader(off);
      actual := Place(off, len, size, align);
    }

    /** The part of tiny_alloc_get behind the first unsuccessful walk. */
    method GetCoalesced(size: nat, align: nat) returns (p: Option<int>, ghost before: Heap, ghost from: int)
      requires Sound(arr[..], heap) && size >= 1 && OneBit(align) && NoneFits(heap, size, align)
      modifies arr, this`heap
      ensures Sound(arr[..], heap) && KeepsData(old(heap), old(arr[..]), arr[..])
      ensures Condenses(old(heap), before)
      ensures before == old(heap) || NoAdjacentFree(before)
      ensures p.None? <==> NoRunFits(old(heap), arr.Length, size, align)
      ensures p.None? ==> heap == before
      ensures p.Some? ==> Placed(before, heap, from, size, align, p.value)
      ensures p.Some? ==> p.value % align == 0 && 0 <= p.value && p.value + size <= arr.Length
      ensures p.Some? ==> InBlock(before, from, p.value) && exists a ::
                Sought(old(arr[..]), old(heap), before, size, align, from, a) && FreeArray() == WithFront(a, before, from, p.value)
      ensures p.None? ==> FreeArray() == SearchedArray(old(FreeArray()), old(heap), before, arr.Length)
    {
      hide Sound, Listed, KeepsData, Condenses, Placed, NoneFits, NoRunFits, ListedBelow, ZeroFrom, SameOutside, AdjacentFree, Fits,
        WithFront, Refilled, NoneFitsBelow, Sought;
      var coalesced := TryCoalesce();
      before := heap;
      ghost var mem1 := arr[..];
      RunsFitSound(old(arr[..]), mem1, old(heap), heap, size, align);
      if !coalesced {
        return None, before, 0;
      }
      WiredEmpty(arr[..], heap);
      WipedArray(arr[..]);
      var off := Scan(size, align, true);
      CacheKeepsData(mem1, arr[..], heap);
      ghost var mem2 := arr[..];
      if off < 0 {
        CondensedData(old(heap), before, old(arr[..]), mem1, mem2);
        return None, before, 0;
      }
      FitsSomewhere(heap, off, size, align);
      SoughtCoalesced(old(arr[..]), old(heap), before, off, size, align);
      var actual := PlaceAt(off, size, align);
      KeepsDataTrans(before, mem1, mem2, arr[..]);
      CondensedData(old(heap), before, old(arr[..]), mem1, arr[..]);
      return Some(actual), before, off;
    }

    /** tiny_alloc_get. */
    method Get(size: nat, align: nat) returns (p: Option<int>, ghost before: Heap, ghost from: int)
      requires Valid() && OneBit(align)
      modifies arr, this`heap
      ensures Valid()
      ensures arr.Length < MIN_BLOCK_SIZE ==> p.None? && heap == old(heap) && arr[..] == old(arr[..])
      ensures arr.Length >= MIN_BLOCK_SIZE ==>
                && KeepsData(old(heap), old(arr[..]), arr[..]) && Condenses(old(heap), before)
                && (before == old(heap) || (NoAdjacentFree(before) && NoneFits(old(heap), Ask(size), align)))
                && (p.None? <==> NoneFits(old(heap), Ask(size), align) && NoRunFits(old(heap), arr.Length, Ask(size), align))
                && (p.None? ==> heap == before && FreeArray() == SearchedArray(old(FreeArray()), old(heap), before, arr.Length))
      ensures p.Some? ==> InBlock(before, from, p.value) && exists a ::
                Sought(old(arr[..]), old(heap), before, Ask(size), align, from, a) && FreeArray() == WithFront(a, before, from, p.value)
      ensures p.Some? ==> Placed(before, heap, from, Ask(size), align, p.value)
      ensures p.Some? ==> p.value % align == 0 && 0 <= p.value && p.value + Ask(size) <= arr.Length
      ensures p.Some? ==>
                && from in before && 0 <= from && p.value < from + before[from].len
                && Owns(heap, OwnerStart(before, from, p.value), p.value)
                && (Padded(heap, OwnerStart(before, from, p.value)) <==> LeavesByte(from, before[from].len, p.value))
    {
      hide Sound, KeepsData, Condenses, NoneFits, NoRunFits, AdjacentFree, LeavesByte, Padded, OwnerStart, Carved, LongEnough, PayloadStart,
        Sought, WithFront, SearchedArray;
      before, from := map[], 0;
      if arr.Length < MIN_BLOCK_SIZE {
        return None, before, from;
      }
      p, before, from := GetFrom(Ask(size), align);
      if p.Some? {
        PlacedPadding(before, heap, from, Ask(size), align, p.value);
      }
    }
  
    /** to_hdr: from a payload back to the first byte of its header, whatever the payload holds. */
    method ToHdr(p: int, ghost o: int) returns (hdr: int)
      requires Sound(arr[..], heap) && Owns(heap, o, p)
      ensures hdr == o
    {
      hide Sound, HeaderSize, HasTerm, HasSingle;
      BeforePayload(arr[..], heap, o, p);
      ghost var last := o + HeaderSize(heap[o].len) - 1;
      TermNotZero(arr[last]);
      hdr := p - 1;
      while arr[hdr] == 0
        invariant last <= hdr < p
        decreases hdr
      {
        hdr := hdr - 1;
      }
      assert arr[..][hdr] == arr[hdr];
      assert hdr == last;
      assert HasTerm(arr[hdr]);
      if !HasSingle(arr[hdr]) {
        hdr := hdr - 1;
        while !HasTerm(arr[hdr])
          invariant o <= hdr < last
          decreases hdr
        {
          assert arr[..][hdr] == arr[hdr];
          hdr := hdr - 1;
        }
        assert arr[..][hdr] == arr[hdr];
      }
    }

    lemma TermNotZero(b: Byte)
      ensures HasTerm(b) ==> b != 0
    {
    }

    /** tiny_alloc_free. */
    method Free(freep: int, ghost o: int)
      requires Valid() && (arr.Length >= MIN_BLOCK_SIZE ==> Owns(heap, o, freep))
      modifies arr, this`heap
      ensures Valid()
      ensures arr.Length < MIN_BLOCK_SIZE ==> heap == old(heap) && arr[..] == old(arr[..])
      ensures arr.Length >= MIN_BLOCK_SIZE ==> heap == Freed(old(heap), o) && KeepsData(old(heap) - {o}, old(arr[..]), arr[..])
      ensures arr.Length >= MIN_BLOCK_SIZE ==>
                old(heap)[o].len >= 1 && 0 <= o && FreeArray() == Filed(old(FreeArray()), old(heap)[o].len, o)
    {
      hide Filed;
      if arr.Length >= MIN_BLOCK_SIZE {
        FreeAt(freep, o);
      }
    }

    method FreeAt(freep: int, ghost o: int)
      requires Sound(arr[..], heap) && Owns(heap, o, freep)
      modifies arr, this`heap
      ensures Sound(arr[..], heap) && heap == Freed(old(heap), o)
      ensures KeepsData(old(heap) - {o}, old(arr[..]), arr[..])
      ensures old(heap)[o].len >= 1 && 0 <= o && FreeArray() == Filed(old(FreeArray()), old(heap)[o].len, o)
    {
      hide Sound, KeepsData, Listed, HeaderAt, SameOutside, Filed;
      var hdr := ToHdr(freep, o);
      var len, free := ReadHeader(hdr);
      assert !free;
      SetFree(hdr, len);
      ghost var mem1 := arr[..];
      FreedSound(old(arr[..]), mem1, heap, o);
      ArrayFrame(old(arr[..]), mem1, hdr, hdr + 1);
      heap := Freed(heap, o);
      SoundCache(mem1, heap);
      AddToFreeArray(len, hdr);
      CacheWritten(mem1, arr[..], heap);
      FreedData(old(arr[..]), mem1, arr[..], old(heap), o);
    }

    /** hdr[0] |= FREE_BIT on an allocated block. */
    method SetFree(hdr: int, len: nat)
      requires Sound(arr[..], heap) && hdr in heap && !heap[hdr].free && heap[hdr].len == len
      modifies arr
      ensures HeaderAt(arr[..], hdr, len, true) && SameOutside(old(arr[..]), arr[..], hdr, hdr + 1)
    {
      HeaderInPlace(arr[..], heap, hdr);
      hide Sound, HeaderAt;
      SetFreeBit(arr[..], hdr, len);
      assert arr[..][hdr] == arr[hdr];
      ghost var mem: seq<Byte> := arr[..];
      arr[hdr] := arr[hdr] + FREE_BIT;
      assert arr[..] == mem[hdr := mem[hdr] + FREE_BIT];
    }

    /**
      tiny_alloc_size: at least what was asked for, and one byte more than the room behind
      the payload exactly when the block has a byte of padding.
     */
    method Size(p: int, ghost o: int) returns (size: int)
      requires Sound(arr[..], heap) && Owns(heap, o, p)
      ensures size == End(heap, o) - p + if Padded(heap, o) then 1 else 0
      ensures heap[o].req <= End(heap, o) - p
    {
      HeaderInPlace(arr[..], heap, o);
      HeaderOf(arr[..], heap, o);
      hide Sound, Decode;
      var hdr := ToHdr(p, o);
      assert arr[..][hdr..] == arr[hdr..];
      var len, free, hdrlen := DecodeAt(arr, hdr);
      size := len - hdrlen;
    }

    /** An owner writes a byte of its payload. */
    method ClientWrite(o: int, x: int, v: Byte)
      requires Sound(arr[..], heap) && o in heap && !heap[o].free && heap[o].pay <= x < End(heap, o)
      modifies arr
      ensures Sound(arr[..], heap) && 0 <= x < arr.Length && arr[..] == old(arr[..])[x := v]
    {
      HeaderInPlace(arr[..], heap, o);
      hide Sound;
      arr[x] := v;
      WriteSound(old(arr[..]), arr[..], heap, o, x);
    }
  }
}
