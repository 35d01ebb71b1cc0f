/**
  The free array at the start of a tiny pool: three-byte slots that name free blocks,
  grouped by size.  Its entries are trusted when they are found, so the invariant here
  is what makes an array hit safe.
 */
module TinyCache {
  import opened Shared
  import opened Tiling
  import opened TinyHeap

  const MAX_FREE_CACHED_SIZE: int := 256
  const BUCKET_SPAN: int := 207

  /** Offset of the first slot for free blocks of this size. */
  function FreeArrayOff(size: nat): (off: nat)
    requires size >= 1
  {
    3 * (if size <= 4 then size - 1 else if size <= 16 then size / 2 + 1 else size / 4 + 5)
  }

  lemma FreeArrayOffMono(a: nat, b: nat)
    requires 1 <= a <= b
    ensures FreeArrayOff(a) <= FreeArrayOff(b)
  {
  }

  lemma FreeArrayOffBounds(size: nat)
    requires size >= 1
    ensures FreeArrayOff(size) % 3 == 0
    ensures FreeArrayOff(size) < BUCKET_SPAN <==> size < MAX_FREE_CACHED_SIZE
    ensures FreeArrayOff(MAX_FREE_CACHED_SIZE) == BUCKET_SPAN
  {
  }

  /** Does a bucket of its own begin with this size?  The series is 1, 2, 3, 4, then even sizes to 16, then multiples of 4. */
  predicate StartsBucket(size: nat) {
    1 <= size <= 4 || (6 <= size <= 16 && size % 2 == 0) || (size >= 20 && size % 4 == 0)
  }

  /** From one size to the next the offset goes on by one slot exactly where a new bucket begins. */
  lemma FreeArrayOffSteps(size: nat)
    requires size >= 1
    ensures FreeArrayOff(1) == 0
    ensures FreeArrayOff(size + 1) == FreeArrayOff(size) + if StartsBucket(size + 1) then 3 else 0
  {
    if size > 16 {
      QuarterSteps(size);
    }
  }

  lemma QuarterSteps(size: nat)
    ensures (size + 1) / 4 == size / 4 + if (size + 1) % 4 == 0 then 1 else 0
  {
  }

  /** The first slot of the bucket that slot s is in. */
  function BucketOf(s: int): int {
    s % 207
  }

  lemma FirstOfBucket(b: int)
    requires 0 <= b < BUCKET_SPAN
    ensures BucketOf(b) == b
  {
  }

  /** Slots of one bucket are BUCKET_SPAN apart. */
  lemma NextSlot(s: int)
    ensures BucketOf(s + BUCKET_SPAN) == BucketOf(s)
  {
    assert s + 207 == 207 * (s / 207 + 1) + s % 207;
  }

  lemma SlotThird(s: int)
    requires s % 3 == 0
    ensures (s + BUCKET_SPAN) % 3 == 0 && BucketOf(s) % 3 == 0
  {
    var t, q := s / 3, s / 207;
    assert s == 207 * q + BucketOf(s);
    Third(BucketOf(s), t - 69 * q);
    Third(s + BUCKET_SPAN, t + 69);
  }

  lemma Third(x: int, m: int)
    requires x == 3 * m
    ensures x % 3 == 0
  {
  }

  lemma BelowFirst(b: int)
    requires 0 <= b < BUCKET_SPAN
    ensures forall s {:trigger BucketOf(s)} :: 0 <= s < b ==> BucketOf(s) != b
  {
  }

  lemma BetweenSlots(slot: int)
    ensures forall s {:trigger BucketOf(s)} :: slot < s < slot + BUCKET_SPAN ==> BucketOf(s) != BucketOf(slot)
  {
    forall s | slot < s < slot + BUCKET_SPAN ensures BucketOf(s) != BucketOf(slot) {
      if BucketOf(s) == BucketOf(slot) {
        SameBucket(slot, s);
      }
    }
  }

  lemma SameBucket(a: int, i: int)
    requires BucketOf(a) == BucketOf(i) && a < i
    ensures a + BUCKET_SPAN <= i
  {
  }

  predicate IsSlot(arrsize: int, s: int) {
    0 <= s && s % 3 == 0 && s + 3 < arrsize
  }

  function SlotValue(mem: seq<Byte>, s: int): (v: nat)
    requires 0 <= s && s + 3 <= |mem|
  {
    0x1_0000 * (mem[s] as int) + 0x100 * (mem[s + 1] as int) + mem[s + 2] as int
  }

  /** Slot s may name the block at v: it is free and its size belongs to the slot's bucket. */
  ghost predicate Cached(heap: Heap, s: int, v: int) {
    v in heap && heap[v].free && 1 <= heap[v].len < MAX_FREE_CACHED_SIZE && BucketOf(s) == FreeArrayOff(heap[v].len)
  }

  /** Every slot in use names a free block of the right size, and no two name the same one. */
  ghost predicate CacheOK(mem: seq<Byte>, arrsize: int, heap: Heap) {
    && 0 <= arrsize <= |mem|
    && (forall s {:trigger SlotValue(mem, s)} :: IsSlot(arrsize, s) && SlotValue(mem, s) != 0 ==> Cached(heap, s, SlotValue(mem, s)))
    && (forall s, t {:trigger SlotValue(mem, s), SlotValue(mem, t)} ::
          IsSlot(arrsize, s) && IsSlot(arrsize, t) && s != t && SlotValue(mem, s) == SlotValue(mem, t) ==> SlotValue(mem, s) == 0)
  }

  ghost predicate Listed(mem: seq<Byte>, arrsize: int, o: int)
    requires arrsize <= |mem|
  {
    o != 0 && exists s {:trigger SlotValue(mem, s)} :: IsSlot(arrsize, s) && SlotValue(mem, s) == o
  }

  lemma SlotFrame(mem: seq<Byte>, mem1: seq<Byte>, s: int, t: int)
    requires 0 <= s && s % 3 == 0 && s + 3 <= |mem| && 0 <= t && t % 3 == 0 && t + 3 <= |mem| && s != t
    requires SameOutside(mem, mem1, s, s + 3)
    ensures SlotValue(mem1, t) == SlotValue(mem, t)
  {
  }

  /** Storing in a slot a free block that no slot names. */
  lemma PutKeepsCache(mem: seq<Byte>, mem1: seq<Byte>, arrsize: int, heap: Heap, s: int)
    requires CacheOK(mem, arrsize, heap) && IsSlot(arrsize, s) && SameOutside(mem, mem1, s, s + 3)
    requires SlotValue(mem1, s) != 0 ==> Cached(heap, s, SlotValue(mem1, s)) && !Listed(mem, arrsize, SlotValue(mem1, s))
    ensures CacheOK(mem1, arrsize, heap)
  {
    forall t | IsSlot(arrsize, t) && t != s ensures SlotValue(mem1, t) == SlotValue(mem, t) {
      SlotFrame(mem, mem1, s, t);
    }
  }

  /** What the slots name after one of them changed. */
  lemma PutListed(mem: seq<Byte>, mem1: seq<Byte>, arrsize: int, heap: Heap, s: int, o: int)
    requires CacheOK(mem, arrsize, heap) && IsSlot(arrsize, s) && SameOutside(mem, mem1, s, s + 3)
    ensures Listed(mem1, arrsize, o) ==> Listed(mem, arrsize, o) || o == SlotValue(mem1, s)
    ensures o == SlotValue(mem, s) && SlotValue(mem1, s) == 0 ==> !Listed(mem1, arrsize, o)
  {
    forall t | IsSlot(arrsize, t) && t != s ensures SlotValue(mem1, t) == SlotValue(mem, t) {
      SlotFrame(mem, mem1, s, t);
    }
  }

  /** The array does not notice changes behind it, nor changes of blocks that it does not name. */
  lemma CacheFrame(mem: seq<Byte>, mem1: seq<Byte>, arrsize: int, heap: Heap, heap1: Heap)
    requires CacheOK(mem, arrsize, heap) && |mem1| == |mem|
    requires forall x :: 0 <= x < arrsize ==> mem1[x] == mem[x]
    requires forall o {:trigger Listed(mem, arrsize, o)} :: Listed(mem, arrsize, o) && o in heap ==> o in heap1 && heap1[o] == heap[o]
    ensures CacheOK(mem1, arrsize, heap1)
    ensures forall o {:trigger Listed(mem1, arrsize, o)} :: Listed(mem1, arrsize, o) <==> Listed(mem, arrsize, o)
  {
    forall s | IsSlot(arrsize, s) ensures SlotValue(mem1, s) == SlotValue(mem, s) {
    }
    forall s | IsSlot(arrsize, s) && SlotValue(mem1, s) != 0 ensures Cached(heap1, s, SlotValue(mem1, s)) {
      assert Listed(mem, arrsize, SlotValue(mem, s));
    }
    forall o ensures Listed(mem1, arrsize, o) <==> Listed(mem, arrsize, o) {
      if s :| IsSlot(arrsize, s) && SlotValue(mem1, s) == o {
        assert SlotValue(mem, s) == o;
      }
      if s :| IsSlot(arrsize, s) && SlotValue(mem, s) == o {
        assert SlotValue(mem1, s) == o;
      }
    }
  }

  lemma EmptyCache(mem: seq<Byte>, arrsize: int, heap: Heap)
    requires 0 <= arrsize <= |mem| && ZeroFrom(mem, 0, arrsize)
    ensures CacheOK(mem, arrsize, heap)
    ensures forall o :: !Listed(mem, arrsize, o)
  {
    assert forall s :: IsSlot(arrsize, s) ==> SlotValue(mem, s) == 0;
  }

  lemma ListedIsFree(mem: seq<Byte>, arrsize: int, heap: Heap, o: int)
    requires CacheOK(mem, arrsize, heap) && Listed(mem, arrsize, o)
    ensures o in heap && heap[o].free && 1 <= heap[o].len < MAX_FREE_CACHED_SIZE
  {
  }

  /** A free block that no slot names may be stored in an unused slot of its bucket. */
  lemma AddedSlot(mem: seq<Byte>, mem1: seq<Byte>, arrsize: int, heap: Heap, s: int, o: int)
    requires CacheOK(mem, arrsize, heap) && IsSlot(arrsize, s) && SameOutside(mem, mem1, s, s + 3)
    requires SlotValue(mem1, s) == o && Cached(heap, s, o) && !Listed(mem, arrsize, o)
    ensures CacheOK(mem1, arrsize, heap) && SameOutside(mem, mem1, 0, arrsize)
    ensures forall x {:trigger Listed(mem1, arrsize, x)} :: Listed(mem1, arrsize, x) ==> Listed(mem, arrsize, x) || x == o
  {
    PutKeepsCache(mem, mem1, arrsize, heap, s);
    forall x ensures Listed(mem1, arrsize, x) ==> Listed(mem, arrsize, x) || x == o {
      PutListed(mem, mem1, arrsize, heap, s, x);
    }
  }

  /** Emptying a slot: its block is no longer named. */
  lemma EmptiedSlot(mem: seq<Byte>, mem1: seq<Byte>, arrsize: int, heap: Heap, s: int)
    requires CacheOK(mem, arrsize, heap) && IsSlot(arrsize, s) && SameOutside(mem, mem1, s, s + 3)
    requires SlotValue(mem1, s) == 0
    ensures CacheOK(mem1, arrsize, heap) && SameOutside(mem, mem1, 0, arrsize)
    ensures !Listed(mem1, arrsize, SlotValue(mem, s))
    ensures forall x {:trigger Listed(mem1, arrsize, x)} :: Listed(mem1, arrsize, x) ==> Listed(mem, arrsize, x)
  {
    PutKeepsCache(mem, mem1, arrsize, heap, s);
    PutListed(mem, mem1, arrsize, heap, s, SlotValue(mem, s));
    forall x ensures Listed(mem1, arrsize, x) ==> Listed(mem, arrsize, x) {
      PutListed(mem, mem1, arrsize, heap, s, x);
    }
  }

  // ----- The bytes of the array -----

  /** The first unused slot from s on in its bucket, or -1. */
  function UnusedSlot(a: seq<Byte>, s: int): (r: int)
    requires 0 <= s
    ensures r < 0 || s <= r < |a| - 3
    decreases |a| - s
  {
    if s + 3 >= |a| then -1 else if SlotValue(a, s) == 0 then s else UnusedSlot(a, s + BUCKET_SPAN)
  }

  /** The array with v in slot s, high byte first. */
  function Stored(a: seq<Byte>, s: int, v: nat): (r: seq<Byte>)
    requires 0 <= s && s + 3 <= |a|
    ensures |r| == |a|
  {
    a[s := v / 0x1_0000 % 256][s + 1 := v / 0x100 % 256][s + 2 := v % 256]
  }

  /** The array after a free block of this size at off was handed to it. */
  function Filed(a: seq<Byte>, size: nat, off: nat): (r: seq<Byte>)
    requires size >= 1
    ensures |r| == |a|
  {
    if size >= MAX_FREE_CACHED_SIZE then a else
      var s := UnusedSlot(a, FreeArrayOff(size));
      if s < 0 then a else Stored(a, s, off)
  }

  /** The array after all free blocks from o up to hi were handed to it, lowest first. */
  ghost function Refilled(a: seq<Byte>, heap: Heap, o: int, hi: int): (r: seq<Byte>)
    ensures |r| == |a|
    decreases hi - o
  {
    if !(0 <= o < hi) || o !in heap || heap[o].len < 1 then a
    else Refilled(if heap[o].free then Filed(a, heap[o].len, o) else a, heap, o + heap[o].len, hi)
  }

  ghost function Wiped(n: nat): seq<Byte> {
    seq(n, _ => 0)
  }

  lemma StoredSlot(a: seq<Byte>, s: int, v: nat)
    requires 0 <= s && s + 3 <= |a| && v < 0x100_0000
    ensures SlotValue(Stored(a, s, v), s) == v && SameOutside(a, Stored(a, s, v), s, s + 3)
  {
    assert v / 0x1_0000 % 256 == v / 0x1_0000;
  }

  /** UnusedSlot finds the first unused slot of the bucket, if there is one. */
  lemma {:induction false} UnusedSlotFirst(a: seq<Byte>, s: int)
    requires 0 <= s && s % 3 == 0
    ensures var r := UnusedSlot(a, s);
            && (r >= 0 ==> IsSlot(|a|, r) && BucketOf(r) == BucketOf(s) && SlotValue(a, r) == 0)
            && forall t {:trigger SlotValue(a, t)} ::
                 IsSlot(|a|, t) && BucketOf(t) == BucketOf(s) && s <= t && (r < 0 || t < r) ==> SlotValue(a, t) != 0
    decreases |a| - s
  {
    if s + 3 < |a| && SlotValue(a, s) != 0 {
      NextSlot(s);
      SlotThird(s);
      BetweenSlots(s);
      UnusedSlotFirst(a, s + BUCKET_SPAN);
    }
  }

  /** Afterwards the block is listed, unless it is too large or its bucket was full already; what was listed stays listed. */
  lemma FiledLists(a: seq<Byte>, size: nat, off: nat)
    requires size >= 1 && 0 < off < 0x100_0000
    ensures Listed(Filed(a, size, off), |a|, off) || size >= MAX_FREE_CACHED_SIZE
            || forall t {:trigger SlotValue(a, t)} :: IsSlot(|a|, t) && BucketOf(t) == FreeArrayOff(size) ==> SlotValue(a, t) != 0
    ensures forall o {:trigger Listed(a, |a|, o)} :: Listed(a, |a|, o) ==> Listed(Filed(a, size, off), |a|, o)
  {
    hide SlotValue, BucketOf, Stored, FreeArrayOff;
    FreeArrayOffBounds(size);
    if size < MAX_FREE_CACHED_SIZE {
      var b := FreeArrayOff(size);
      FirstOfBucket(b);
      BelowFirst(b);
      UnusedSlotFirst(a, b);
      var s := UnusedSlot(a, b);
      if s >= 0 {
        var a1 := Filed(a, size, off);
        StoredSlot(a, s, off);
        assert SlotValue(a1, s) == off;
        forall o | Listed(a, |a|, o) ensures Listed(a1, |a|, o) {
          var t :| IsSlot(|a|, t) && SlotValue(a, t) == o;
          SlotFrame(a, a1, s, t);
          assert SlotValue(a1, t) == o;
        }
      }
    }
  }
}
