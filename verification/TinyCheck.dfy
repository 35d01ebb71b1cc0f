/**
  tiny_alloc_check, on memory that may hold anything: it answers true exactly when the
  bytes decode to a tiling of blocks that agrees with the free array.
 */
module TinyCheck {
  import opened Shared
  import opened Tiling
  import opened TinyCodec
  import opened TinyHeap
  import opened TinyCache
  import opened Tiny

  /** Every block of the heap has a readable header of the proper size in memory. */
  ghost predicate Decodes(mem: seq<Byte>, heap: Heap) {
    forall o {:trigger heap[o]} :: o in heap ==>
      && 0 <= o < |mem| && MIN_BLOCK_SIZE <= heap[o].len && HasTerm(mem[o])
      && Decode(mem[o..]) == Header(heap[o].len, heap[o].free, HeaderSize(heap[o].len))
  }

  ghost predicate Describes(mem: seq<Byte>, heap: Heap) {
    && Tiled(heap, FreeArraySize(|mem|), |mem|) && Decodes(mem, heap)
    && CacheOK(mem, FreeArraySize(|mem|), heap)
  }

  ghost predicate Consistent(mem: seq<Byte>) {
    exists heap :: Describes(mem, heap)
  }

  /** A sound pool is consistent. */
  lemma SoundConsistent(mem: seq<Byte>, heap: Heap)
    requires Sound(mem, heap)
    ensures Consistent(mem)
  {
    forall o | o in heap
      ensures 0 <= o < |mem| && MIN_BLOCK_SIZE <= heap[o].len && HasTerm(mem[o])
      ensures Decode(mem[o..]) == Header(heap[o].len, heap[o].free, HeaderSize(heap[o].len))
    {
      HeaderOf(mem, heap, o);
      HeaderInPlace(mem, heap, o);
      EncodedLength(heap[o].len, heap[o].free);
      HeaderBytes(heap[o].len, heap[o].free, 0);
      assert mem[o] == mem[o..o + HeaderSize(heap[o].len)][0];
    }
    assert Describes(mem, heap);
  }

  // ----- check_decode -----

  ghost predicate ReadableHead(s: seq<Byte>) {
    s != [] && HasTerm(s[0]) && Decode(s).Header?
  }

  method CheckDecode(arr: array<Byte>, off: int) returns (ok: bool)
    requires 0 <= off <= arr.Length
    ensures ok <==> ReadableHead(arr[off..])
  {
    if off == arr.Length || !HasTerm(arr[off]) {
      return false;
    }
    if HasSingle(arr[off]) {
      return true;
    }
    assert arr[off..][1..] == arr[off + 1..];
    for i := off + 1 to arr.Length
      invariant DecodeTail(arr[off + 1..]).Tail? <==> DecodeTail(arr[i..]).Tail?
    {
      assert arr[i..][1..] == arr[i + 1..];
      if HasTerm(arr[i]) {
        return true;
      }
    }
    return false;
  }

  // ----- The entries of the free array -----

  /** The entries in use from slot i on. */
  function Entries(mem: seq<Byte>, arrsize: int, i: int): (r: seq<int>)
    requires 0 <= i && arrsize <= |mem|
    decreases arrsize - i
  {
    if i + 3 >= arrsize then []
    else (if SlotValue(mem, i) == 0 then [] else [SlotValue(mem, i)]) + Entries(mem, arrsize, i + 3)
  }

  /** Some slot from i on holds v. */
  ghost predicate InSlotFrom(mem: seq<Byte>, arrsize: int, i: int, v: int)
    requires 0 <= i && arrsize <= |mem|
  {
    exists s {:trigger SlotValue(mem, s)} :: i <= s && IsSlot(arrsize, s) && SlotValue(mem, s) == v
  }

  lemma InSlotStep(mem: seq<Byte>, arrsize: int, i: int, v: int)
    requires 0 <= i && i % 3 == 0 && i + 3 < arrsize <= |mem|
    ensures InSlotFrom(mem, arrsize, i, v) <==> SlotValue(mem, i) == v || InSlotFrom(mem, arrsize, i + 3, v)
  {
    assert IsSlot(arrsize, i);
    forall s | i <= s && IsSlot(arrsize, s) ensures s == i || i + 3 <= s {
    }
  }

  lemma {:induction false} EntryFrom(mem: seq<Byte>, arrsize: int, i: int, v: int)
    requires 0 <= i && i % 3 == 0 && arrsize <= |mem|
    ensures v in Entries(mem, arrsize, i) <==> v != 0 && InSlotFrom(mem, arrsize, i, v)
    decreases arrsize - i
  {
    if i + 3 < arrsize {
      InSlotStep(mem, arrsize, i, v);
      EntryFrom(mem, arrsize, i + 3, v);
      hide InSlotFrom, IsSlot;
      assert v in Entries(mem, arrsize, i) <==> (v == SlotValue(mem, i) && v != 0) || v in Entries(mem, arrsize, i + 3);
    }
  }

  ghost predicate NoTwice(s: seq<int>) {
    forall x, y :: 0 <= x < y < |s| ==> s[x] != s[y]
  }

  /** No entry occurs twice exactly when no two slots in use agree. */
  lemma {:induction false} EntriesOnce(mem: seq<Byte>, arrsize: int, i: int)
    requires 0 <= i && i % 3 == 0 && arrsize <= |mem|
    ensures NoTwice(Entries(mem, arrsize, i)) <==>
              forall s, t {:trigger SlotValue(mem, s), SlotValue(mem, t)} ::
                i <= s < t && IsSlot(arrsize, s) && IsSlot(arrsize, t) && SlotValue(mem, s) == SlotValue(mem, t) ==> SlotValue(mem, s) == 0
    decreases arrsize - i
  {
    if i + 3 < arrsize {
      EntriesOnce(mem, arrsize, i + 3);
      var v, rest := SlotValue(mem, i), Entries(mem, arrsize, i + 3);
      EntryFrom(mem, arrsize, i + 3, v);
      if v != 0 {
        ConsOnce(v, rest);
      } else {
        assert Entries(mem, arrsize, i) == rest;
      }
      forall s | i <= s && IsSlot(arrsize, s) ensures s == i || i + 3 <= s {
      }
    }
  }

  lemma ConsOnce(v: int, rest: seq<int>)
    ensures NoTwice([v] + rest) <==> v !in rest && NoTwice(rest)
  {
    var s := [v] + rest;
    if v !in rest && NoTwice(rest) {
      forall x, y | 0 <= x < y < |s| ensures s[x] != s[y] {
        assert s[y] == rest[y - 1];
        assert x > 0 ==> s[x] == rest[x - 1];
      }
    }
    if NoTwice(s) {
      forall y | 0 <= y < |rest| ensures rest[y] != v {
        assert s[0] != s[y + 1];
      }
      forall x, y | 0 <= x < y < |rest| ensures rest[x] != rest[y] {
        assert s[x + 1] != s[y + 1];
      }
    }
  }

  method CollectEntries(arr: array<Byte>) returns (ok: bool, freearr: seq<int>)
    ensures ok <==> forall v :: v in Entries(arr[..], FreeArraySize(arr.Length), 0) ==> v < arr.Length
    ensures ok ==> freearr == Entries(arr[..], FreeArraySize(arr.Length), 0)
  {
    freearr := [];
    var i := 0;
    ghost var all := Entries(arr[..], FreeArraySize(arr.Length), 0);
    while i + 3 < FreeArraySize(arr.Length)
      invariant 0 <= i && freearr + Entries(arr[..], FreeArraySize(arr.Length), i) == all
      invariant forall v :: v in freearr ==> v < arr.Length
      decreases arr.Length - i
    {
      var off := 0x1_0000 * (arr[i] as int) + 0x100 * (arr[i + 1] as int) + arr[i + 2] as int;
      assert off == SlotValue(arr[..], i);
      ghost var rest := Entries(arr[..], FreeArraySize(arr.Length), i + 3);
      if off != 0 {
        assert freearr + ([off] + rest) == (freearr + [off]) + rest;
        if off >= arr.Length {
          assert off in all;
          return false, [];
        }
        freearr := freearr + [off];
      } else {
        assert [] + rest == rest;
      }
      i := i + 3;
    }
    assert freearr + [] == freearr;
    ok := true;
  }

  /** Looking up an entry and closing the gap that it leaves. */
  method RemoveEntry(s: seq<int>, off: int) returns (found: bool, r: seq<int>)
    ensures found <==> off in s
    ensures multiset(r) == multiset(s) - multiset{off}
  {
    for i := 0 to |s|
      invariant off !in s[..i]
    {
      if s[i] == off {
        r := s[..i] + s[i + 1..];
        assert s == s[..i] + [off] + s[i + 1..];
        return true, r;
      }
      assert s[..i + 1] == s[..i] + [s[i]];
    }
    assert s[..|s|] == s;
    return false, s;
  }

  // ----- The walk -----

  /** The blocks met so far tile the area up to off. */
  ghost predicate Walked(mem: seq<Byte>, seen: Heap, lo: int, off: int) {
    && 0 <= lo <= off <= |mem| && (off > lo <==> lo in seen) && (off == lo ==> seen == map[])
    && Bounded(seen, lo, off) && Chained(seen, off) && Ordered(seen) && Decodes(mem, seen)
  }

  /** A heap that would satisfy the check, up to the buckets of its cached blocks. */
  ghost predicate Acceptable(mem: seq<Byte>, heap: Heap, entries: seq<int>) {
    && Tiled(heap, FreeArraySize(|mem|), |mem|) && Decodes(mem, heap) && NoTwice(entries)
    && forall v {:trigger v in entries} :: v in entries ==> v in heap && heap[v].free
  }

  /** The walk has met exactly the blocks of the heap that start before off. */
  ghost predicate Agrees(seen: Heap, heap: Heap, off: int, hi: int) {
    && (off == hi || off in heap)
    && (forall o {:trigger o in heap} {:trigger o in seen} :: o in seen <==> o in heap && o < off)
  }

  lemma WalkedNext(mem: seq<Byte>, seen: Heap, lo: int, off: int, b: Block)
    requires Walked(mem, seen, lo, off) && off < |mem| && MIN_BLOCK_SIZE <= b.len && off + b.len <= |mem|
    requires HasTerm(mem[off]) && Decode(mem[off..]) == Header(b.len, b.free, HeaderSize(b.len))
    ensures off !in seen && Walked(mem, seen[off := b], lo, off + b.len)
  {
    var next := seen[off := b];
    forall o | o in next ensures End(next, o) == off + b.len || End(next, o) in next {
      if o != off {
        assert End(next, o) == End(seen, o);
      }
    }
  }

  lemma SameHeader(mem: seq<Byte>, heap: Heap, off: int, b: Block)
    requires Decodes(mem, heap) && off in heap && MIN_BLOCK_SIZE <= b.len
    requires Decode(mem[off..]) == Header(b.len, b.free, HeaderSize(b.len))
    ensures heap[off].len == b.len && heap[off].free == b.free
  {
    assert Decode(mem[off..]) == Header(heap[off].len, heap[off].free, HeaderSize(heap[off].len));
  }

  lemma AgreesNext(seen: Heap, heap: Heap, off: int, b: Block, lo: int, hi: int)
    requires Tiled(heap, lo, hi) && Agrees(seen, heap, off, hi) && off in heap && b.len == heap[off].len
    ensures Agrees(seen[off := b], heap, off + b.len, hi)
  {
    var next := seen[off := b];
    assert End(heap, off) == hi || End(heap, off) in heap;
    forall o ensures o in next <==> o in heap && o < off + b.len {
      if o in heap && off < o {
        assert off + heap[off].len <= o;
      }
    }
  }

  /** The header at off is one that the check accepts. */
  ghost predicate GoodHeader(mem: seq<Byte>, off: int, len: nat, free: bool) {
    && 0 <= off && MIN_BLOCK_SIZE <= len && off + len <= |mem| && HasTerm(mem[off])
    && Decode(mem[off..]) == Header(len, free, HeaderSize(len))
  }

  lemma DecodedLength(s: seq<Byte>)
    ensures Decode(s).Header? ==> Decode(s).len >= MIN_BLOCK_SIZE
  {
  }

  method CheckHeader(arr: array<Byte>, off: int) returns (good: bool, len: nat, free: bool)
    requires 0 <= off < arr.Length
    ensures good ==> GoodHeader(arr[..], off, len, free)
    ensures !good ==> forall l, f :: !GoodHeader(arr[..], off, l, f)
  {
    assert arr[..][off..] == arr[off..];
    DecodedLength(arr[off..]);
    good := CheckDecode(arr, off);
    len, free := 0, false;
    if !good {
      return;
    }
    var hdrlen;
    len, free, hdrlen := DecodeAt(arr, off);
    good := off + len <= arr.Length && hdrlen == EncodeLength(len - MIN_BLOCK_SIZE);
  }

  lemma StartWalk(mem: seq<Byte>, heap: Heap, entries: seq<int>)
    requires |mem| >= MIN_BLOCK_SIZE
    ensures Walked(mem, map[], FreeArraySize(|mem|), FreeArraySize(|mem|))
    ensures Acceptable(mem, heap, entries) ==> Agrees(map[], heap, FreeArraySize(|mem|), |mem|)
  {
  }

  /** An acceptable heap has a good header wherever the walk stands. */
  lemma AcceptableHere(mem: seq<Byte>, seen: Heap, heap: Heap, entries: seq<int>, off: int)
    requires Acceptable(mem, heap, entries) && Agrees(seen, heap, off, |mem|) && off < |mem|
    ensures off in heap && GoodHeader(mem, off, heap[off].len, heap[off].free)
    ensures off in entries ==> heap[off].free
  {
    assert heap[off].len >= MIN_BLOCK_SIZE;
  }

  lemma AcceptableNext(mem: seq<Byte>, seen: Heap, heap: Heap, entries: seq<int>, off: int, b: Block)
    requires Acceptable(mem, heap, entries) && Agrees(seen, heap, off, |mem|) && GoodHeader(mem, off, b.len, b.free) && off < |mem|
    ensures Agrees(seen[off := b], heap, off + b.len, |mem|) && (off in entries ==> b.free)
  {
    AcceptableHere(mem, seen, heap, entries, off);
    SameHeader(mem, heap, off, b);
    AgreesNext(seen, heap, off, b, FreeArraySize(|mem|), |mem|);
  }

  lemma GoodNext(mem: seq<Byte>, seen: Heap, lo: int, off: int, b: Block)
    requires Walked(mem, seen, lo, off) && off < |mem| && GoodHeader(mem, off, b.len, b.free)
    ensures off !in seen && Walked(mem, seen[off := b], lo, off + b.len) && off < off + b.len <= |mem|
  {
    WalkedNext(mem, seen, lo, off, b);
  }

  lemma CrossOff(entries: seq<int>, rest: seq<int>, rest1: seq<int>, seen: Heap, off: int, b: Block)
    requires Crossed(entries, rest, seen) && off !in seen
    requires multiset(rest1) == multiset(rest) - multiset{off}
    ensures off in rest <==> off in entries
    ensures off !in entries || b.free ==> Crossed(entries, rest1, seen[off := b])
  {
    KeyAdded(seen, off, b);
    StillListed(entries, rest, seen.Keys, off);
    MinusBoth(multiset(entries), multiset(seen.Keys), multiset{off});
  }

  lemma MinusBoth(a: multiset<int>, b: multiset<int>, c: multiset<int>)
    ensures a - b - c == a - (b + c)
  {
  }

  lemma StillListed(entries: seq<int>, rest: seq<int>, keys: set<int>, off: int)
    requires multiset(rest) == multiset(entries) - multiset(keys) && off !in keys
    ensures off in rest <==> off in entries
  {
    assert off in rest <==> multiset(rest)[off] > 0;
    assert off in entries <==> multiset(entries)[off] > 0;
    assert multiset(keys)[off] == 0;
  }

  lemma KeyAdded(seen: Heap, off: int, b: Block)
    requires off !in seen
    ensures multiset(seen[off := b].Keys) == multiset(seen.Keys) + multiset{off}
  {
    assert seen[off := b].Keys == seen.Keys + {off};
  }

  /** All entries are crossed off exactly when the heap that was met is acceptable. */
  lemma AllCrossed(mem: seq<Byte>, entries: seq<int>, rest: seq<int>, seen: Heap)
    requires |mem| >= MIN_BLOCK_SIZE && Walked(mem, seen, FreeArraySize(|mem|), |mem|)
    requires Crossed(entries, rest, seen)
    ensures rest == [] ==> Acceptable(mem, seen, entries)
  {
    if rest == [] {
      forall v ensures multiset(entries)[v] <= multiset(seen.Keys)[v] <= 1 {
        assert multiset(rest)[v] == 0;
      }
      forall v | v in entries ensures v in seen && seen[v].free {
        assert multiset(entries)[v] > 0;
        assert v in multiset(seen.Keys);
      }
      forall x, y | 0 <= x < y < |entries| ensures entries[x] != entries[y] {
        TwiceCounted(entries, x, y);
      }
    }
  }

  lemma TwiceCounted(s: seq<int>, x: int, y: int)
    requires 0 <= x < y < |s|
    ensures s[x] == s[y] ==> multiset(s)[s[x]] >= 2
  {
    assert s == s[..x] + [s[x]] + s[x + 1..y] + [s[y]] + s[y + 1..];
    assert multiset(s) == multiset(s[..x]) + multiset{s[x]} + multiset(s[x + 1..y]) + multiset{s[y]} + multiset(s[y + 1..]);
  }

  lemma {:induction false} OnceCounted(s: seq<int>, v: int)
    requires NoTwice(s)
    ensures multiset(s)[v] <= 1
  {
    if s != [] {
      assert s == [s[0]] + s[1..];
      OnceCounted(s[1..], v);
      if v == s[0] {
        assert v !in s[1..];
      }
    }
  }

  /** With an acceptable heap every entry is crossed off in the end. */
  lemma NoneLeft(mem: seq<Byte>, entries: seq<int>, rest: seq<int>, seen: Heap, heap: Heap)
    requires Acceptable(mem, heap, entries) && Agrees(seen, heap, |mem|, |mem|)
    requires Crossed(entries, rest, seen)
    ensures rest == []
  {
    forall v ensures multiset(rest)[v] == 0 {
      OnceCounted(entries, v);
      if v in entries {
        assert v in heap && v in seen;
        assert multiset(seen.Keys)[v] == 1;
      } else {
        assert multiset(entries)[v] == 0;
      }
    }
    assert multiset(rest) == multiset{};
    assert |multiset(rest)| == |rest|;
  }

  /** The walk of tiny_alloc_check, with the entries crossed off as their blocks are met. */
  method WalkBlocks(arr: array<Byte>, freearr: seq<int>, ghost heap: Heap) returns (ok: bool, ghost seen: Heap)
    requires arr.Length >= MIN_BLOCK_SIZE
    ensures ok ==> Acceptable(arr[..], seen, freearr)
    ensures Acceptable(arr[..], heap, freearr) ==> ok
  {
    hide Walked, Agrees, Acceptable, GoodHeader, Crossed;
    var off := FreeArraySize(arr.Length);
    ghost var lo := off;
    seen := map[];
    var rest := freearr;
    StartWalk(arr[..], heap, freearr);
    NothingCrossed(freearr);
    ghost var fine := Acceptable(arr[..], heap, freearr);
    while off < arr.Length
      invariant Walked(arr[..], seen, lo, off) && lo <= off <= arr.Length
      invariant fine ==> Agrees(seen, heap, off, arr.Length)
      invariant Crossed(freearr, rest, seen)
      decreases arr.Length - off
    {
      var good, len;
      good, len, rest, seen := MeetBlock(arr, off, freearr, rest, seen, heap, lo);
      if !good {
        return false, seen;
      }
      off := off + len;
    }
    AllCrossed(arr[..], freearr, rest, seen);
    if fine {
      NoneLeft(arr[..], freearr, rest, seen, heap);
    }
    ok := rest == [];
  }

  /** rest is what remains of the entries when those of the blocks met are crossed off; those blocks are free. */
  ghost predicate Crossed(entries: seq<int>, rest: seq<int>, seen: Heap) {
    && multiset(rest) == multiset(entries) - multiset(seen.Keys)
    && forall o {:trigger seen[o]} :: o in seen && o in entries ==> seen[o].free
  }

  lemma NothingCrossed(entries: seq<int>)
    ensures Crossed(entries, entries, map[])
  {
  }

  /** The body of the walk: one header is checked and its entry, if any, crossed off. */
  method MeetBlock(arr: array<Byte>, off: int, freearr: seq<int>, rest: seq<int>, ghost seen: Heap, ghost heap: Heap, ghost lo: int)
    returns (good: bool, len: nat, rest1: seq<int>, ghost seen1: Heap)
    requires Walked(arr[..], seen, lo, off) && 0 <= off < arr.Length && Crossed(freearr, rest, seen)
    requires Acceptable(arr[..], heap, freearr) ==> Agrees(seen, heap, off, arr.Length)
    ensures good ==> off < off + len <= arr.Length && Walked(arr[..], seen1, lo, off + len) && Crossed(freearr, rest1, seen1)
    ensures Acceptable(arr[..], heap, freearr) ==> good && Agrees(seen1, heap, off + len, arr.Length)
  {
    hide Walked, Agrees, Acceptable, GoodHeader, Crossed;
    ghost var fine := Acceptable(arr[..], heap, freearr);
    if fine {
      AcceptableHere(arr[..], seen, heap, freearr, off);
    }
    var free;
    good, len, free := CheckHeader(arr, off);
    rest1, seen1 := rest, seen;
    if !good {
      return;
    }
    ghost var b := Block(len, free, 0, 0);
    GoodNext(arr[..], seen, lo, off, b);
    if fine {
      AcceptableNext(arr[..], seen, heap, freearr, off, b);
    }
    var found;
    found, rest1 := RemoveEntry(rest, off);
    CrossOff(freearr, rest, rest1, seen, off, b);
    seen1 := seen[off := b];
    good := !(found && !free);
  }

  // ----- The buckets -----

  /** Every entry is in a slot of its own size. */
  ghost predicate Bucketed(mem: seq<Byte>, heap: Heap) {
    forall s {:trigger SlotBucketed(mem, heap, s)} :: IsSlot(FreeArraySize(|mem|), s) ==> SlotBucketed(mem, heap, s)
  }

  predicate RightBucket(s: int, len: nat) {
    1 <= len < MAX_FREE_CACHED_SIZE && BucketOf(s) == FreeArrayOff(len)
  }

  /** The loop over the slots of one bucket that looks for slot i. */
  method InBucket(arrsize: int, len: nat, i: int) returns (ok: bool)
    requires 1 <= len < MAX_FREE_CACHED_SIZE && IsSlot(arrsize, i)
    ensures ok <==> BucketOf(i) == FreeArrayOff(len)
  {
    FreeArrayOffBounds(len);
    var first := FreeArrayOff(len);
    FirstOfBucket(first);
    hide FreeArrayOff, BucketOf;
    var faOff := first;
    if BucketOf(i) == first && i < first {
      SameBucket(i, first);
    }
    while faOff + 3 < arrsize && faOff != i
      invariant 0 <= first <= faOff && BucketOf(faOff) == first
      invariant BucketOf(i) == first ==> faOff <= i
      decreases arrsize - faOff
    {
      if BucketOf(i) == first {
        SameBucket(faOff, i);
      }
      NextSlot(faOff);
      faOff := faOff + BUCKET_SPAN;
    }
    ok := faOff == i;
  }

  ghost predicate SlotBucketed(mem: seq<Byte>, heap: Heap, s: int) {
    (IsSlot(FreeArraySize(|mem|), s) && SlotValue(mem, s) != 0 && SlotValue(mem, s) in heap) ==>
      RightBucket(s, heap[SlotValue(mem, s)].len)
  }

  method CheckBuckets(arr: array<Byte>, ghost heap: Heap) returns (ok: bool)
    requires Decodes(arr[..], heap)
    requires forall v {:trigger v in heap} :: v in Entries(arr[..], FreeArraySize(arr.Length), 0) ==> v in heap
    ensures ok <==> Bucketed(arr[..], heap)
  {
    hide SlotBucketed, Decodes, Entries, SlotValue;
    var i := 0;
    while i + 3 < FreeArraySize(arr.Length)
      invariant 0 <= i && i % 3 == 0
      invariant forall s {:trigger SlotBucketed(arr[..], heap, s)} :: s < i && IsSlot(FreeArraySize(arr.Length), s) ==> SlotBucketed(arr[..], heap, s)
      decreases arr.Length - i
    {
      var good := CheckSlot(arr, heap, i);
      if !good {
        return false;
      }
      i := i + 3;
    }
    ok := true;
  }

  /** The body of the loop over the slots. */
  method CheckSlot(arr: array<Byte>, ghost heap: Heap, i: int) returns (ok: bool)
    requires Decodes(arr[..], heap) && IsSlot(FreeArraySize(arr.Length), i)
    requires forall v {:trigger v in heap} :: v in Entries(arr[..], FreeArraySize(arr.Length), 0) ==> v in heap
    ensures ok <==> SlotBucketed(arr[..], heap, i)
  {
    hide Decodes, Entries, FreeArrayOff;
    var off := 0x1_0000 * (arr[i] as int) + 0x100 * (arr[i + 1] as int) + arr[i + 2] as int;
    assert off == SlotValue(arr[..], i);
    hide SlotValue;
    if off == 0 {
      return true;
    }
    EntryFrom(arr[..], FreeArraySize(arr.Length), 0, off);
    assert off in heap;
    HeaderThere(arr[..], heap, off);
    assert arr[..][off..] == arr[off..];
    var len, free, hdrlen := DecodeAt(arr, off);
    if len >= MAX_FREE_CACHED_SIZE {
      return false;
    }
    ok := InBucket(FreeArraySize(arr.Length), len, i);
  }

  lemma HeaderThere(mem: seq<Byte>, heap: Heap, o: int)
    requires Decodes(mem, heap) && o in heap
    ensures 0 <= o < |mem| && MIN_BLOCK_SIZE <= heap[o].len
    ensures Decode(mem[o..]) == Header(heap[o].len, heap[o].free, HeaderSize(heap[o].len))
  {
    assert heap[o].len >= MIN_BLOCK_SIZE;
  }

  // ----- tiny_alloc_check -----

  lemma AcceptableDescribes(mem: seq<Byte>, heap: Heap)
    requires |mem| >= MIN_BLOCK_SIZE
    requires Acceptable(mem, heap, Entries(mem, FreeArraySize(|mem|), 0)) && Bucketed(mem, heap)
    ensures Describes(mem, heap)
  {
    var lo := FreeArraySize(|mem|);
    EntriesOnce(mem, lo, 0);
    forall s | IsSlot(lo, s) && SlotValue(mem, s) != 0 ensures Cached(heap, s, SlotValue(mem, s)) {
      EntryFrom(mem, lo, 0, SlotValue(mem, s));
      assert SlotBucketed(mem, heap, s);
    }
  }

  lemma DescribesAcceptable(mem: seq<Byte>, heap: Heap)
    requires |mem| >= MIN_BLOCK_SIZE && Describes(mem, heap)
    ensures Acceptable(mem, heap, Entries(mem, FreeArraySize(|mem|), 0)) && Bucketed(mem, heap)
    ensures forall v :: v in Entries(mem, FreeArraySize(|mem|), 0) ==> v < |mem|
  {
    var lo := FreeArraySize(|mem|);
    EntriesOnce(mem, lo, 0);
    forall v | v in Entries(mem, lo, 0) ensures v in heap && heap[v].free && v < |mem| {
      EntryFrom(mem, lo, 0, v);
      assert v in heap && heap[v].len >= MIN_BLOCK_SIZE;
    }
  }

  /** Two acceptable heaps agree on the blocks that the free array names. */
  lemma BucketedBoth(mem: seq<Byte>, heap: Heap, seen: Heap, entries: seq<int>)
    requires entries == Entries(mem, FreeArraySize(|mem|), 0)
    requires Acceptable(mem, heap, entries) && Acceptable(mem, seen, entries) && Bucketed(mem, heap)
    ensures Bucketed(mem, seen)
  {
    var lo := FreeArraySize(|mem|);
    forall s | IsSlot(lo, s) ensures SlotBucketed(mem, seen, s) {
      if SlotValue(mem, s) != 0 {
        var v := SlotValue(mem, s);
        EntryFrom(mem, lo, 0, v);
        assert v in entries;
        assert SlotBucketed(mem, heap, s);
        HeaderThere(mem, seen, v);
        SameHeader(mem, heap, v, seen[v]);
      }
    }
  }

  method Check(arr: array<Byte>) returns (ok: bool)
    ensures ok <==> arr.Length < MIN_BLOCK_SIZE || Consistent(arr[..])
  {
    if arr.Length < MIN_BLOCK_SIZE {
      return true;
    }
    ghost var heap: Heap := map[];
    ghost var good := Consistent(arr[..]);
    if good {
      heap :| Describes(arr[..], heap);
      DescribesAcceptable(arr[..], heap);
    }
    hide Describes, Acceptable, Bucketed, Entries, Decodes;
    var freearr;
    ok, freearr := CollectEntries(arr);
    if !ok {
      return;
    }
    ghost var seen;
    ok, seen := WalkBlocks(arr, freearr, heap);
    if !ok {
      return;
    }
    AcceptableParts(arr[..], seen, freearr);
    ok := CheckBuckets(arr, seen);
    if good {
      BucketedBoth(arr[..], heap, seen, freearr);
    }
    if ok {
      AcceptableDescribes(arr[..], seen);
    }
  }

  lemma AcceptableParts(mem: seq<Byte>, heap: Heap, entries: seq<int>)
    requires Acceptable(mem, heap, entries)
    ensures Decodes(mem, heap) && forall v {:trigger v in heap} :: v in entries ==> v in heap
  {
  }

  /** tiny_alloc_check answers true for every pool that the allocator's operations can produce. */
  method CheckPool(pool: TinyPool) returns (ok: bool)
    requires pool.Valid()
    ensures ok
  {
    if pool.arr.Length >= MIN_BLOCK_SIZE {
      SoundConsistent(pool.arr[..], pool.heap);
    }
    ok := Check(pool.arr);
  }
}
