/** The mplite pool object: a binary-buddy allocator inside one caller-supplied buffer. */
module Mplite {
  import opened Shared
  import opened Wrappers
  import opened Powers
  import opened Bits
  import opened Buddy
  import opened FreeLists
  import opened BuddyLayout

  const MAX_ALLOC_SIZE: int := 0x4000_0000
  const OK: int := 0
  const ERR_INVPAR: int := -1
  const LINK_SIZE: int := 8

  /** The order of the block that serves a request: size doubles until it reaches n. */
  function OrderFor(size: int, n: int): nat
    requires size > 0
    decreases n - size
  {
    if size >= n then 0 else 1 + OrderFor(2 * size, n)
  }

  /** OrderFor is the least order whose blocks hold n bytes. */
  lemma {:induction false} OrderForLeast(size: int, n: int, k: nat)
    requires size > 0
    ensures OrderFor(size, n) <= k <==> size * Pow2(k) >= n
    decreases n - size
  {
    if size >= n {
      MulMono(1, Pow2(k), size);
    } else if k > 0 {
      OrderForLeast(2 * size, n, k - 1);
      assert size * Pow2(k) == 2 * size * Pow2(k - 1);
    }
  }

  lemma LeastSize(size: int, n: int, k: nat)
    requires size > 0
    ensures size * Pow2(k) >= n ==> size * Pow2(OrderFor(size, n)) <= size * Pow2(k)
  {
    OrderForLeast(size, n, k);
    if OrderFor(size, n) <= k {
      Pow2Mono(OrderFor(size, n), k);
      MulMono(Pow2(OrderFor(size, n)), Pow2(k), size);
    }
  }

  /** The atoms in use keep their contents. */
  ghost predicate SameData(p: seq<Atom>, q: seq<Atom>, used: set<int>) {
    |p| == |q| && forall a :: 0 <= a < |p| && a in used ==> p[a] == q[a]
  }

  lemma SameDataSelf(p: seq<Atom>, used: set<int>)
    ensures SameData(p, p, used)
  {
  }

  lemma SameDataTrans(p: seq<Atom>, q: seq<Atom>, r: seq<Atom>, used: set<int>)
    requires SameData(p, q, used) && SameData(q, r, used)
    ensures SameData(p, r, used)
  {
  }

  function Max(a: int, b: int): int {
    if a > b then a else b
  }

  /** The block that holds atom i is the first of its list. */
  ghost predicate InFront(lists: seq<seq<int>>, i: int) {
    exists m :: 0 <= m < |lists| && lists[m] != [] && lists[m][0] <= i < lists[m][0] + Pow2(m)
  }

  /** Block i is what the walk of mplite_unlink_first chooses on some list. */
  ghost predicate Chosen(lists: seq<seq<int>>, i: int) {
    exists m :: 0 <= m < |lists| && lists[m] != [] && i == Lowest(lists[m], lists[m][0])
  }

  /** The counters that only calls to malloc and realloc change. */
  datatype Stats = Stats(nAlloc: nat, totalAlloc: nat, totalExcess: nat, maxRequest: int, maxOut: int, maxCount: int)

  /** Every request counts for the largest, granted or not. */
  function Requested(s: Stats, nByte: int): Stats {
    s.(maxRequest := Max(s.maxRequest, nByte))
  }

  /** One more grant of fullSz bytes for nByte, with out bytes and count allocations outstanding afterwards. */
  function Charged(s: Stats, nByte: int, fullSz: int, out: int, count: int): Stats
    requires 0 <= nByte <= fullSz
  {
    Stats(Wrap64(s.nAlloc + 1), Wrap64(s.totalAlloc + fullSz), Wrap64(s.totalExcess + (fullSz - nByte)),
          s.maxRequest, Max(s.maxOut, out), Max(s.maxCount, count))
  }

  /** Addition to a uint64_t counter. */
  function Wrap64(x: nat): (r: nat)
    ensures r < 0x1_0000_0000_0000_0000 && (x - r) % 0x1_0000_0000_0000_0000 == 0
  {
    x % 0x1_0000_0000_0000_0000
  }

  /** The bit set by |= MPLITE_CTRL_FREE on any control byte. */
  function OrFree(c: Byte): (r: Byte) {
    if c / CTRL_FREE % 2 == 1 then c else c + CTRL_FREE
  }

  lemma {:induction false} IntervalSize(lo: int, hi: int, s: set<int>)
    requires lo <= hi && forall a :: a in s <==> lo <= a < hi
    ensures |s| == hi - lo
    decreases hi - lo
  {
    if lo == hi {
      assert forall a :: a !in s;
    } else {
      IntervalSize(lo, hi - 1, s - {hi - 1});
    }
  }

  lemma RangeSize(i: int, k: nat)
    ensures |Range(i, k)| == Pow2(k)
  {
    assert forall a :: i <= a < i + Pow2(k) ==> InRange(a, i, k);
    IntervalSize(i, i + Pow2(k), Range(i, k));
  }

  lemma FreeLogsize(k: int)
    requires 0 <= k <= LOGMAX
    ensures (CTRL_FREE + k) % 32 == k && k % 32 == k
  {
  }

  lemma UnionSize(a: set<int>, b: set<int>)
    requires a !! b
    ensures |a + b| == |a| + |b|
  {
    assert a * b == {};
  }

  lemma Distribute(x: int, a: int, b: int)
    ensures x * (a + b) == x * a + x * b
  {
  }

  /** Bookkeeping of atoms when the range (i, k) is taken. */
  lemma CountTaken(out: Allocs, n: nat, i: int, k: nat)
    requires AllocsOK(out, n) && Clear(Used(out), n, i, k)
    ensures i !in out && |out[i := k]| == |out| + 1
    ensures |Used(out[i := k])| == |Used(out)| + Pow2(k)
  {
    UsedAdd(out, n, i, k);
    RangeSize(i, k);
    UnionSize(Used(out), Range(i, k));
  }

  /** Bookkeeping of atoms when an allocation is given back. */
  lemma CountGiven(out: Allocs, n: nat, i: int)
    requires AllocsOK(out, n) && i in out
    ensures |out - {i}| == |out| - 1
    ensures |Used(out - {i})| == |Used(out)| - Pow2(out[i])
  {
    UsedRemove(out, n, i);
    var rest := out - {i};
    assert out == rest[i := out[i]];
    CountTaken(rest, n, i, out[i]);
  }

  lemma NothingUsed(out: Allocs)
    ensures |out| == 0 <==> |Used(out)| == 0
  {
    if exists i :: i in out {
      var i :| i in out;
      StartUsed(out, i);
    } else {
      assert out.Keys == {};
      assert Used(out) == {};
    }
  }

  lemma PositiveProduct(a: int, b: int)
    requires a > 0 && b >= 0
    ensures a * b >= 0 && (a * b > 0 <==> b > 0)
  {
  }

  /** Where the data of a growing reallocation comes from and goes to. */
  ghost predicate MoveRoom(out0: Allocs, n: nat, i: int, j: int, k: nat)
    requires i in out0
  {
    && i != j && Apart(j, out0[i], i, out0[i])
    && 0 <= i && i + Pow2(out0[i]) <= n && 0 <= j && j + Pow2(out0[i]) <= n
    && Range(j, out0[i]) !! Used(out0)
    && Range(j, out0[i]) <= Used(out0[j := k] - {i})
    && Used(out0 - {i}) <= Used(out0[j := k] - {i})
    && Used(out0 - {i}) <= Used(out0) && Range(i, out0[i]) <= Used(out0)
  }

  lemma MoveGeometry(out0: Allocs, n: nat, i: int, j: int, k: nat, sz: int, nBytes: int)
    requires AllocsOK(out0, n) && i in out0 && Clear(Used(out0), n, j, k) && sz > 0
    requires k == OrderFor(sz, nBytes) && sz * Pow2(out0[i]) < nBytes
    ensures MoveRoom(out0, n, i, j, k)
  {
    OrderForLeast(sz, nBytes, out0[i]);
    Pow2Mono(out0[i], k);
    UsedRemove(out0, n, i);
    UsedAdd(out0, n, j, k);
    UsedRemove(out0[j := k], n, i);
    AlignedDown(j, k, out0[i]);
    ClearWithin(Used(out0), n, j, out0[i], j, k);
    ClearMissesUsed(Used(out0), n, i, out0[i], j, out0[i]);
    assert Range(j, out0[i]) <= Range(j, k);
    assert Range(j, k) !! Range(i, out0[i]);
  }

  /** The size atoms from j on in q are those from i on in p. */
  ghost predicate Copied(p: seq<Atom>, q: seq<Atom>, i: int, j: int, size: int) {
    0 <= size && 0 <= i && i + size <= |p| && 0 <= j && j + size <= |q| && q[j..j + size] == p[i..i + size]
  }

  lemma CopiedData(out0: Allocs, n: nat, i: int, j: int, k: nat, pool0: seq<Atom>, pool1: seq<Atom>, pool2: seq<Atom>)
    requires i in out0 && MoveRoom(out0, n, i, j, k) && |pool0| == |pool1| == |pool2| == n
    requires SameData(pool0, pool1, Used(out0))
    requires forall a :: j <= a < j + Pow2(out0[i]) ==> pool2[a] == pool1[a - j + i]
    requires forall a :: 0 <= a < n && !(j <= a < j + Pow2(out0[i])) ==> pool2[a] == pool1[a]
    ensures SameData(pool0, pool2, Used(out0))
    ensures Copied(pool0, pool2, i, j, Pow2(out0[i]))
    ensures forall a :: 0 <= a < n && a !in Used(out0[j := k]) ==> pool2[a] == pool1[a]
  {
    var size := Pow2(out0[i]);
    assert forall a :: j <= a < j + size ==> InRange(a, j, out0[i]);
    forall a | j <= a < j + size ensures pool2[a] == pool0[a - j + i] {
      assert InRange(a - j + i, i, out0[i]);
      assert a - j + i in Used(out0);
    }
    var x, y := pool2[j..j + size], pool0[i..i + size];
    forall b | 0 <= b < size ensures x[b] == y[b] {
      assert pool2[j + b] == pool0[(j + b) - j + i];
    }
    SubAllocs(out0[j := k], i);
  }

  lemma PutBack(out: Allocs, i: int, k: nat)
    requires i in out && out[i] == k
    ensures (out - {i})[i := k] == out
  {
  }

  lemma SubAllocs(out: Allocs, i: int)
    ensures Used(out - {i}) <= Used(out)
  {
  }

  lemma MovedDone(out0: Allocs, n: nat, i: int, j: int, k: nat, pool0: seq<Atom>, pool1: seq<Atom>, pool2: seq<Atom>)
    requires i in out0 && MoveRoom(out0, n, i, j, k) && |pool0| == |pool1| == |pool2| == n
    requires SameData(pool0, pool1, Used(out0))
    requires Copied(pool0, pool1, i, j, Pow2(out0[i]))
    requires SameData(pool1, pool2, Used(out0[j := k] - {i}))
    ensures SameData(pool0, pool2, Used(out0 - {i}))
    ensures Copied(pool0, pool2, i, j, Pow2(out0[i]))
  {
    var size := Pow2(out0[i]);
    var x, y := pool2[j..j + size], pool1[j..j + size];
    forall b | 0 <= b < size ensures x[b] == y[b] {
      assert InRange(j + b, j, out0[i]);
      assert j + b in Range(j, out0[i]);
    }
  }

  /** Client data may be overwritten inside allocations without harm to the layout. */
  lemma DataWritten(pool0: seq<Atom>, pool1: seq<Atom>, ctrl: seq<Byte>, heads: seq<int>, lists: seq<seq<int>>, out: Allocs)
    requires Layout(pool0, ctrl, heads, lists, out, -1) && |pool1| == |pool0|
    requires forall a :: 0 <= a < |pool0| && a !in Used(out) ==> pool1[a] == pool0[a]
    ensures Layout(pool1, ctrl, heads, lists, out, -1)
  {
    forall k | 0 <= k < |lists| ensures Threaded(pool1, lists[k]) {
      assert Threaded(pool0, lists[k]);
      forall x | x in lists[k] ensures 0 <= x < |pool0| && pool1[x] == pool0[x] {
        if x in Used(out) {
          NotListed(lists, Used(out), |pool0|, x);
        }
      }
      ThreadedFrame(pool0, pool1, lists[k]);
    }
  }

  lemma EmptyBins(lists: seq<seq<int>>, used: set<int>, n: nat, lo: nat, hi: nat)
    requires Canonical(lists, used, n) && lo <= hi <= |lists|
    requires forall m :: lo <= m < hi ==> lists[m] == []
    ensures forall m, x :: lo <= m < hi ==> !Maximal(used, n, x, m)
  {
    forall m, x | lo <= m < hi ensures !Maximal(used, n, x, m) {
      assert lists[m] == [];
      assert x !in lists[m];
    }
  }

  /** The atoms from o on. */
  ghost function Tail(o: int, n: nat): set<int> {
    set a | o <= a < n && InTail(a)
  }

  ghost predicate InTail(a: int) {
    true
  }

  lemma PoolBound(sz: int, n: nat)
    requires sz >= LINK_SIZE && sz * n < 0x8000_0000
    ensures n < 0x8000_0000
  {
    MulMono(1, sz, n);
  }

  lemma NothingFree(lists: seq<seq<int>>, n: nat)
    requires |lists| == LOGMAX + 1 && forall k :: 0 <= k < |lists| ==> lists[k] == []
    ensures Canonical(lists, Tail(0, n), n)
  {
    forall k, i | 0 <= k < |lists| ensures !Clear(Tail(0, n), n, i, k) {
      FullyUsed(n, i, k);
    }
  }

  lemma FullyUsed(n: nat, i: int, k: nat)
    ensures !Clear(Tail(0, n), n, i, k)
  {
    RangeStart(i, k);
    assert InTail(i) && (0 <= i < n ==> i in Tail(0, n));
  }

  lemma FormatStep(ctrl: seq<Byte>, lists: seq<seq<int>>, n: nat, o: int, k: nat)
    requires Tagged(ctrl, lists) && k <= LOGMAX && |ctrl| == n
    requires 0 <= o && o + Pow2(k) <= n < o + Pow2(k + 1) && Aligned(o, k + 1)
    requires Canonical(lists, Tail(o, n), n)
    ensures Unlisted(lists, o) && Tagged(ctrl[o := CTRL_FREE + k], lists)
    ensures Tagged(ctrl[o := CTRL_FREE + k], lists[k := [o] + lists[k]])
    ensures Canonical(lists[k := [o] + lists[k]], Tail(o + Pow2(k), n), n)
  {
    AlignedDown(o, k + 1, k);
    assert Range(o, k) <= Tail(o, n) by {
      assert forall a :: a in Range(o, k) ==> InTail(a);
    }
    assert Tail(o, n) - Range(o, k) == Tail(o + Pow2(k), n) by {
      assert forall a :: o <= a < o + Pow2(k) ==> InRange(a, o, k);
    }
    Give(lists, Tail(o, n), n, k, o);
    assert lists[k := lists[k]] == lists;
    TaggedUpdate(ctrl, ctrl[o := CTRL_FREE + k], lists, k, lists[k]);
    TaggedUpdate(ctrl, ctrl[o := CTRL_FREE + k], lists, k, [o] + lists[k]);
  }

  lemma AtomBound(k: nat, v: int)
    requires v <= MAX_ALLOC_SIZE && (k > 0 ==> Pow2(k - 1) < v)
    ensures Pow2(k) <= MAX_ALLOC_SIZE
  {
    Pow2Logmax();
    if k > 0 {
      Pow2Below(k - 1, 30);
      Pow2Mono(k, 30);
    }
  }

  method Logarithm(value: int) returns (log: nat)
    requires 0 < value <= MAX_ALLOC_SIZE
    ensures Pow2(log) >= value && (log > 0 ==> Pow2(log - 1) < value)
  {
    log := 0;
    while Pow2(log) < value
      invariant log > 0 ==> Pow2(log - 1) < value
      decreases value - Pow2(log)
    {
      log := log + 1;
    }
  }

  class Pool {
    const szAtom: int
    const nBlock: nat
    const zPool: array<Atom>
    const aCtrl: array<Byte>
    const aiFreelist: array<int>

    var nAlloc: nat
    var totalAlloc: nat
    var totalExcess: nat
    var currentOut: int
    var currentCount: int
    var maxOut: int
    var maxCount: int
    var maxRequest: int

    ghost var lists: seq<seq<int>>
    ghost var out: Allocs

    /**
      mplite_init after its parameter checks.  The memory of the pool and of the control
      bytes is whatever the buffer held before; only block starts are written.
     */
    constructor (szAtom: int, nBlock: nat)
      requires LINK_SIZE <= szAtom <= MAX_ALLOC_SIZE && szAtom * nBlock < 0x8000_0000
      ensures Valid() && fresh(zPool) && fresh(aCtrl) && fresh(aiFreelist)
      ensures this.szAtom == szAtom && this.nBlock == nBlock && out == map[]
      ensures nAlloc == totalAlloc == totalExcess == 0
      ensures currentOut == currentCount == maxOut == maxCount == maxRequest == 0
    {
      this.szAtom, this.nBlock := szAtom, nBlock;
      zPool := new Atom[nBlock];
      aCtrl := new Byte[nBlock];
      aiFreelist := new int[LOGMAX + 1](_ => -1);
      nAlloc, totalAlloc, totalExcess := 0, 0, 0;
      currentOut, currentCount, maxOut, maxCount, maxRequest := 0, 0, 0, 0, 0;
      lists := seq(LOGMAX + 1, _ => []);
      out := map[];
      new;
      PoolBound(szAtom, nBlock);
      NothingFree(lists, nBlock);
      FormatPool();
    }

    /** The loop of mplite_init that builds the initial free blocks, largest first. */
    method FormatPool()
      requires Shape() && out == map[] && nBlock < 0x8000_0000
      requires AllThreaded(zPool[..], aiFreelist[..], lists) && Tagged(aCtrl[..], lists)
      requires Canonical(lists, Tail(0, nBlock), nBlock)
      modifies zPool, aCtrl, aiFreelist, this`lists
      ensures LaidOut(-1)
    {
      var iOffset := 0;
      AlignedZero(LOGMAX + 1);
      Pow2Logmax();
      for ii := LOGMAX + 1 downto 0
        invariant 0 <= iOffset <= nBlock < iOffset + Pow2(ii) && Aligned(iOffset, ii)
        invariant AllThreaded(zPool[..], aiFreelist[..], lists) && Tagged(aCtrl[..], lists)
        invariant Canonical(lists, Tail(iOffset, nBlock), nBlock)
      {
        var nAlloc := Pow2(ii);
        AlignedDown(iOffset, ii + 1, ii);
        if iOffset + nAlloc <= nBlock {
          FormatBlock(iOffset, ii);
          AlignedStep(iOffset, ii);
          iOffset := iOffset + nAlloc;
        }
        assert iOffset + nAlloc > nBlock;
      }
      assert Tail(iOffset, nBlock) == Used(out);
    }

    method FormatBlock(iOffset: int, ii: nat)
      requires Shape() && nBlock < 0x8000_0000 && ii <= LOGMAX
      requires AllThreaded(zPool[..], aiFreelist[..], lists) && Tagged(aCtrl[..], lists)
      requires 0 <= iOffset && iOffset + Pow2(ii) <= nBlock < iOffset + Pow2(ii + 1) && Aligned(iOffset, ii + 1)
      requires Canonical(lists, Tail(iOffset, nBlock), nBlock)
      modifies zPool, aCtrl, aiFreelist, this`lists
      ensures AllThreaded(zPool[..], aiFreelist[..], lists) && Tagged(aCtrl[..], lists)
      ensures Canonical(lists, Tail(iOffset + Pow2(ii), nBlock), nBlock)
    {
      FormatStep(aCtrl[..], lists, nBlock, iOffset, ii);
      ghost var ctrl0: seq<Byte> := aCtrl[..];
      aCtrl[iOffset] := CTRL_FREE + ii;
      assert aCtrl[..] == ctrl0[iOffset := CTRL_FREE + ii];
      FreeLogsize(ii);
      Link(iOffset, ii);
    }

    ghost predicate Shape() {
      && LINK_SIZE <= szAtom <= MAX_ALLOC_SIZE
      && szAtom * nBlock < 0x8000_0000
      && zPool.Length == aCtrl.Length == nBlock
      && aiFreelist.Length == LOGMAX + 1
    }

    /** Layout of the pool, disregarding the control byte at skip. */
    ghost predicate LaidOut(skip: int)
      reads this, zPool, aCtrl, aiFreelist
    {
      Shape() && Layout(zPool[..], aCtrl[..], aiFreelist[..], lists, out, skip)
    }

    lemma TakenRoom(used: set<int>, i: int, bin: nat, k: nat)
      requires Maximal(used, nBlock, i, bin) && k <= bin
      ensures Clear(used, nBlock, i, k)
    {
      CarvedRoom(used, nBlock, i, bin, k);
    }

    lemma Facts(skip: int)
      requires LaidOut(skip)
      ensures AllocsOK(out, nBlock) && nBlock < 0x8000_0000 && |lists| == LOGMAX + 1
    {
    }

    lemma BlockFacts(skip: int, i: int)
      requires LaidOut(skip) && i in out
      ensures 0 <= i && Aligned(i, out[i]) && i + Pow2(out[i]) <= nBlock && out[i] <= LOGMAX
    {
      OrderBound(out[i], nBlock);
    }

    ghost function CountersNow(): Stats
      reads this
    {
      Stats(nAlloc, totalAlloc, totalExcess, maxRequest, maxOut, maxCount)
    }

    /** The statistics agree with these allocations. */
    ghost predicate CountedFor(allocs: Allocs)
      reads this`currentCount, this`maxCount, this`currentOut, this`maxOut
    {
      && currentCount == |allocs| <= maxCount
      && currentOut == szAtom * |Used(allocs)| <= maxOut
    }

    ghost predicate Counted()
      reads this
    {
      CountedFor(out)
    }

    ghost predicate Valid()
      reads this, zPool, aCtrl, aiFreelist
    {
      LaidOut(-1) && Counted()
    }

    method Link(i: int, logsize: nat)
      requires Shape() && AllThreaded(zPool[..], aiFreelist[..], lists)
      requires 0 <= i < nBlock && logsize <= LOGMAX && aCtrl[i] % 32 == logsize
      requires Unlisted(lists, i) && Tagged(aCtrl[..], lists)
      requires |lists| == LOGMAX + 1
      modifies zPool, aiFreelist, this`lists
      ensures lists == old(lists)[logsize := [i] + old(lists[logsize])]
      ensures AllThreaded(zPool[..], aiFreelist[..], lists)
      ensures forall a :: 0 <= a < nBlock && a != i && a !in old(lists[logsize]) ==> zPool[a] == old(zPool[a])
    {
      LinkAll(zPool[..], aCtrl[..], aiFreelist[..], lists, logsize, i);
      ghost var pool0, heads0 := zPool[..], aiFreelist[..];
      var x := aiFreelist[logsize];
      zPool[i] := zPool[i].(next := x);
      zPool[i] := zPool[i].(prev := -1);
      if x >= 0 {
        zPool[x] := zPool[x].(prev := i);
      }
      aiFreelist[logsize] := i;
      lists := lists[logsize := [i] + lists[logsize]];
      assert zPool[..] == LinkPool(pool0, i, x);
      assert aiFreelist[..] == heads0[logsize := i];
    }

    method Unlink(i: int, logsize: nat) returns (ghost j: nat)
      requires Shape() && AllThreaded(zPool[..], aiFreelist[..], lists)
      requires 0 <= i < nBlock && logsize <= LOGMAX && aCtrl[i] % 32 == logsize
      requires |lists| == LOGMAX + 1 && i in lists[logsize] && Tagged(aCtrl[..], lists)
      modifies zPool, aiFreelist, this`lists
      ensures j < |old(lists[logsize])| && old(lists[logsize])[j] == i
      ensures lists == old(lists)[logsize := Without(old(lists[logsize]), j)]
      ensures AllThreaded(zPool[..], aiFreelist[..], lists)
      ensures forall a :: 0 <= a < nBlock && a !in old(lists[logsize]) ==> zPool[a] == old(zPool[a])
    {
      hide Threaded, Used;
      j :| 0 <= j < |lists[logsize]| && lists[logsize][j] == i;
      ghost var s := lists[logsize];
      ghost var pool0, heads0 := zPool[..], aiFreelist[..];
      UnlinkLinks(pool0, heads0, lists, logsize, j);
      var next := zPool[i].next;
      var prev := zPool[i].prev;
      if prev < 0 {
        aiFreelist[logsize] := next;
      } else {
        zPool[prev] := zPool[prev].(next := next);
      }
      assert zPool[..] == if prev < 0 then pool0 else pool0[prev := pool0[prev].(next := next)];
      assert aiFreelist[..] == if prev < 0 then heads0[logsize := next] else heads0;
      if next >= 0 {
        zPool[next] := zPool[next].(prev := prev);
      }
      assert zPool[..] == UnlinkPool(pool0, next, prev);
      UnlinkAll(pool0, aCtrl[..], heads0, lists, logsize, j, zPool[..], aiFreelist[..]);
      lists := lists[logsize := Without(s, j)];
    }

    /** The list walk of mplite_unlink_first. */
    method LowestListed(logsize: nat) returns (first: int)
      requires Shape() && AllThreaded(zPool[..], aiFreelist[..], lists)
      requires |lists| == LOGMAX + 1 && logsize <= LOGMAX && lists[logsize] != []
      ensures first == Lowest(lists[logsize], lists[logsize][0])
      ensures first in lists[logsize] && 0 <= first < nBlock
      ensures LowestOf(first, lists[logsize]) <==> WalkSeesAll(lists[logsize])
    {
      ghost var s := lists[logsize];
      assert Threaded(zPool[..], s);
      assert aiFreelist[..][logsize] == Head(s);
      var i := aiFreelist[logsize];
      first := i;
      ghost var at := 0;
      while i > 0
        invariant 0 <= at <= |s| && i == if at < |s| then s[at] else -1
        invariant Lowest(s[at..], first) == Lowest(s, s[0])
        invariant first in s
        decreases |s| - at
      {
        if i < first {
          first := i;
        }
        assert zPool[..][s[at]].next == NextOf(s, at);
        i := zPool[i].next;
        at := at + 1;
      }
      assert forall x :: x in s ==> 0 <= x;
      LowestExactly(s);
    }

    method UnlinkFirst(logsize: nat) returns (first: int, ghost j: nat)
      requires Shape() && AllThreaded(zPool[..], aiFreelist[..], lists)
      requires |lists| == LOGMAX + 1 && logsize <= LOGMAX && lists[logsize] != []
      requires Tagged(aCtrl[..], lists)
      modifies zPool, aiFreelist, this`lists
      ensures first == Lowest(old(lists[logsize]), old(lists[logsize])[0])
      ensures LowestOf(first, old(lists[logsize])) <==> WalkSeesAll(old(lists[logsize]))
      ensures j < |old(lists[logsize])| && old(lists[logsize])[j] == first
      ensures lists == old(lists)[logsize := Without(old(lists[logsize]), j)]
      ensures AllThreaded(zPool[..], aiFreelist[..], lists)
      ensures forall a :: 0 <= a < nBlock && a !in old(lists[logsize]) ==> zPool[a] == old(zPool[a])
    {
      first := LowestListed(logsize);
      assert aCtrl[..][first] == CTRL_FREE + logsize;
      FreeLogsize(logsize);
      j := Unlink(first, logsize);
    }

    /** Body of the splitting loop of mplite_malloc_unsafe. */
    method SplitOff(i: int, bin: nat)
      requires LaidOut(i) && i in out && out[i] == bin + 1
      modifies zPool, aCtrl, aiFreelist, this`lists, this`out
      ensures LaidOut(i) && out == old(out)[i := bin]
      ensures bin < |old(lists)| && lists == old(lists)[bin := [i + Pow2(bin)] + old(lists[bin])]
      ensures SameData(old(zPool[..]), zPool[..], Used(out - {i}))
    {
      SplitCanonical(lists, out, nBlock, i, bin);
      SplitHeaders(aCtrl[..], lists, out, nBlock, i, bin);
      OthersUntouched(lists, out, nBlock, i);
      FreeLogsize(bin);
      assert out[i := bin] - {i} == out - {i};
      var newSize := Pow2(bin);
      ghost var ctrl0: seq<Byte> := aCtrl[..];
      aCtrl[i + newSize] := CTRL_FREE + bin;
      assert aCtrl[..] == ctrl0[i + newSize := CTRL_FREE + bin];
      Link(i + newSize, bin);
      out := out[i := bin];
    }
  
    /** Rounding loop of mplite_malloc_unsafe and mplite_roundup. */
    method FullSize(nByte: int) returns (fullSz: int, logsize: nat)
      requires Shape() && nByte <= MAX_ALLOC_SIZE
      ensures logsize == OrderFor(szAtom, nByte) && fullSz == szAtom * Pow2(logsize)
      ensures nByte <= fullSz < 0x8000_0000 && logsize <= LOGMAX
    {
      fullSz, logsize := szAtom, 0;
      while fullSz < nByte
        invariant fullSz == szAtom * Pow2(logsize) && szAtom <= fullSz < 0x8000_0000
        invariant OrderFor(szAtom, nByte) == logsize + OrderFor(fullSz, nByte)
        decreases nByte - fullSz
      {
        MulAssoc2(szAtom, Pow2(logsize));
        fullSz := fullSz * 2;
        logsize := logsize + 1;
      }
      MulMono(1, szAtom, Pow2(logsize));
      OrderBound(logsize, fullSz);
    }

    /** Bin search of mplite_malloc_unsafe. */
    method FindBin(logsize: nat) returns (bin: nat)
      requires LaidOut(-1) && logsize <= LOGMAX
      ensures logsize <= bin <= LOGMAX + 1
      ensures forall m :: logsize <= m < bin ==> lists[m] == []
      ensures bin <= LOGMAX ==> lists[bin] != []
      ensures bin > LOGMAX <==> NoRoom(Used(out), nBlock, logsize)
      ensures forall m, x :: logsize <= m < bin ==> !Maximal(Used(out), nBlock, x, m)
    {
      hide Headers, AllocsOK, Used;
      bin := logsize;
      while bin <= LOGMAX && aiFreelist[bin] < 0
        invariant logsize <= bin <= LOGMAX + 1
        invariant forall m :: logsize <= m < bin ==> lists[m] == []
      {
        assert Threaded(zPool[..], lists[bin]);
        assert aiFreelist[..][bin] == Head(lists[bin]);
        bin := bin + 1;
      }
      assert bin <= LOGMAX ==> aiFreelist[..][bin] == Head(lists[bin]);
      RoomListed(lists, Used(out), nBlock, logsize);
      EmptyBins(lists, Used(out), nBlock, logsize, bin);
    }

    /** Unlinking and splitting in mplite_malloc_unsafe. */
    method Carve(bin: nat, logsize: nat) returns (i: int)
      requires LaidOut(-1) && logsize <= bin <= LOGMAX && lists[bin] != []
      modifies zPool, aCtrl, aiFreelist, this`lists, this`out
      ensures LaidOut(-1) && i !in old(out) && out == old(out)[i := logsize]
      ensures i == Lowest(old(lists[bin]), old(lists[bin])[0])
      ensures LowestOf(i, old(lists[bin])) <==> WalkSeesAll(old(lists[bin]))
      ensures TakenLists(old(lists), lists, i, bin, logsize)
      ensures Maximal(Used(old(out)), nBlock, i, bin)
      ensures SameData(old(zPool[..]), zPool[..], Used(old(out)))
    {
      hide Layout, Used, Range, Clear, SplitLists;
      ghost var out0 := out;
      Facts(-1);
      i := TakeFirst(bin);
      assert out - {i} == out0;
      SplitDown(i, bin, logsize);
      Seal(i, logsize);
    }

    /** The splitting loop. */
    method SplitDown(i: int, bin: nat, logsize: nat)
      requires LaidOut(i) && logsize <= bin <= LOGMAX && i in out && out[i] == bin
      modifies zPool, aCtrl, aiFreelist, this`lists, this`out
      ensures LaidOut(i) && out == old(out)[i := logsize] && SplitLists(old(lists), lists, i, bin, logsize)
      ensures SameData(old(zPool[..]), zPool[..], Used(old(out) - {i}))
    {
      hide Layout, Used, Range, Clear, SplitLists;
      ghost var out0, pool0, lists0 := out, zPool[..], lists;
      Facts(i);
      NothingSplit(lists0, i, bin);
      var b := bin;
      while b > logsize
        invariant logsize <= b <= bin
        invariant LaidOut(i) && out == out0[i := b] && SplitLists(lists0, lists, i, bin, b)
        invariant |lists| == |lists0|
        invariant SameData(pool0, zPool[..], Used(out0 - {i}))
      {
        b := b - 1;
        ghost var lists1 := lists;
        SplitOff(i, b);
        SplitListsStep(lists0, lists1, i, bin, b);
        assert out - {i} == out0 - {i};
      }
    }

    /** Writing the header of an allocation. */
    method Seal(i: int, logsize: nat)
      requires LaidOut(i) && i in out && out[i] == logsize
      modifies aCtrl
      ensures LaidOut(-1)
    {
      SealLayout(zPool[..], aCtrl[..], aiFreelist[..], lists, out, i);
      ghost var ctrl0: seq<Byte> := aCtrl[..];
      aCtrl[i] := logsize;
      assert aCtrl[..] == ctrl0[i := logsize];
    }

    method TakeFirst(bin: nat) returns (i: int)
      requires LaidOut(-1) && bin <= LOGMAX && lists[bin] != []
      modifies zPool, aiFreelist, this`lists, this`out
      ensures LaidOut(i) && i !in old(out) && out == old(out)[i := bin]
      ensures i == Lowest(old(lists[bin]), old(lists[bin])[0])
      ensures LowestOf(i, old(lists[bin])) <==> WalkSeesAll(old(lists[bin]))
      ensures lists == old(lists)[bin := Removed(old(lists[bin]), i)]
      ensures Maximal(Used(old(out)), nBlock, i, bin)
      ensures SameData(old(zPool[..]), zPool[..], Used(old(out)))
    {
      ghost var pool0, heads0, lists0 := zPool[..], aiFreelist[..], lists;
      UsedNotListed(lists, Used(out), nBlock);
      ghost var j;
      assert Threaded(pool0, lists0[bin]);
      i, j := UnlinkFirst(bin);
      RemovedWithout(lists0[bin], j);
      TakeLayout(pool0, aCtrl[..], heads0, lists0, out, bin, j, zPool[..], aiFreelist[..]);
      out := out[i := bin];
    }
  
    /** Statistics update of mplite_malloc_unsafe. */
    method CountMalloc(fullSz: int, nByte: int, ghost out0: Allocs, ghost i: int, ghost k: nat)
      requires 0 <= nByte <= fullSz == szAtom * Pow2(k)
      requires AllocsOK(out0, nBlock) && Clear(Used(out0), nBlock, i, k) && out == out0[i := k]
      requires CountedFor(out0)
      modifies this`nAlloc, this`totalAlloc, this`totalExcess, this`currentCount, this`currentOut, this`maxCount, this`maxOut
      ensures Counted()
      ensures CountersNow() == Charged(old(CountersNow()), nByte, fullSz, old(currentOut) + fullSz, old(currentCount) + 1)
    {
      hide Used, Clear, Range, Wrap64, AllocsOK;
      CountTaken(out0, nBlock, i, k);
      Distribute(szAtom, |Used(out0)|, Pow2(k));
      nAlloc := Wrap64(nAlloc + 1);
      totalAlloc := Wrap64(totalAlloc + fullSz);
      totalExcess := Wrap64(totalExcess + (fullSz - nByte));
      currentCount := currentCount + 1;
      currentOut := currentOut + fullSz;
      if maxCount < currentCount {
        maxCount := currentCount;
      }
      if maxOut < currentOut {
        maxOut := currentOut;
      }
    }

    /** What a successful allocation of nByte bytes at byte offset p did to the outstanding allocations. */
    ghost predicate Granted(before: Allocs, after: Allocs, nByte: int, p: int)
      requires szAtom > 0
    {
      var i, k := p / szAtom, OrderFor(szAtom, nByte);
      p == i * szAtom && Clear(Used(before), nBlock, i, k) && after == before[i := k]
    }

    /** The block carved up is a free block of the smallest order that is available. */
    ghost predicate FromSmallest(before: Allocs, nByte: int, i: int)
      requires szAtom > 0
    {
      exists bin :: OrderFor(szAtom, nByte) <= bin && Maximal(Used(before), nBlock, i, bin)
                    && forall m, x :: OrderFor(szAtom, nByte) <= m < bin ==> !Maximal(Used(before), nBlock, x, m)
    }

    /** What a request of nByte bytes does to the counters. */
    ghost predicate CountersAfter(before: Stats, out0: int, count0: int, nByte: int, granted: bool)
      requires szAtom > 0
      reads this
    {
      if granted then
        var fullSz := szAtom * Pow2(OrderFor(szAtom, nByte));
        0 <= nByte <= fullSz && CountersNow() == Charged(Requested(before, nByte), nByte, fullSz, out0 + fullSz, count0 + 1)
      else
        CountersNow() == Requested(before, nByte)
    }

    method MallocUnsafe(nByte: int) returns (p: Option<int>)
      requires Valid() && nByte > 0
      modifies this, zPool, aCtrl, aiFreelist
      ensures Valid()
      ensures p.None? <==> nByte > MAX_ALLOC_SIZE || NoRoom(Used(old(out)), nBlock, OrderFor(szAtom, nByte))
      ensures p.None? ==> out == old(out) && lists == old(lists) && unchanged(zPool) && unchanged(aCtrl)
      ensures p.Some? ==> Granted(old(out), out, nByte, p.value)
      ensures p.Some? ==> FromSmallest(old(out), nByte, p.value / szAtom) && Chosen(old(lists), p.value / szAtom)
      ensures p.Some? ==> Carved(old(lists), lists, p.value / szAtom, OrderFor(szAtom, nByte))
      ensures SameData(old(zPool[..]), zPool[..], Used(old(out)))
      ensures CountersAfter(old(CountersNow()), old(currentOut), old(currentCount), nByte, p.Some?)
    {
      hide Layout, Used, Range, Clear, NoRoom, Carved, Charged;
      if nByte > maxRequest {
        maxRequest := nByte;
      }
      if nByte > MAX_ALLOC_SIZE {
        return None;
      }
      var fullSz, logsize := FullSize(nByte);
      var bin := FindBin(logsize);
      if bin > LOGMAX {
        return None;
      }
      var i := Grant(bin, logsize, fullSz, nByte);
      MulMod(i, szAtom);
      return Some(i * szAtom);
    }

    /** The second half of mplite_malloc_unsafe: a block of order bin is available. */
    method Grant(bin: nat, logsize: nat, fullSz: int, nByte: int) returns (i: int)
      requires Valid() && logsize <= bin <= LOGMAX && lists[bin] != [] && forall m :: logsize <= m < bin ==> lists[m] == []
      requires fullSz == szAtom * Pow2(logsize) && 0 <= nByte <= fullSz
      modifies this, zPool, aCtrl, aiFreelist
      ensures Valid() && CountersNow() == Charged(old(CountersNow()), nByte, fullSz, old(currentOut) + fullSz, old(currentCount) + 1)
      ensures i !in old(out) && out == old(out)[i := logsize] && Chosen(old(lists), i) && Carved(old(lists), lists, i, logsize)
      ensures Maximal(Used(old(out)), nBlock, i, bin) && Clear(Used(old(out)), nBlock, i, logsize)
      ensures SameData(old(zPool[..]), zPool[..], Used(old(out)))
    {
      hide Layout, Used, Range, Clear, TakenLists, SplitLists, Charged;
      ghost var out0, lists0 := out, lists;
      Facts(-1);
      i := Carve(bin, logsize);
      assert CarvedFrom(lists0, lists, i, bin, logsize);
      TakenRoom(Used(out0), i, bin, logsize);
      CountMalloc(fullSz, nByte, out0, i, logsize);
    }
  
    /** The control byte writes at the start of mplite_free_unsafe. */
    method MarkFree(iBlock: int, logsize: nat)
      requires LaidOut(-1) && iBlock in out && out[iBlock] == logsize <= LOGMAX
      modifies aCtrl
      ensures LaidOut(iBlock) && 0 <= iBlock < nBlock && aCtrl[iBlock] == CTRL_FREE + logsize
    {
      var size := Pow2(logsize);
      ghost var ctrl0: seq<Byte> := aCtrl[..];
      assert InRange(iBlock, iBlock, logsize) && InRange(iBlock + size - 1, iBlock, logsize);
      aCtrl[iBlock] := OrFree(aCtrl[iBlock]);
      aCtrl[iBlock + size - 1] := OrFree(aCtrl[iBlock + size - 1]);
      aCtrl[iBlock] := CTRL_FREE + logsize;
      UnsealLayout(zPool[..], ctrl0, aiFreelist[..], lists, out, iBlock, aCtrl[..]);
    }

    /** The allocated block (iBlock, logsize) can be given back without waking its parent. */
    ghost predicate Settled(iBlock: int, logsize: nat)
      reads this
    {
      !Clear(Used(out - {iBlock}), nBlock, Parent(iBlock, logsize), logsize + 1)
    }

    /** Body of the coalescing loop of mplite_free_unsafe: done stands for its break. */
    method MergeStep(iBlock: int, logsize: nat) returns (done: bool, merged: int)
      requires LaidOut(iBlock) && iBlock in out && out[iBlock] == logsize < LOGMAX
      requires 0 <= iBlock < nBlock
      modifies zPool, aCtrl, aiFreelist, this`lists, this`out
      ensures done ==> Settled(iBlock, logsize) && unchanged(aCtrl) && unchanged(zPool) && unchanged(aiFreelist)
      ensures done ==> out == old(out) && lists == old(lists) && (logsize < |lists| ==> Sibling(iBlock, logsize) !in lists[logsize])
      ensures !done ==> logsize < |old(lists)| && Sibling(iBlock, logsize) in old(lists[logsize])
                        && lists == old(lists)[logsize := Removed(old(lists[logsize]), Sibling(iBlock, logsize))]
      ensures !done ==> LaidOut(merged) && merged in out && out[merged] == logsize + 1
      ensures !done ==> 0 <= merged < nBlock && aCtrl[merged] == CTRL_FREE + logsize + 1
      ensures !done ==> out - {merged} == old(out) - {iBlock} && merged == Parent(iBlock, logsize) && Aligned(iBlock, logsize)
      ensures SameData(old(zPool[..]), zPool[..], Used(old(out) - {iBlock}))
    {
      var size := Pow2(logsize);
      HalfBit(iBlock, logsize);
      var iBuddy := if iBlock / size % 2 == 1 then iBlock - size else iBlock + size;
      assert iBuddy == Sibling(iBlock, logsize);
      SiblingSettles(lists, out, nBlock, iBlock, logsize);
      assert iBuddy >= 0;
      if iBuddy + size > nBlock {
        OutsideUnlisted(lists, Used(out), nBlock, iBuddy, logsize);
        return true, iBlock;
      }
      BuddyTest(zPool[..], aCtrl[..], aiFreelist[..], lists, out, iBlock, logsize);
      if aCtrl[iBuddy] != CTRL_FREE + logsize {
        return true, iBlock;
      }
      merged := Absorb(iBlock, logsize, iBuddy);
      done := false;
    }

    /** A free sibling is unlinked and joined to the block. */
    method Absorb(iBlock: int, logsize: nat, iBuddy: int) returns (merged: int)
      requires LaidOut(iBlock) && iBlock in out && out[iBlock] == logsize < LOGMAX
      requires iBuddy == Sibling(iBlock, logsize) && iBuddy in lists[logsize]
      modifies zPool, aCtrl, aiFreelist, this`lists, this`out
      ensures LaidOut(merged) && merged in out && out[merged] == logsize + 1
      ensures 0 <= merged < nBlock && aCtrl[merged] == CTRL_FREE + logsize + 1
      ensures out - {merged} == old(out) - {iBlock} && merged == Parent(iBlock, logsize)
      ensures logsize < |old(lists)| && lists == old(lists)[logsize := Removed(old(lists[logsize]), iBuddy)]
      ensures SameData(old(zPool[..]), zPool[..], Used(old(out) - {iBlock}))
    {
      ghost var lists0 := lists;
      OthersUntouched(lists, out, nBlock, iBlock);
      assert Threaded(zPool[..], lists[logsize]);
      assert aCtrl[..][iBuddy] == CTRL_FREE + logsize;
      FreeLogsize(logsize);
      ghost var j := Unlink(iBuddy, logsize);
      RemovedWithout(lists0[logsize], j);
      MergeCanonical(lists0, out, nBlock, iBlock, logsize, j);
      StartUsed(out, iBlock);
      NotListed(lists0, Used(out), nBlock, iBlock);
      merged := JoinHeaders(iBlock, logsize, iBuddy, lists0, j);
      out := Joined(out, iBlock, logsize);
    }

    /** The header of the joined block is written at its start, and the other half's is cleared. */
    method JoinHeaders(iBlock: int, logsize: nat, iBuddy: int, ghost lists0: seq<seq<int>>, ghost j: nat) returns (merged: int)
      requires Shape() && Headers(aCtrl[..], out, lists0, iBlock) && logsize < LOGMAX
      requires iBlock in out && out[iBlock] == logsize < |lists0|
      requires 0 <= iBlock < nBlock && 0 <= iBuddy < nBlock && Aligned(iBlock, logsize)
      requires iBuddy == Sibling(iBlock, logsize) && iBuddy !in out && Unlisted(lists0, iBlock)
      requires j < |lists0[logsize]| && lists0[logsize][j] == iBuddy && Distinct(lists0[logsize])
      modifies aCtrl
      ensures merged == Parent(iBlock, logsize) && 0 <= merged < nBlock
      ensures aCtrl[merged] == CTRL_FREE + logsize + 1
      ensures Headers(aCtrl[..], Joined(out, iBlock, logsize), lists0[logsize := Without(lists0[logsize], j)], merged)
    {
      SiblingFacts(iBlock, logsize);
      ghost var ctrl0: seq<Byte> := aCtrl[..];
      if iBuddy < iBlock {
        aCtrl[iBuddy] := CTRL_FREE + logsize + 1;
        aCtrl[iBlock] := 0;
        merged := iBuddy;
      } else {
        aCtrl[iBlock] := CTRL_FREE + logsize + 1;
        aCtrl[iBuddy] := 0;
        merged := iBlock;
      }
      MergeHeaders(ctrl0, aCtrl[..], lists0, out, iBlock, logsize, j);
    }

    /** Statistics update of mplite_free_unsafe, with its asserts. */
    method CountFree(iBlock: int, size: int)
      requires LaidOut(-1) && Counted() && iBlock in out && size == Pow2(out[iBlock])
      modifies this`currentCount, this`currentOut
      ensures currentCount == old(currentCount) - 1
      ensures currentOut == old(currentOut) - size * szAtom
      ensures CountedFor(out - {iBlock})
    {
      hide Used, Range, Pow2;
      CountGiven(out, nBlock, iBlock);
      Distribute(szAtom, |Used(out - {iBlock})|, size);
      MulMono(0, |Used(out - {iBlock})|, szAtom);
      NothingUsed(out - {iBlock});
      assert currentCount > 0;
      assert currentOut >= size * szAtom;
      currentCount := currentCount - 1;
      currentOut := currentOut - size * szAtom;
      PositiveProduct(szAtom, |Used(out - {iBlock})|);
      assert currentOut > 0 || currentCount == 0;
      assert currentCount > 0 || currentOut == 0;
    }

    method FreeUnsafe(pOld: int)
      requires Valid() && pOld % szAtom == 0 && pOld / szAtom in out
      modifies zPool, aCtrl, aiFreelist, this`lists, this`out, this`currentCount, this`currentOut
      ensures Valid() && out == old(out) - {pOld / szAtom} && InFront(lists, pOld / szAtom)
      ensures old(out)[pOld / szAtom] < |old(lists)| && lists == Rejoined(old(lists), pOld / szAtom, old(out)[pOld / szAtom])
      ensures SameData(old(zPool[..]), zPool[..], Used(out))
    {
      hide Layout, Used, Range, Clear, Rejoined;
      FreeBlock(pOld / szAtom);
    }

    method FreeBlock(iBlock: int)
      requires Valid() && iBlock in out
      modifies zPool, aCtrl, aiFreelist, this`lists, this`out, this`currentCount, this`currentOut
      ensures Valid() && out == old(out) - {iBlock} && InFront(lists, iBlock)
      ensures old(out)[iBlock] < |old(lists)| && lists == Rejoined(old(lists), iBlock, old(out)[iBlock])
      ensures SameData(old(zPool[..]), zPool[..], Used(out))
    {
      hide Layout, Used, Range, Clear, CountedFor, SameData, Pow2, Rejoined;
      var logsize := LogsizeAt(iBlock);
      var size := Pow2(logsize);
      assert 0 <= iBlock + size - 1 < nBlock;
      CountFree(iBlock, size);
      MarkFree(iBlock, logsize);
      Coalesce(iBlock, logsize);
    }

    /** aCtrl[i] & MPLITE_CTRL_LOGSIZE for an allocation, whose free bit is clear. */
    method LogsizeAt(i: int) returns (logsize: nat)
      requires LaidOut(-1) && i in out
      ensures 0 <= i && i + Pow2(logsize) <= nBlock && logsize == out[i] <= LOGMAX
    {
      SealLayout(zPool[..], aCtrl[..], aiFreelist[..], lists, out, i);
      assert aCtrl[..][i] == out[i];
      FreeLogsize(out[i]);
      assert aCtrl[i] / CTRL_FREE % 2 == 0;
      logsize := aCtrl[i] % 32;
    }

    /** The coalescing loop of mplite_free_unsafe and its final link. */
    method Coalesce(start: int, order: nat)
      requires LaidOut(start) && start in out && out[start] == order <= LOGMAX
      requires 0 <= start < nBlock && aCtrl[start] == CTRL_FREE + order
      modifies zPool, aCtrl, aiFreelist, this`lists, this`out
      ensures LaidOut(-1) && out == old(out) - {start} && InFront(lists, start)
      ensures order < |old(lists)| && lists == Rejoined(old(lists), start, order)
      ensures SameData(old(zPool[..]), zPool[..], Used(out))
    {
      hide Layout, Used, Range, Clear, Parent, SameData, Pow2, Settled, Removed, Sibling;
      Facts(start);
      ghost var lists0 := lists;
      var iBlock, logsize := start, order;
      ghost var rest, pool0 := out - {start}, zPool[..];
      SameDataSelf(pool0, Used(rest));
      while logsize < LOGMAX
        invariant LaidOut(iBlock) && iBlock in out && out[iBlock] == logsize <= LOGMAX
        invariant 0 <= iBlock < nBlock && aCtrl[iBlock] == CTRL_FREE + logsize
        invariant out - {iBlock} == rest && iBlock <= start < iBlock + Pow2(logsize)
        invariant |lists| == |lists0| == LOGMAX + 1 && Rejoined(lists, iBlock, logsize) == Rejoined(lists0, start, order)
        invariant SameData(pool0, zPool[..], Used(rest))
        decreases LOGMAX - logsize
      {
        ghost var pool1 := zPool[..];
        var done, merged := MergeStep(iBlock, logsize);
        SameDataTrans(pool0, pool1, zPool[..], Used(rest));
        if done {
          break;
        }
        ParentAligned(iBlock, logsize);
        iBlock := merged;
        logsize := logsize + 1;
      }
      Facts(iBlock);
      assert Rejoined(lists, iBlock, logsize) == lists[logsize := [iBlock] + lists[logsize]];
      BlockFacts(iBlock, iBlock);
      TopSettled(out, nBlock, iBlock, logsize);
      ghost var pool2 := zPool[..];
      Finish(iBlock, logsize);
      SameDataTrans(pool0, pool2, zPool[..], Used(rest));
    }

    method Finish(iBlock: int, logsize: nat)
      requires LaidOut(iBlock) && iBlock in out && out[iBlock] == logsize <= LOGMAX
      requires 0 <= iBlock < nBlock && aCtrl[iBlock] == CTRL_FREE + logsize
      requires Settled(iBlock, logsize)
      modifies zPool, aiFreelist, this`lists, this`out
      ensures LaidOut(-1) && out == old(out) - {iBlock} && logsize < |lists| && lists[logsize] != [] && lists[logsize][0] == iBlock
      ensures logsize < |old(lists)| && lists == old(lists)[logsize := [iBlock] + old(lists[logsize])]
      ensures SameData(old(zPool[..]), zPool[..], Used(out))
    {
      OthersUntouched(lists, out, nBlock, iBlock);
      assert InRange(iBlock, iBlock, logsize);
      GiveLayout(zPool[..], aCtrl[..], aiFreelist[..], lists, out, iBlock, logsize);
      FreeLogsize(logsize);
      Link(iBlock, logsize);
      out := out - {iBlock};
    }
  
    // ----- Client operations -----

    ghost predicate Outstanding(p: Option<int>)
      reads this
    {
      p.Some? && szAtom > 0 && p.value % szAtom == 0 && p.value / szAtom in out
    }

    method Malloc(nBytes: int) returns (p: Option<int>)
      requires Valid()
      modifies this, zPool, aCtrl, aiFreelist
      ensures Valid()
      ensures p.None? <==> nBytes <= 0 || nBytes > MAX_ALLOC_SIZE || NoRoom(Used(old(out)), nBlock, OrderFor(szAtom, nBytes))
      ensures p.None? ==> out == old(out) && lists == old(lists) && unchanged(zPool) && unchanged(aCtrl)
      ensures p.Some? ==> Granted(old(out), out, nBytes, p.value)
      ensures p.Some? ==> FromSmallest(old(out), nBytes, p.value / szAtom) && Chosen(old(lists), p.value / szAtom)
      ensures p.Some? ==> Carved(old(lists), lists, p.value / szAtom, OrderFor(szAtom, nBytes))
      ensures SameData(old(zPool[..]), zPool[..], Used(old(out)))
      ensures if nBytes <= 0 then CountersNow() == old(CountersNow())
              else CountersAfter(old(CountersNow()), old(currentOut), old(currentCount), nBytes, p.Some?)
    {
      hide Layout, Used, Range, Clear, Carved, Charged;
      if nBytes <= 0 {
        return None;
      }
      p := MallocUnsafe(nBytes);
    }

    method Free(pPrior: Option<int>)
      requires Valid() && (pPrior.None? || Outstanding(pPrior))
      modifies zPool, aCtrl, aiFreelist, this`lists, this`out, this`currentCount, this`currentOut
      ensures Valid()
      ensures out == if pPrior.None? then old(out) else old(out) - {pPrior.value / szAtom}
      ensures pPrior.Some? ==> InFront(lists, pPrior.value / szAtom)
      ensures if pPrior.None? then lists == old(lists)
              else old(out)[pPrior.value / szAtom] < |old(lists)|
                   && lists == Rejoined(old(lists), pPrior.value / szAtom, old(out)[pPrior.value / szAtom])
      ensures SameData(old(zPool[..]), zPool[..], Used(out))
    {
      hide Layout, Used, Range, Clear, Rejoined;
      if pPrior.Some? {
        FreeUnsafe(pPrior.value);
      }
    }

    method Size(p: Option<int>) returns (size: int)
      requires Valid() && (p.None? || Outstanding(p))
      ensures size == if p.None? then 0 else szAtom * Pow2(out[p.value / szAtom])
    {
      hide Layout, Used, Range, Clear;
      size := 0;
      if p.Some? {
        var logsize := LogsizeAt(p.value / szAtom);
        size := szAtom * Pow2(logsize);
      }
    }

    /** The least allocation size that holds n bytes, or 0 when n is too large. */
    method Roundup(n: int) returns (fullSz: int)
      requires Shape()
      ensures n > MAX_ALLOC_SIZE ==> fullSz == 0
      ensures n <= MAX_ALLOC_SIZE ==> fullSz >= n && exists k: nat :: fullSz == szAtom * Pow2(k)
      ensures n <= MAX_ALLOC_SIZE ==> forall k: nat :: szAtom * Pow2(k) >= n ==> fullSz <= szAtom * Pow2(k)
    {
      if n > MAX_ALLOC_SIZE {
        return 0;
      }
      var k0;
      fullSz, k0 := FullSize(n);
      forall k: nat | szAtom * Pow2(k) >= n ensures fullSz <= szAtom * Pow2(k) {
        LeastSize(szAtom, n, k);
      }
    }

    /** An owner writes one atom of its allocation. */
    method ClientWrite(a: int, v: Atom)
      requires Valid() && a in Used(out) && 0 <= a < nBlock
      modifies zPool
      ensures Valid()
      ensures zPool[..] == old(zPool[..])[a := v]
    {
      NotListed(lists, Used(out), nBlock, a);
      ghost var pool0 := zPool[..];
      zPool[a] := v;
      forall k | 0 <= k < |lists| ensures Threaded(zPool[..], lists[k]) {
        ThreadedFrame(pool0, zPool[..], lists[k]);
      }
    }

    /** Whatever a control byte holds that is not at the start of a block, the invariant does not depend on it. */
    method StaleControl(a: int, v: Byte)
      requires Valid() && 0 <= a < nBlock && a !in out && Unlisted(lists, a)
      modifies aCtrl
      ensures Valid()
      ensures aCtrl[..] == old(aCtrl[..])[a := v]
    {
      ghost var ctrl0: seq<Byte> := aCtrl[..];
      aCtrl[a] := v;
      assert aCtrl[..] == ctrl0[a := v];
      assert lists[0 := lists[0]] == lists;
      TaggedUpdate(ctrl0, aCtrl[..], lists, 0, lists[0]);
    }
  
    /** memcpy of whole atoms between two blocks that do not overlap. */
    method CopyAtoms(dst: int, src: int, count: int)
      requires Shape() && 0 <= count && 0 <= src && src + count <= nBlock && 0 <= dst && dst + count <= nBlock
      requires dst + count <= src || src + count <= dst
      modifies zPool
      ensures forall a :: dst <= a < dst + count ==> zPool[a] == old(zPool[a - dst + src])
      ensures forall a :: 0 <= a < nBlock && !(dst <= a < dst + count) ==> zPool[a] == old(zPool[a])
    {
      for c := 0 to count
        invariant forall a :: dst <= a < dst + c ==> zPool[a] == old(zPool[a - dst + src])
        invariant forall a :: 0 <= a < nBlock && !(dst <= a < dst + c) ==> zPool[a] == old(zPool[a])
      {
        zPool[dst + c] := zPool[src + c];
      }
    }

    /** The allocation at byte offset p has moved to offset q, with all its data, to serve nBytes bytes. */
    ghost predicate Moved(before: Allocs, after: Allocs, nBytes: int, p: int, q: int, pool0: seq<Atom>, pool1: seq<Atom>)
      requires szAtom > 0 && p / szAtom in before
    {
      var i, j, k := p / szAtom, q / szAtom, before[p / szAtom];
      && Granted(before, after[i := k], nBytes, q)
      && after == before[j := OrderFor(szAtom, nBytes)] - {i}
      && Copied(pool0, pool1, i, j, Pow2(k))
      && SameData(pool0, pool1, Used(before - {i}))
    }

    method Realloc(pPrior: Option<int>, nBytes: int) returns (p: Option<int>)
      requires Valid() && (pPrior.None? || Outstanding(pPrior))
      modifies this, zPool, aCtrl, aiFreelist
      ensures Valid()
      ensures pPrior.None? || nBytes <= 0 || !OneBit(nBytes) ==> p.None?
      ensures p.None? || p == pPrior ==> out == old(out) && lists == old(lists) && unchanged(zPool) && unchanged(aCtrl)
      ensures pPrior.Some? && nBytes > 0 && OneBit(nBytes) ==>
                var order := old(out)[pPrior.value / szAtom];
                (p == pPrior <==> nBytes <= szAtom * Pow2(order))
                && (p.None? <==> nBytes > szAtom * Pow2(order)
                                 && (nBytes > MAX_ALLOC_SIZE || NoRoom(Used(old(out)), nBlock, OrderFor(szAtom, nBytes))))
      ensures p.Some? && p != pPrior ==> Moved(old(out), out, nBytes, pPrior.value, p.value, old(zPool[..]), zPool[..])
      ensures p.Some? && p != pPrior ==> FromSmallest(old(out), nBytes, p.value / szAtom) && Chosen(old(lists), p.value / szAtom)
      ensures p.Some? && p != pPrior ==>
                CarvedRejoined(old(lists), lists, p.value / szAtom, OrderFor(szAtom, nBytes), pPrior.value / szAtom, old(out)[pPrior.value / szAtom])
      ensures if pPrior.None? || nBytes <= 0 || !OneBit(nBytes) || p == pPrior then CountersNow() == old(CountersNow())
              else CountersAfter(old(CountersNow()), old(currentOut), old(currentCount), nBytes, p.Some?)
    {
      hide Layout, Used, Range, Clear, CarvedRejoined, Charged;
      if pPrior.None? || nBytes <= 0 {
        return None;
      }
      AndPredecessor(nBytes);
      if And(nBytes, nBytes - 1) != 0 {
        return None;
      }
      var nOld := Size(pPrior);
      if nBytes <= nOld {
        return pPrior;
      }
      p := Grow(pPrior.value, nBytes, nOld);
    }

    /** The allocate, copy and free part of mplite_realloc. */
    method Grow(pPrior: int, nBytes: int, nOld: int) returns (p: Option<int>)
      requires Valid() && Outstanding(Some(pPrior)) && nBytes > 0
      requires nOld == szAtom * Pow2(out[pPrior / szAtom]) < nBytes
      modifies this, zPool, aCtrl, aiFreelist
      ensures Valid()
      ensures p.None? ==> out == old(out) && lists == old(lists) && unchanged(zPool) && unchanged(aCtrl)
      ensures p.None? <==> nBytes > MAX_ALLOC_SIZE || NoRoom(Used(old(out)), nBlock, OrderFor(szAtom, nBytes))
      ensures p.Some? ==> p.value != pPrior && Moved(old(out), out, nBytes, pPrior, p.value, old(zPool[..]), zPool[..])
      ensures p.Some? ==> FromSmallest(old(out), nBytes, p.value / szAtom) && Chosen(old(lists), p.value / szAtom)
      ensures p.Some? ==>
                CarvedRejoined(old(lists), lists, p.value / szAtom, OrderFor(szAtom, nBytes), pPrior / szAtom, old(out)[pPrior / szAtom])
      ensures CountersAfter(old(CountersNow()), old(currentOut), old(currentCount), nBytes, p.Some?)
    {
      hide Layout, Used, Range, Clear, Carved, Rejoined, Charged;
      ghost var out0, pool0 := out, zPool[..];
      Facts(-1);
      p := MallocUnsafe(nBytes);
      if p.Some? {
        MoveAndFree(out0, pPrior, p.value, nBytes, nOld, pool0);
      }
    }

    method MoveAndFree(ghost out0: Allocs, pPrior: int, p: int, nBytes: int, nOld: int, ghost pool0: seq<Atom>)
      requires Valid() && pPrior % szAtom == 0 && pPrior / szAtom in out0 && AllocsOK(out0, nBlock)
      requires nOld == szAtom * Pow2(out0[pPrior / szAtom]) < nBytes
      requires Granted(out0, out, nBytes, p) && SameData(pool0, zPool[..], Used(out0))
      modifies zPool, aCtrl, aiFreelist, this`lists, this`out, this`currentCount, this`currentOut
      ensures Valid() && p != pPrior && CountersNow() == old(CountersNow())
      ensures out0[pPrior / szAtom] < |old(lists)| && lists == Rejoined(old(lists), pPrior / szAtom, out0[pPrior / szAtom])
      ensures Moved(out0, out, nBytes, pPrior, p, pool0, zPool[..])
    {
      hide Layout, Used, Range, Clear, Rejoined;
      ghost var i, j, k := pPrior / szAtom, p / szAtom, OrderFor(szAtom, nBytes);
      MoveGeometry(out0, nBlock, i, j, k, szAtom, nBytes);
      MoveData(out0, pPrior, p, nOld, k, pool0);
      ghost var out1, pool1 := out, zPool[..];
      FreeUnsafe(pPrior);
      MovedDone(out0, nBlock, i, j, k, pool0, pool1, zPool[..]);
      PutBack(out1, i, out0[i]);
    }

    method MoveData(ghost out0: Allocs, pPrior: int, p: int, nOld: int, ghost k: nat, ghost pool0: seq<Atom>)
      requires Valid() && pPrior / szAtom in out0 && nOld == szAtom * Pow2(out0[pPrior / szAtom])
      requires MoveRoom(out0, nBlock, pPrior / szAtom, p / szAtom, k) && out == out0[p / szAtom := k]
      requires SameData(pool0, zPool[..], Used(out0))
      modifies zPool
      ensures Valid() && SameData(pool0, zPool[..], Used(out0))
      ensures Copied(pool0, zPool[..], pPrior / szAtom, p / szAtom, Pow2(out0[pPrior / szAtom]))
    {
      ghost var pool1 := zPool[..];
      var i, j, count := pPrior / szAtom, p / szAtom, nOld / szAtom;
      ProductDiv(szAtom, Pow2(out0[i]));
      CopyAtoms(j, i, count);
      CopiedData(out0, nBlock, i, j, k, pool0, pool1, zPool[..]);
      DataWritten(pool1, zPool[..], aCtrl[..], aiFreelist[..], lists, out);
    }
  }

  lemma BlockCount(bufSize: int, szAtom: int)
    requires bufSize > 0 && szAtom > 0
    ensures var n := bufSize / (szAtom + 1);
            0 <= n && szAtom * n <= bufSize && n * (szAtom + 1) <= bufSize < (n + 1) * (szAtom + 1)
  {
    var n := bufSize / (szAtom + 1);
    DivMod(bufSize, szAtom + 1);
    assert n * (szAtom + 1) == szAtom * n + n;
    assert (n + 1) * (szAtom + 1) == n * (szAtom + 1) + (szAtom + 1);
  }

  /** mplite_init: the whole result for any int parameters; a zero szAtom cannot arise. */
  method Init(bufSize: int, minAlloc: int) returns (status: int, pool: Pool?)
    requires bufSize < 0x8000_0000 && minAlloc <= MAX_ALLOC_SIZE
    ensures status == if bufSize <= 0 || minAlloc <= 0 then ERR_INVPAR else OK
    ensures status == OK <==> pool != null
    ensures pool != null ==> pool.Valid() && pool.out == map[] && pool.szAtom >= minAlloc
    ensures pool != null ==> exists k: nat :: k >= 3 && pool.szAtom == Pow2(k) && (k > 3 ==> Pow2(k - 1) < minAlloc)
    ensures pool != null ==> pool.nBlock * (pool.szAtom + 1) <= bufSize < (pool.nBlock + 1) * (pool.szAtom + 1)
  {
    if bufSize <= 0 || minAlloc <= 0 {
      return ERR_INVPAR, null;
    }
    var szAtom := AtomSize(minAlloc);
    var nBlock := bufSize / (szAtom + 1);
    BlockCount(bufSize, szAtom);
    pool := new Pool(szAtom, nBlock);
    status := OK;
  }

  method AtomSize(minAlloc: int) returns (szAtom: int)
    requires 0 < minAlloc <= MAX_ALLOC_SIZE
    ensures LINK_SIZE <= szAtom <= MAX_ALLOC_SIZE && szAtom >= minAlloc
    ensures exists k: nat :: k >= 3 && szAtom == Pow2(k) && (k > 3 ==> Pow2(k - 1) < minAlloc)
  {
    var nMinLog := Logarithm(minAlloc);
    szAtom := Pow2(nMinLog);
    ghost var k := nMinLog;
    AtomBound(k, minAlloc);
    while LINK_SIZE > szAtom
      invariant szAtom == Pow2(k) && minAlloc <= szAtom <= MAX_ALLOC_SIZE
      invariant k == nMinLog || k <= 3
      decreases LINK_SIZE - szAtom
    {
      Pow2Below(k, 3);
      szAtom := szAtom * 2;
      k := k + 1;
    }
    Pow2Below(2, k);
  }
}
