/** What holds of an mplite pool over whole runs, whatever order the operations came in. */
module MpliteRuns {
  import opened Wrappers
  import opened Powers
  import opened Buddy
  import opened FreeLists
  import opened BuddyLayout
  import opened Mplite

  // ----- The layout of an idle pool -----

  /** The free blocks of an idle pool of n atoms: one for each binary digit of n, largest first. */
  predicate InitialBlock(n: nat, i: int, k: nat) {
    n / Pow2(k) % 2 == 1 && i == n / Pow2(k + 1) * Pow2(k + 1)
  }

  lemma DoubleDiv(n: nat, p: int)
    requires p > 0
    ensures n / p == 2 * (n / (2 * p)) + n / p % 2
    ensures n / p % 2 == 1 <==> n / (2 * p) * (2 * p) + p <= n
    ensures n / (2 * p) * (2 * p) <= n < n / (2 * p) * (2 * p) + 2 * p
  {
    DivMod(n, 2 * p);
    var h, r := n / (2 * p), n % (2 * p);
    assert h * (2 * p) == (2 * h) * p;
    if r < p {
      DivModUnique(n, p, 2 * h, r);
    } else {
      assert (2 * h) * p + p == (2 * h + 1) * p;
      DivModUnique(n, p, 2 * h + 1, r - p);
    }
  }

  lemma InitialIsMaximal(n: nat, i: int, k: nat)
    requires InitialBlock(n, i, k)
    ensures Maximal({}, n, i, k)
  {
    var p, h := Pow2(k), n / Pow2(k + 1);
    DoubleDiv(n, p);
    MulMod(h, 2 * p);
    MulMono(0, h, 2 * p);
    AlignedDown(i, k + 1, k);
  }

  lemma MaximalIsInitial(n: nat, i: int, k: nat)
    requires Maximal({}, n, i, k)
    ensures InitialBlock(n, i, k)
  {
    var p, h := Pow2(k), n / Pow2(k + 1);
    ParentAligned(i, k);
    ParentNonNegative(i, k);
    DoubleDiv(n, p);
    assert Parent(i, k) == i && i + 2 * p > n;
    DivMod(i, 2 * p);
    assert n == i / (2 * p) * (2 * p) + (n - i);
    DivModUnique(n, 2 * p, i / (2 * p), n - i);
  }

  /** With nothing outstanding the free blocks are the ones mplite_init builds. */
  lemma IdleLayout(n: nat, i: int, k: nat)
    ensures Maximal({}, n, i, k) <==> InitialBlock(n, i, k)
  {
    if InitialBlock(n, i, k) {
      InitialIsMaximal(n, i, k);
    } else if Maximal({}, n, i, k) {
      MaximalIsInitial(n, i, k);
    }
  }

  ghost predicate Idle(pool: Pool)
    reads pool
  {
    forall k, i {:trigger i in pool.lists[k]} :: 0 <= k < |pool.lists| ==> (i in pool.lists[k] <==> InitialBlock(pool.nBlock, i, k))
  }

  lemma NothingOutstanding(pool: Pool)
    requires pool.Valid() && pool.out == map[]
    ensures Idle(pool) && |pool.lists| == LOGMAX + 1
    ensures pool.currentOut == 0 && pool.currentCount == 0
  {
    assert Used(pool.out) == {};
    forall k, i | 0 <= k < |pool.lists| ensures i in pool.lists[k] <==> InitialBlock(pool.nBlock, i, k) {
      IdleLayout(pool.nBlock, i, k);
    }
    PositiveProduct(pool.szAtom, 0);
  }

  // ----- The layout is a function of what is outstanding -----

  /** Pools of equal size with the same allocations agree on every free block and every header. */
  lemma HistoryIndependent(a: Pool, b: Pool)
    requires a.Valid() && b.Valid() && a.nBlock == b.nBlock && a.out == b.out
    ensures |a.lists| == |b.lists|
    ensures forall k, i :: 0 <= k < |a.lists| ==> (i in a.lists[k] <==> i in b.lists[k])
    ensures forall i :: 0 <= i < a.nBlock && (i in a.out || !Unlisted(a.lists, i)) ==> a.aCtrl[i] == b.aCtrl[i]
    ensures a.currentCount == b.currentCount
    ensures a.szAtom == b.szAtom ==> a.currentOut == b.currentOut
  {
    var n := a.nBlock;
    forall k, i | 0 <= k < |a.lists| ensures i in a.lists[k] <==> i in b.lists[k] {
      assert i in a.lists[k] <==> Maximal(Used(a.out), n, i, k);
      assert i in b.lists[k] <==> Maximal(Used(a.out), n, i, k);
    }
    forall i | 0 <= i < n && (i in a.out || !Unlisted(a.lists, i)) ensures a.aCtrl[i] == b.aCtrl[i] {
      assert a.aCtrl[..][i] == a.aCtrl[i] && b.aCtrl[..][i] == b.aCtrl[i];
      if i !in a.out {
        var k :| 0 <= k < |a.lists| && i in a.lists[k];
        assert i in b.lists[k];
      }
    }
  }

  // ----- Blocks tile the pool -----

  ghost predicate IsBlock(out: Allocs, n: nat, i: int, k: nat) {
    (i in out && out[i] == k) || Maximal(Used(out), n, i, k)
  }

  lemma TilesExist(out: Allocs, n: nat, a: int) returns (i: int, k: nat)
    requires AllocsOK(out, n) && 0 <= a < n
    ensures IsBlock(out, n, i, k) && InRange(a, i, k) && 0 <= i && i + Pow2(k) <= n && Aligned(i, k)
  {
    if a in Used(out) {
      i :| i in out && a in Range(i, out[i]);
      k := out[i];
    } else {
      SingleAtom(a);
      i, k := Ancestor(Used(out), n, a, 0);
    }
  }

  lemma TilesApart(out: Allocs, n: nat, a: int, i: int, k: nat, j: int, m: nat)
    requires AllocsOK(out, n) && IsBlock(out, n, i, k) && IsBlock(out, n, j, m)
    requires InRange(a, i, k) && InRange(a, j, m)
    ensures i == j && k == m
  {
    assert a in Range(i, k) && a in Range(j, m);
    assert i in out && out[i] == k ==> a in Used(out);
    assert j in out && out[j] == m ==> a in Used(out);
    if a !in Used(out) {
      MaximalUnique(Used(out), n, i, k, j, m);
    }
  }

  /** Every atom of the pool belongs to exactly one block, outstanding or listed. */
  lemma Tiles(pool: Pool, a: int)
    requires pool.Valid() && 0 <= a < pool.nBlock
    ensures exists i: int, k: nat :: IsBlock(pool.out, pool.nBlock, i, k) && InRange(a, i, k)
    ensures forall i: int, k: nat, j: int, m: nat ::
              IsBlock(pool.out, pool.nBlock, i, k) && InRange(a, i, k) && IsBlock(pool.out, pool.nBlock, j, m) && InRange(a, j, m)
              ==> i == j && k == m
  {
    var i, k := TilesExist(pool.out, pool.nBlock, a);
    forall i: int, k: nat, j: int, m: nat | IsBlock(pool.out, pool.nBlock, i, k) && InRange(a, i, k)
                                            && IsBlock(pool.out, pool.nBlock, j, m) && InRange(a, j, m)
      ensures i == j && k == m
    {
      TilesApart(pool.out, pool.nBlock, a, i, k, j, m);
    }
  }

  /** Byte ranges of two outstanding pointers do not meet and stay inside the pool. */
  lemma PointersApart(pool: Pool, p: int, q: int)
    requires pool.Valid() && pool.Outstanding(Some(p)) && pool.Outstanding(Some(q)) && p != q
    ensures 0 <= p && p + pool.szAtom * Pow2(pool.out[p / pool.szAtom]) <= pool.szAtom * pool.nBlock
    ensures p + pool.szAtom * Pow2(pool.out[p / pool.szAtom]) <= q || q + pool.szAtom * Pow2(pool.out[q / pool.szAtom]) <= p
  {
    var i, j := p / pool.szAtom, q / pool.szAtom;
    DivMod(p, pool.szAtom);
    DivMod(q, pool.szAtom);
    AllocsApart(pool.out, pool.nBlock, i, j);
    ScaleUp(pool.szAtom, 0, 0, i);
    ScaleUp(pool.szAtom, i, Pow2(pool.out[i]), pool.nBlock);
    ScaleUp(pool.szAtom, i, Pow2(pool.out[i]), j);
    ScaleUp(pool.szAtom, j, Pow2(pool.out[j]), i);
  }

  lemma AllocsApart(out: Allocs, n: nat, i: int, j: int)
    requires AllocsOK(out, n) && i in out && j in out && i != j
    ensures Apart(j, out[j], i, out[i])
  {
    var r := Range(i, out[i]);
    assert r !! Range(j, out[j]);
    AlignedClear(r, n, out, j);
    ClearMissesUsed(r, n, i, out[i], j, out[j]);
  }

  lemma AlignedClear(used: set<int>, n: nat, out: Allocs, j: int)
    requires AllocsOK(out, n) && j in out && Range(j, out[j]) !! used
    ensures Clear(used, n, j, out[j])
  {
  }

  lemma ScaleUp(sz: int, x: int, s: int, y: int)
    requires sz > 0
    ensures x + s <= y ==> x * sz + sz * s <= y * sz
  {
    if x + s <= y {
      MulMono(x + s, y, sz);
    }
  }

  // ----- Whole runs -----

  /** One call made by a client, or one write by a client into memory that it owns. */
  datatype Op = Malloc(size: int) | Free(p: Option<int>) | Realloc(q: Option<int>, newSize: int) | Write(atom: int, value: Atom)

  /** A client passes only outstanding pointers and writes only inside its allocations. */
  ghost predicate Lawful(pool: Pool, op: Op)
    reads pool
  {
    match op
    case Malloc(_) => true
    case Free(p) => p.None? || pool.Outstanding(p)
    case Realloc(q, _) => q.None? || pool.Outstanding(q)
    case Write(a, _) => 0 <= a < pool.nBlock && a in Used(pool.out)
  }

  /** The allocation the call is about. */
  ghost predicate Target(szAtom: int, out: Allocs, op: Op, i: int)
    requires szAtom > 0 && i in out
  {
    match op
    case Malloc(_) => false
    case Free(p) => p.Some? && i == p.value / szAtom
    case Realloc(q, _) => q.Some? && i == q.value / szAtom
    case Write(a, _) => a in Range(i, out[i])
  }

  /** Allocation i is still outstanding, as large as before, with all its data. */
  ghost predicate Intact(before: Allocs, after: Allocs, p: seq<Atom>, q: seq<Atom>, i: int)
    requires i in before
  {
    i in after && after[i] == before[i] && |p| == |q|
    && forall a :: a in Range(i, before[i]) && 0 <= a < |p| ==> q[a] == p[a]
  }

  lemma SameIntact(before: Allocs, after: Allocs, p: seq<Atom>, q: seq<Atom>, kept: Allocs, i: int)
    requires i in kept && i in before && i in after && kept[i] == before[i] == after[i] && SameData(p, q, Used(kept))
    ensures Intact(before, after, p, q, i)
  {
    forall a | a in Range(i, before[i]) && 0 <= a < |p| ensures q[a] == p[a] {
      assert a in Used(kept);
    }
  }

  /** Every allocation that the step is not about is intact. */
  ghost predicate OthersIntact(szAtom: int, op: Op, before: Allocs, after: Allocs, p: seq<Atom>, q: seq<Atom>)
    requires szAtom > 0
  {
    forall i :: i in before && !Target(szAtom, before, op, i) ==> Intact(before, after, p, q, i)
  }

  lemma OthersKept(szAtom: int, op: Op, before: Allocs, after: Allocs, p: seq<Atom>, q: seq<Atom>, kept: Allocs)
    requires szAtom > 0 && SameData(p, q, Used(kept))
    requires forall i :: i in before && !Target(szAtom, before, op, i) ==>
               i in kept && i in after && kept[i] == before[i] == after[i]
    ensures OthersIntact(szAtom, op, before, after, p, q)
  {
    hide Used, Range, SameData, Intact, Target;
    forall i | i in before && !Target(szAtom, before, op, i) ensures Intact(before, after, p, q, i) {
      SameIntact(before, after, p, q, kept, i);
    }
  }

  lemma FreeOthers(szAtom: int, x: Option<int>, before: Allocs, after: Allocs, p: seq<Atom>, q: seq<Atom>)
    requires szAtom > 0 && SameData(p, q, Used(after))
    requires after == if x.None? then before else before - {x.value / szAtom}
    ensures OthersIntact(szAtom, Free(x), before, after, p, q)
  {
    hide Used, Range, SameData, OthersIntact;
    OthersKept(szAtom, Free(x), before, after, p, q, after);
  }

  lemma MallocOthers(szAtom: int, size: int, before: Allocs, after: Allocs, p: seq<Atom>, q: seq<Atom>)
    requires szAtom > 0 && SameData(p, q, Used(before)) && forall i :: i in before ==> i in after && after[i] == before[i]
    ensures OthersIntact(szAtom, Malloc(size), before, after, p, q)
  {
    hide Used, Range, SameData, OthersIntact;
    OthersKept(szAtom, Malloc(size), before, after, p, q, before);
  }

  lemma MoveOthers(szAtom: int, x: int, size: int, before: Allocs, after: Allocs, p: seq<Atom>, q: seq<Atom>)
    requires szAtom > 0 && SameData(p, q, Used(before - {x / szAtom}))
    requires forall i :: i in before && i != x / szAtom ==> i in after && after[i] == before[i]
    ensures OthersIntact(szAtom, Realloc(Some(x), size), before, after, p, q)
  {
    hide Used, Range, SameData, OthersIntact;
    OthersKept(szAtom, Realloc(Some(x), size), before, after, p, q, before - {x / szAtom});
  }

  lemma NothingMoved(szAtom: int, op: Op, before: Allocs, p: seq<Atom>)
    requires szAtom > 0
    ensures OthersIntact(szAtom, op, before, before, p, p)
  {
    hide Range;
  }

  method StepMalloc(pool: Pool, size: int)
    requires pool.Valid()
    modifies pool, pool.zPool, pool.aCtrl, pool.aiFreelist
    ensures pool.Valid()
    ensures OthersIntact(pool.szAtom, Malloc(size), old(pool.out), pool.out, old(pool.zPool[..]), pool.zPool[..])
  {
    hide Used, SameData, Clear, Layout, OthersIntact, AllocsOK;
    ghost var out0: Allocs, p0: seq<Atom> := pool.out, pool.zPool[..];
    pool.Facts(-1);
    var p := pool.Malloc(size);
    if p.Some? {
      GrantedNew(pool, out0, size, p.value);
    }
    MallocOthers(pool.szAtom, size, out0, pool.out, p0, pool.zPool[..]);
  }

  lemma GrantedNew(pool: Pool, before: Allocs, size: int, p: int)
    requires pool.szAtom > 0 && AllocsOK(before, pool.nBlock) && pool.Granted(before, pool.out, size, p)
    ensures forall i :: i in before ==> i in pool.out && pool.out[i] == before[i]
  {
    hide Used;
    NewStart(before, pool.nBlock, p / pool.szAtom, OrderFor(pool.szAtom, size));
  }

  lemma NewStart(out: Allocs, n: nat, i: int, k: nat)
    requires AllocsOK(out, n) && Clear(Used(out), n, i, k)
    ensures i !in out
  {
    UsedAdd(out, n, i, k);
  }

  method StepRealloc(pool: Pool, x: Option<int>, size: int)
    requires pool.Valid() && (x.None? || pool.Outstanding(x))
    modifies pool, pool.zPool, pool.aCtrl, pool.aiFreelist
    ensures pool.Valid()
    ensures OthersIntact(pool.szAtom, Realloc(x, size), old(pool.out), pool.out, old(pool.zPool[..]), pool.zPool[..])
  {
    hide Used, SameData, Clear, Layout, OthersIntact, AllocsOK;
    ghost var out0: Allocs, p0: seq<Atom> := pool.out, pool.zPool[..];
    pool.Facts(-1);
    var p := pool.Realloc(x, size);
    if p.None? || p == x {
      assert pool.zPool[..] == p0;
      NothingMoved(pool.szAtom, Realloc(x, size), out0, p0);
    } else {
      MovedNew(pool, out0, size, x.value, p.value, p0, pool.zPool[..]);
      MoveOthers(pool.szAtom, x.value, size, out0, pool.out, p0, pool.zPool[..]);
    }
  }

  lemma MovedNew(pool: Pool, before: Allocs, size: int, x: int, y: int, p: seq<Atom>, q: seq<Atom>)
    requires pool.szAtom > 0 && x / pool.szAtom in before && AllocsOK(before, pool.nBlock)
    requires pool.Moved(before, pool.out, size, x, y, p, q)
    ensures SameData(p, q, Used(before - {x / pool.szAtom}))
    ensures forall i :: i in before && i != x / pool.szAtom ==> i in pool.out && pool.out[i] == before[i]
  {
    hide Used, SameData, Clear;
    var i := x / pool.szAtom;
    assert Clear(Used(before), pool.nBlock, y / pool.szAtom, OrderFor(pool.szAtom, size));
    NewStart(before, pool.nBlock, y / pool.szAtom, OrderFor(pool.szAtom, size));
  }

  /** Any lawful step, in any reachable state: the invariant stays, and so does every allocation that the step is not about. */
  method Step(pool: Pool, op: Op)
    requires pool.Valid() && Lawful(pool, op)
    modifies pool, pool.zPool, pool.aCtrl, pool.aiFreelist
    ensures pool.Valid()
    ensures OthersIntact(pool.szAtom, op, old(pool.out), pool.out, old(pool.zPool[..]), pool.zPool[..])
  {
    hide Used, SameData, Clear, Layout, OthersIntact, AllocsOK;
    ghost var out0: Allocs, p0: seq<Atom> := pool.out, pool.zPool[..];
    match op {
      case Malloc(size) =>
        StepMalloc(pool, size);
      case Free(p) =>
        pool.Free(p);
        FreeOthers(pool.szAtom, p, out0, pool.out, p0, pool.zPool[..]);
      case Realloc(q, size) =>
        StepRealloc(pool, q, size);
      case Write(a, v) =>
        pool.ClientWrite(a, v);
        WriteOthers(pool.szAtom, out0, p0, a, v);
    }
  }

  lemma WriteOthers(szAtom: int, out: Allocs, p: seq<Atom>, a: int, v: Atom)
    requires szAtom > 0 && 0 <= a < |p|
    ensures OthersIntact(szAtom, Write(a, v), out, out, p, p[a := v])
  {
    hide Range;
  }

  /** From position x on, order names exactly the outstanding allocations, each once. */
  ghost predicate Names(order: seq<int>, x: int, out: Allocs) {
    && 0 <= x <= |order|
    && (forall y :: x <= y < |order| ==> order[y] in out)
    && (forall i :: i in out ==> exists y :: x <= y < |order| && order[y] == i)
    && (forall y, z :: x <= y < z < |order| ==> order[y] != order[z])
  }

  lemma NamesRest(order: seq<int>, x: nat, out: Allocs)
    requires Names(order, x, out) && x < |order|
    ensures order[x] in out && Names(order, x + 1, out - {order[x]})
  {
    forall i | i in out && i != order[x] ensures exists y :: x + 1 <= y < |order| && order[y] == i {
      var y :| x <= y < |order| && order[y] == i;
    }
  }

  lemma NamesNothing(order: seq<int>, out: Allocs)
    requires Names(order, |order|, out)
    ensures out == map[]
  {
    assert forall i :: i !in out;
    assert out.Keys == {};
  }

  method FreeAt(pool: Pool, i: int)
    requires pool.Valid() && i in pool.out
    modifies pool, pool.zPool, pool.aCtrl, pool.aiFreelist
    ensures pool.Valid() && pool.out == old(pool.out) - {i}
  {
    MulMod(i, pool.szAtom);
    pool.Free(Some(i * pool.szAtom));
  }

  /** Giving back everything, in any order, restores the layout of a fresh pool. */
  method FreeAll(pool: Pool, order: seq<int>)
    requires pool.Valid() && Names(order, 0, pool.out)
    modifies pool, pool.zPool, pool.aCtrl, pool.aiFreelist
    ensures pool.Valid() && pool.out == map[] && Idle(pool)
    ensures pool.currentOut == 0 && pool.currentCount == 0
  {
    for x := 0 to |order|
      invariant pool.Valid() && Names(order, x, pool.out)
    {
      NamesRest(order, x, pool.out);
      FreeAt(pool, order[x]);
    }
    NamesNothing(order, pool.out);
    NothingOutstanding(pool);
  }

  // ----- The lowest free block is not always taken -----

  /** Every allocation is a single atom. */
  ghost predicate Singles(out: Allocs) {
    forall i :: i in out ==> out[i] == 0
  }

  lemma SinglesUsed(out: Allocs)
    requires Singles(out)
    ensures Used(out) == out.Keys
  {
    forall a ensures a in Used(out) <==> a in out {
      if a in out {
        StartUsed(out, a);
      }
      if i, b :| i in out && b in Range(i, out[i]) && b == a {
        SingleAtom(i);
      }
    }
  }

  lemma AllAtoms(n: nat) returns (atoms: set<int>)
    ensures |atoms| == n && forall a :: a in atoms <==> 0 <= a < n
  {
    atoms := Tail(0, n);
    forall a ensures a in atoms <==> 0 <= a < n {
      assert InTail(a);
    }
    IntervalSize(0, n, atoms);
  }

  lemma AtomClear(out: Allocs, n: nat, a: int)
    requires Singles(out)
    ensures Clear(Used(out), n, a, 0) <==> 0 <= a < n && a !in out
  {
    SinglesUsed(out);
    SingleAtom(a);
    hide Used, Range;
  }

  /** With fewer than n single atoms outstanding there is room for one more. */
  lemma RoomForOne(out: Allocs, n: nat)
    requires Singles(out) && |out| < n
    ensures !NoRoom(Used(out), n, 0)
  {
    hide Used, Clear;
    var atoms := AllAtoms(n);
    assert |out.Keys| == |out|;
    if forall a :: a in atoms ==> a in out {
      SubsetSize(atoms, out.Keys);
    }
    var a :| a in atoms && a !in out;
    AtomClear(out, n, a);
  }

  lemma SubsetSize(a: set<int>, b: set<int>)
    requires a <= b
    ensures |a| <= |b|
  {
    assert b == a + (b - a);
    UnionSize(a, b - a);
  }

  /** n single atoms fill the pool. */
  lemma AllTaken(out: Allocs, n: nat)
    requires |out| == n && forall i :: i in out ==> 0 <= i < n
    ensures forall i :: 0 <= i < n ==> i in out
  {
    var atoms := AllAtoms(n);
    forall a | 0 <= a < n ensures a in out {
      assert |out.Keys| == |out|;
      assert forall x :: x in out.Keys + {a} ==> x in atoms;
      SubsetSize(out.Keys + {a}, atoms);
      assert a !in out ==> |out.Keys + {a}| == n + 1;
    }
  }

  /** A larger range of four atoms starts at an even atom and holds the one behind it. */
  lemma PairStart(x: int, k: nat)
    requires k >= 1 && 0 <= x && Aligned(x, k) && x + Pow2(k) <= 4
    ensures (x == 0 || x == 2) && x + 1 in Range(x, k)
  {
    AlignedDown(x, k, 1);
    Pow2Mono(1, k);
    assert Pow2(1) == 2;
    assert InRange(x + 1, x, k);
  }

  /** With atoms 1 and 3 of four in use no larger range is clear. */
  lemma NoPairClear(out: Allocs, x: int, k: nat)
    requires Singles(out) && {1, 3} <= out.Keys && k >= 1
    ensures !Clear(Used(out), 4, x, k)
  {
    hide Used, Range, Pow2, Aligned;
    SinglesUsed(out);
    if 0 <= x && Aligned(x, k) && x + Pow2(k) <= 4 {
      PairStart(x, k);
    }
  }

  /** The free blocks are then 0 and 2, one atom each. */
  lemma EvenAtomsFree(out: Allocs, x: int, k: nat)
    requires Singles(out) && out.Keys == {1, 3}
    ensures Maximal(Used(out), 4, x, k) <==> k == 0 && (x == 0 || x == 2)
  {
    hide Used, Clear, Parent;
    NoPairClear(out, Parent(x, k), k + 1);
    if k == 0 {
      AtomClear(out, 4, x);
    } else {
      NoPairClear(out, x, k);
    }
  }

  lemma DistinctAt(s: seq<int>, j: int, l: int)
    requires Distinct(s) && 0 <= j < l < |s|
    ensures s[j] != s[l]
  {
  }

  lemma FirstIn(s: seq<int>)
    ensures s != [] ==> s[0] in s
  {
  }

  /** A list of two blocks, 2 in front. */
  lemma TwoListed(s: seq<int>)
    requires Distinct(s) && s != [] && s[0] == 2 && forall x :: x in s <==> x == 0 || x == 2
    ensures s == [2, 0]
  {
    assert 0 in s;
    forall l | 1 <= l < |s| ensures s[l] == 0 {
      assert s[l] in s;
    }
    if |s| > 2 {
      DistinctAt(s, 1, 2);
    }
  }

  /** The lists of a pool of four atoms with 1 and 3 in use, once the block that holds atom 2 has come to the front. */
  lemma ListsThen(pool: Pool)
    requires pool.Valid() && pool.nBlock == 4 && Singles(pool.out) && pool.out.Keys == {1, 3} && InFront(pool.lists, 2)
    ensures |pool.lists| == LOGMAX + 1 && pool.lists[0] == [2, 0] && forall m :: 0 < m < |pool.lists| ==> pool.lists[m] == []
  {
    hide Maximal, Used, Threaded, Headers, AllocsOK;
    var lists := pool.lists;
    assert Canonical(lists, Used(pool.out), 4);
    forall m, x | 0 <= m < |lists| ensures x in lists[m] <==> m == 0 && (x == 0 || x == 2) {
      EvenAtomsFree(pool.out, x, m);
    }
    forall m | 0 < m < |lists| ensures lists[m] == [] {
      FirstIn(lists[m]);
    }
    var m :| 0 <= m < |lists| && lists[m] != [] && lists[m][0] <= 2 < lists[m][0] + Pow2(m);
    assert lists[0][0] in lists[0];
    ListDistinct(pool, 0);
    TwoListed(lists[0]);
  }

  lemma ListDistinct(pool: Pool, m: int)
    requires pool.Valid() && 0 <= m < |pool.lists|
    ensures Distinct(pool.lists[m])
  {
    assert Threaded(pool.zPool[..], pool.lists[m]);
  }

  /** Four atoms, all in use. */
  method FourTaken() returns (pool: Pool)
    ensures fresh(pool) && fresh(pool.zPool) && fresh(pool.aCtrl) && fresh(pool.aiFreelist)
    ensures pool.Valid() && pool.szAtom == 8 && pool.nBlock == 4 && Singles(pool.out) && pool.out.Keys == {0, 1, 2, 3}
  {
    hide Layout, Used, Clear, AllocsOK;
    pool := new Pool(8, 4);
    var i := 0;
    while i < 4
      invariant 0 <= i <= 4 && fresh(pool) && fresh(pool.zPool) && fresh(pool.aCtrl) && fresh(pool.aiFreelist)
      invariant pool.Valid() && pool.szAtom == 8 && pool.nBlock == 4 && Singles(pool.out) && |pool.out| == i
    {
      assert OrderFor(8, 8) == 0;
      RoomForOne(pool.out, 4);
      ghost var out0: Allocs := pool.out;
      pool.Facts(-1);
      var p := pool.Malloc(8);
      GrantedOne(pool, out0, p.value);
      i := i + 1;
    }
    pool.Facts(-1);
    FourKeys(pool.out);
  }

  lemma GrantedOne(pool: Pool, before: Allocs, p: int)
    requires pool.szAtom == 8 && AllocsOK(before, pool.nBlock) && Singles(before) && pool.Granted(before, pool.out, 8, p)
    ensures Singles(pool.out) && |pool.out| == |before| + 1
  {
    hide Used, Clear;
    assert OrderFor(8, 8) == 0;
    NewStart(before, pool.nBlock, p / 8, 0);
    assert pool.out.Keys == before.Keys + {p / 8};
  }

  lemma FourKeys(out: Allocs)
    requires AllocsOK(out, 4) && Singles(out) && |out| == 4
    ensures out.Keys == {0, 1, 2, 3}
  {
    assert Pow2(0) == 1;
    forall i | i in out ensures 0 <= i < 4 {
      assert i + Pow2(out[i]) <= 4;
    }
    AllTaken(out, 4);
  }

  /** Four atoms are taken, atoms 0 and 2 given back: the next atom granted is 2, although 0 is free. */
  method LowestMissedRun() returns (pool: Pool, p: Option<int>)
    ensures pool.Valid() && p == Some(2 * pool.szAtom) && Maximal(Used(pool.out), pool.nBlock, 0, 0)
  {
    hide Layout, Used, Clear, AllocsOK, Maximal, SameData, InFront, Rejoined, Carved, Charged, Requested, Pool.CountersAfter, Pool.FromSmallest;
    pool := FourTaken();
    pool.Free(Some(0));
    pool.Free(Some(16));
    assert pool.out.Keys == {1, 3};
    ListsThen(pool);
    LowestMissed();
    RoomForOne(pool.out, 4);
    assert OrderFor(8, 8) == 0;
    ghost var out0: Allocs := pool.out;
    p := pool.Malloc(8);
    assert p.value / 8 == 2;
    ZeroStillFree(pool.out);
  }

  lemma ZeroStillFree(out: Allocs)
    requires Singles(out) && out.Keys == {1, 2, 3}
    ensures Maximal(Used(out), 4, 0, 0)
  {
    hide Used, Clear, Parent;
    AtomClear(out, 4, 0);
    NoPairClear(out, Parent(0, 0), 1);
  }
}
