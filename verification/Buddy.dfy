/**
  Binary-buddy layouts as a function of the set of atoms in use.

  A pool has n atoms.  A range is named by its start i and its order k and holds the
  atoms [i, i + 2^k).  The free blocks of a buddy allocator turn out to be exactly the
  ranges that are Maximal for the used atoms; this module proves how that set of
  ranges changes when one aligned range is taken or given back.
 */
module Buddy {
  import opened Powers

  ghost predicate InRange(a: int, i: int, k: nat) {
    i <= a < i + Pow2(k)
  }

  ghost function Range(i: int, k: nat): set<int> {
    set a | i <= a < i + Pow2(k) && InRange(a, i, k)
  }

  lemma RangeStart(i: int, k: nat)
    ensures i in Range(i, k)
  {
    assert InRange(i, i, k);
  }

  lemma SingleAtom(a: int)
    ensures Range(a, 0) == {a} && Aligned(a, 0)
  {
    assert InRange(a, a, 0);
    assert forall x :: x in Range(a, 0) ==> x == a;
    MulMod(a, 1);
  }

  /** Two ranges without a common atom. */
  predicate Apart(i: int, k: nat, j: int, m: nat) {
    i + Pow2(k) <= j || j + Pow2(m) <= i
  }

  /** An aligned range of the pool without a used atom. */
  ghost predicate Clear(used: set<int>, n: nat, i: int, k: nat) {
    0 <= i && Aligned(i, k) && i + Pow2(k) <= n && Range(i, k) !! used
  }

  /** The start of the range of order k + 1 that contains the range (i, k). */
  function Parent(i: int, k: nat): int {
    if Aligned(i, k + 1) then i else i - Pow2(k)
  }

  /** A clear range whose parent is not clear. */
  ghost predicate Maximal(used: set<int>, n: nat, i: int, k: nat) {
    Clear(used, n, i, k) && !Clear(used, n, Parent(i, k), k + 1)
  }

  lemma ParentAligned(i: int, k: nat)
    requires Aligned(i, k)
    ensures Aligned(Parent(i, k), k + 1)
    ensures Parent(i, k) <= i && i + Pow2(k) <= Parent(i, k) + Pow2(k + 1)
  {
    HalfBit(i, k);
  }

  lemma ParentNonNegative(i: int, k: nat)
    requires Aligned(i, k) && 0 <= i
    ensures 0 <= Parent(i, k)
  {
    ParentAligned(i, k);
    AlignedZero(k + 1);
    Nested(Parent(i, k), k + 1, 0, k + 1);
  }

  /** A range strictly inside an aligned range has its parent inside it too. */
  lemma ParentWithin(j: int, m: nat, b: int, l: nat)
    requires Aligned(j, m) && Aligned(b, l) && m < l
    requires b <= j && j + Pow2(m) <= b + Pow2(l)
    ensures b <= Parent(j, m) && Parent(j, m) + Pow2(m + 1) <= b + Pow2(l)
  {
    ParentAligned(j, m);
    Nested(Parent(j, m), m + 1, b, l);
  }

  lemma ClearWithin(used: set<int>, n: nat, j: int, m: nat, b: int, l: nat)
    requires Aligned(j, m) && b <= j && j + Pow2(m) <= b + Pow2(l)
    ensures Clear(used, n, b, l) ==> Clear(used, n, j, m)
  {
    assert Range(j, m) <= Range(b, l);
  }

  /** A clear range that strictly contains (b, l) makes the parent of (b, l) clear. */
  lemma ClearAbove(used: set<int>, n: nat, b: int, l: nat, j: int, m: nat)
    requires Aligned(b, l) && Aligned(j, m)
    ensures l < m && !Apart(b, l, j, m) && Clear(used, n, j, m) ==> Clear(used, n, Parent(b, l), l + 1)
  {
    if l < m && !Apart(b, l, j, m) {
      Nested(b, l, j, m);
      ParentWithin(b, l, j, m);
      ParentAligned(b, l);
      ClearWithin(used, n, Parent(b, l), l + 1, j, m);
    }
  }

  lemma ClearApart(used: set<int>, n: nat, b: int, l: nat, j: int, m: nat)
    requires Apart(j, m, b, l)
    ensures Clear(used, n, j, m) <==> Clear(used - Range(b, l), n, j, m)
  {
    assert Range(j, m) !! Range(b, l);
  }

  lemma ClearMissesUsed(used: set<int>, n: nat, b: int, l: nat, j: int, m: nat)
    requires Clear(used, n, j, m) && Range(b, l) <= used
    ensures Apart(j, m, b, l)
  {
    var a := if b <= j then j else b;
    assert a in Range(j, m) || a in Range(b, l);
    if !Apart(j, m, b, l) {
      assert InRange(a, j, m) && InRange(a, b, l);
    }
  }

  /**
    Giving back the range (b, l) makes it one new free block and leaves every other
    free block as it was, provided the parent of (b, l) does not become clear.
   */
  lemma Release(used: set<int>, n: nat, b: int, l: nat, j: int, m: nat)
    requires 0 <= b && Aligned(b, l) && b + Pow2(l) <= n && Range(b, l) <= used
    requires !Clear(used - Range(b, l), n, Parent(b, l), l + 1)
    ensures Maximal(used - Range(b, l), n, j, m) <==> Maximal(used, n, j, m) || (j == b && m == l)
    ensures !Maximal(used, n, b, l)
  {
    assert Clear(used - Range(b, l), n, b, l);
    assert !Clear(used, n, b, l) by {
      assert InRange(b, b, l) && b in Range(b, l) && b in used;
    }
    if Maximal(used, n, j, m) {
      ReleaseKeeps(used, n, b, l, j, m);
    } else if Maximal(used - Range(b, l), n, j, m) {
      ReleaseOnly(used, n, b, l, j, m);
    }
  }

  lemma ReleaseOnly(used: set<int>, n: nat, b: int, l: nat, j: int, m: nat)
    requires 0 <= b && Aligned(b, l) && b + Pow2(l) <= n && Range(b, l) <= used
    requires !Clear(used - Range(b, l), n, Parent(b, l), l + 1)
    requires Maximal(used - Range(b, l), n, j, m)
    ensures Maximal(used, n, j, m) || (j == b && m == l)
  {
    var rest := used - Range(b, l);
    ClearAbove(rest, n, b, l, j, m);
    ClearAbove(rest, n, j, m, b, l);
    assert Clear(rest, n, b, l);
    if m == l {
      Nested(j, m, b, l);
    }
    if !(j == b && m == l) {
      ClearApart(used, n, b, l, j, m);
    }
  }

  lemma ReleaseKeeps(used: set<int>, n: nat, b: int, l: nat, j: int, m: nat)
    requires 0 <= b && Aligned(b, l) && b + Pow2(l) <= n && Range(b, l) <= used
    requires !Clear(used - Range(b, l), n, Parent(b, l), l + 1)
    requires Maximal(used, n, j, m)
    ensures Maximal(used - Range(b, l), n, j, m)
  {
    var rest := used - Range(b, l);
    var p := Parent(j, m);
    ParentAligned(j, m);
    ClearMissesUsed(used, n, b, l, j, m);
    if m + 1 <= l {
      Nested(p, m + 1, b, l);
    }
    ClearAbove(rest, n, b, l, p, m + 1);
    if Apart(p, m + 1, b, l) {
      ClearApart(used, n, b, l, p, m + 1);
    }
  }

  /** Every clear range lies in exactly one free block; this finds it. */
  lemma {:induction false} Ancestor(used: set<int>, n: nat, i: int, k: nat) returns (j: int, m: nat)
    requires Clear(used, n, i, k)
    ensures k <= m && Maximal(used, n, j, m)
    ensures j <= i && i + Pow2(k) <= j + Pow2(m)
    decreases n - Pow2(k)
  {
    ParentAligned(i, k);
    ParentNonNegative(i, k);
    if Clear(used, n, Parent(i, k), k + 1) {
      j, m := Ancestor(used, n, Parent(i, k), k + 1);
    } else {
      j, m := i, k;
    }
  }

  lemma MaximalUnique(used: set<int>, n: nat, i: int, k: nat, j: int, m: nat)
    requires Maximal(used, n, i, k) && Maximal(used, n, j, m)
    requires !Apart(i, k, j, m)
    ensures i == j && k == m
  {
    ClearAbove(used, n, i, k, j, m);
    ClearAbove(used, n, j, m, i, k);
    Nested(i, k, j, m);
  }

  // ----- Outstanding allocations -----

  /** The outstanding allocations: start atom to order. */
  type Allocs = map<int, nat>

  ghost function Used(out: Allocs): set<int> {
    set i, a | i in out && a in Range(i, out[i]) :: a
  }

  ghost predicate Disjoint(out: Allocs) {
    forall i, j :: i in out && j in out && i != j ==> Range(i, out[i]) !! Range(j, out[j])
  }

  ghost predicate InPool(out: Allocs, n: nat) {
    forall i :: i in out ==> 0 <= i && Aligned(i, out[i]) && i + Pow2(out[i]) <= n
  }

  ghost predicate AllocsOK(out: Allocs, n: nat) {
    InPool(out, n) && Disjoint(out)
  }

  lemma UsedAdd(out: Allocs, n: nat, i: int, k: nat)
    requires AllocsOK(out, n) && Clear(Used(out), n, i, k)
    ensures i !in out && AllocsOK(out[i := k], n)
    ensures Used(out[i := k]) == Used(out) + Range(i, k)
  {
    assert i in Range(i, k);
    assert i in out ==> i in Range(i, out[i]);
    forall j | j in out ensures Range(j, out[j]) <= Used(out) {
    }
    var o := out[i := k];
    forall x, y | x in o && y in o && x != y ensures Range(x, o[x]) !! Range(y, o[y]) {
    }
    UsedUpdate(out, i, k);
  }

  lemma UsedUpdate(out: Allocs, i: int, k: nat)
    requires i !in out
    ensures Used(out[i := k]) == Used(out) + Range(i, k)
  {
    var o := out[i := k];
    forall a | a in Used(out) + Range(i, k) ensures a in Used(o) {
      if a in Range(i, k) {
        assert i in o && a in Range(i, o[i]);
      } else {
        var j :| j in out && a in Range(j, out[j]);
        assert j in o && a in Range(j, o[j]);
      }
    }
  }

  lemma UsedRemove(out: Allocs, n: nat, i: int)
    requires AllocsOK(out, n) && i in out
    ensures AllocsOK(out - {i}, n)
    ensures Used(out - {i}) == Used(out) - Range(i, out[i])
    ensures Range(i, out[i]) <= Used(out)
  {
    var rest := out - {i};
    assert rest[i := out[i]] == out;
    UsedUpdate(rest, i, out[i]);
    forall a | a in Used(rest) ensures a !in Range(i, out[i]) {
      var j :| j in rest && a in Range(j, rest[j]);
      assert Range(j, out[j]) !! Range(i, out[i]);
    }
  }

  /** Halving an allocation gives back its upper half. */
  lemma UsedHalve(out: Allocs, n: nat, i: int, l: nat)
    requires AllocsOK(out, n) && i in out && out[i] == l + 1
    ensures AllocsOK(out[i := l], n)
    ensures Used(out[i := l]) == Used(out) - Range(i + Pow2(l), l)
    ensures Range(i + Pow2(l), l) <= Used(out)
    ensures Aligned(i + Pow2(l), l) && Parent(i + Pow2(l), l) == i && i in Used(out[i := l])
  {
    var o := out[i := l];
    AlignedDown(i, l + 1, l);
    AlignedStep(i, l);
    HalfBit(i, l);
    assert Range(i, l + 1) == Range(i, l) + Range(i + Pow2(l), l);
    assert i in Range(i, l);
    UsedRemove(out, n, i);
    var rest := out - {i};
    assert Clear(Used(rest), n, i, l);
    UsedAdd(rest, n, i, l);
    assert rest[i := l] == o;
  }

  /** The upper half of an allocation, once given back, holds no allocation start. */
  lemma UpperHalf(out: Allocs, n: nat, i: int, l: nat)
    requires AllocsOK(out, n) && i in out && out[i] == l + 1
    requires Used(out[i := l]) == Used(out) - Range(i + Pow2(l), l)
    ensures 0 <= i && i + Pow2(l) + Pow2(l) <= n
    ensures i + Pow2(l) !in out[i := l]
    ensures i + Pow2(l) in Range(i, out[i])
  {
    var c := i + Pow2(l);
    assert InRange(c, c, l) && c in Range(c, l);
    StartUsed(out[i := l], c);
  }

  lemma StartUsed(out: Allocs, i: int)
    ensures i in out ==> i in Used(out)
  {
    assert i in out ==> i in Range(i, out[i]);
  }

  /** The other half of the parent of (b, l). */
  function Sibling(b: int, l: nat): int {
    if Aligned(b, l + 1) then b + Pow2(l) else b - Pow2(l)
  }

  lemma SiblingFacts(b: int, l: nat)
    requires Aligned(b, l)
    ensures Aligned(Sibling(b, l), l) && Parent(Sibling(b, l), l) == Parent(b, l)
    ensures Parent(b, l) == b || Parent(b, l) == Sibling(b, l)
    ensures Sibling(b, l) == b + Pow2(l) || Sibling(b, l) == b - Pow2(l)
  {
    AlignedStep(b, l);
    HalfBit(b, l);
    HalfBit(Sibling(b, l), l);
  }

  lemma SiblingRange(b: int, l: nat)
    requires Aligned(b, l)
    ensures Range(Parent(b, l), l + 1) == Range(b, l) + Range(Sibling(b, l), l)
  {
    HalfBit(b, l);
  }

  /** The allocations after the free sibling of (b, l) is merged into it. */
  ghost function Joined(out: Allocs, b: int, l: nat): Allocs {
    (out - {b})[Parent(b, l) := l + 1]
  }

  lemma UsedJoin(out: Allocs, n: nat, b: int, l: nat)
    requires AllocsOK(out, n) && b in out && out[b] == l
    requires Clear(Used(out), n, Sibling(b, l), l)
    ensures AllocsOK(Joined(out, b, l), n)
    ensures Used(Joined(out, b, l)) == Used(out) + Range(Sibling(b, l), l)
    ensures Joined(out, b, l) - {Parent(b, l)} == out - {b}
  {
    var p := Parent(b, l);
    SiblingFacts(b, l);
    SiblingRange(b, l);
    ParentAligned(b, l);
    UsedRemove(out, n, b);
    var rest := out - {b};
    assert Clear(Used(rest), n, p, l + 1);
    UsedAdd(rest, n, p, l + 1);
    assert Joined(out, b, l) - {p} == rest;
  }

  /**
    What lies at the start of the sibling of an allocated block (b, l): either the whole
    sibling is one free block, or an allocation of order at most l starts there, or a
    free block of a smaller order starts there.
   */
  lemma SiblingHead(out: Allocs, n: nat, b: int, l: nat) returns (m: nat)
    requires AllocsOK(out, n) && b in out && out[b] == l
    requires Sibling(b, l) + Pow2(l) <= n
    ensures Clear(Used(out), n, Sibling(b, l), l) <==> Maximal(Used(out), n, Sibling(b, l), l)
    ensures !Clear(Used(out), n, Sibling(b, l), l) ==>
              (Sibling(b, l) in out && out[Sibling(b, l)] == m && m <= l)
              || (m < l && Maximal(Used(out), n, Sibling(b, l), m))
  {
    var c := Sibling(b, l);
    var used := Used(out);
    m := 0;
    SiblingFacts(b, l);
    SiblingRange(b, l);
    ParentNonNegative(b, l);
    assert !Clear(used, n, Parent(b, l), l + 1) by {
      assert b in Range(b, out[b]) && b in used && b in Range(Parent(b, l), l + 1);
    }
    if !Clear(used, n, c, l) {
      if c in used {
        var o :| o in out && c in Range(o, out[o]);
        OwnerAtHead(out, n, b, l, o);
        m := out[o];
      } else {
        m := FreeAtHead(used, n, c, l);
      }
    }
  }

  /** An unused atom at the start of a range that is not clear starts a smaller free block. */
  lemma FreeAtHead(used: set<int>, n: nat, c: int, l: nat) returns (m: nat)
    requires 0 <= c && Aligned(c, l) && c + Pow2(l) <= n
    requires c !in used && !Clear(used, n, c, l)
    ensures m < l && Maximal(used, n, c, m)
  {
    SingleAtom(c);
    var j;
    j, m := Ancestor(used, n, c, 0);
    if m < l {
      Nested(j, m, c, l);
      AlignedDown(c, l, m);
      Nested(c, m, j, m);
    } else {
      Nested(c, l, j, m);
      ClearWithin(used, n, c, l, j, m);
    }
  }

  /** An allocation over the start of the sibling starts there: it cannot reach over b. */
  lemma OwnerAtHead(out: Allocs, n: nat, b: int, l: nat, o: int)
    requires AllocsOK(out, n) && b in out && out[b] == l && o in out
    requires 0 <= Sibling(b, l) && Sibling(b, l) in Range(o, out[o])
    ensures o == Sibling(b, l) && out[o] <= l
  {
    var c := Sibling(b, l);
    var m := out[o];
    SiblingFacts(b, l);
    assert InRange(b, b, l) && InRange(c, c, l) && InRange(c, o, m);
    assert o != b;
    assert b !in Range(o, m);
    assert !InRange(b, o, m);
    if m <= l {
      Nested(o, m, c, l);
      AlignedDown(c, l, m);
      Nested(c, m, o, m);
    } else {
      ParentAligned(b, l);
      Nested(Parent(b, l), l + 1, o, m);
      assert false;
    }
  }
}
