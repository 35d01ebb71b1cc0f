/** Bitwise operations on naturals, defined on the binary digits. */
module Bits {
  import opened Powers

  /** Bitwise and. */
  function And(a: nat, b: nat): (r: nat)
    decreases a
  {
    if a == 0 || b == 0 then 0
    else (if a % 2 == 1 && b % 2 == 1 then 1 else 0) + 2 * And(a / 2, b / 2)
  }

  lemma {:induction false} AndSelf(a: nat)
    ensures And(a, a) == a
  {
    if a > 0 {
      AndSelf(a / 2);
    }
  }

  /** Exactly one binary digit is set. */
  predicate OneBit(n: int) {
    n == 1 || (n > 1 && n % 2 == 0 && OneBit(n / 2))
  }

  lemma {:induction false} OneBitPow2(k: nat)
    ensures OneBit(Pow2(k))
  {
    if k > 0 {
      OneBitPow2(k - 1);
    }
  }

  lemma {:induction false} OneBitExponent(n: int) returns (k: nat)
    requires OneBit(n)
    ensures n == Pow2(k)
  {
    if n == 1 {
      k := 0;
    } else {
      k := OneBitExponent(n / 2);
      k := k + 1;
    }
  }

  /** The test n & (n - 1) recognises the powers of two among the positive numbers. */
  lemma {:induction false} AndPredecessor(n: nat)
    requires n > 0
    ensures And(n, n - 1) == 0 <==> OneBit(n)
  {
    if n > 1 {
      if n % 2 == 0 {
        AndPredecessor(n / 2);
        assert (n - 1) / 2 == n / 2 - 1;
      } else {
        assert (n - 1) / 2 == n / 2;
        AndSelf(n / 2);
      }
    }
  }

  /** a & ~b. */
  function AndNot(a: nat, b: nat): (r: nat)
    decreases a
  {
    if a == 0 then 0
    else (if a % 2 == 1 && b % 2 == 0 then 1 else 0) + 2 * AndNot(a / 2, b / 2)
  }

  /** Clearing the k lowest digits rounds down to a multiple of 2^k. */
  lemma {:induction false} AndNotMask(a: nat, k: nat)
    ensures AndNot(a, Pow2(k) - 1) == a / Pow2(k) * Pow2(k)
  {
    if a == 0 {
      MulMod(0, Pow2(k));
    } else if k == 0 {
      AndNotMask(a / 2, 0);
    } else {
      var p := Pow2(k - 1);
      AndNotMask(a / 2, k - 1);
      HalfQuotient(a, p);
      assert (2 * p - 1) / 2 == p - 1;
      assert (2 * p - 1) % 2 == 1;
      assert AndNot(a, 2 * p - 1) == 2 * AndNot(a / 2, p - 1);
    }
  }

  lemma HalfQuotient(a: nat, p: int)
    requires p > 0
    ensures 2 * (a / 2 / p * p) == a / (2 * p) * (2 * p)
  {
    DivMod(a, 2 * p);
    var q, r := a / (2 * p), a % (2 * p);
    assert q * (2 * p) == 2 * (q * p);
    assert a / 2 == q * p + r / 2;
    DivModUnique(a / 2, p, q, r / 2);
  }

  /** x & ~(align - 1). */
  function AlignDown(x: nat, align: nat): nat
    requires align >= 1
  {
    AndNot(x, align - 1)
  }

  /** align_up: (x + align - 1) & ~(align - 1). */
  function AlignUp(x: nat, align: nat): nat
    requires align >= 1
  {
    AndNot(x + align - 1, align - 1)
  }

  /** Two multiples of a that are less than a apart are equal. */
  lemma MultipleGap(u: nat, y: nat, a: int)
    requires a > 0 && u % a == 0 && y % a == 0 && y < u
    ensures y + a <= u
  {
    DivMod(u, a);
    DivMod(y, a);
    if u / a <= y / a {
      MulMono(u / a, y / a, a);
    } else {
      MulMono(y / a + 1, u / a, a);
      assert (y / a + 1) * a == y / a * a + a;
    }
  }

  lemma MultipleBelow(x: nat, y: nat, a: int)
    requires a > 0 && y % a == 0 && y <= x
    ensures y <= x / a * a
  {
    DivMod(x, a);
    MulMono(0, x / a, a);
    MulMod(x / a, a);
    if x / a * a < y {
      MultipleGap(y, x / a * a, a);
    }
  }

  /** For a power of two, AlignDown is the greatest multiple of align that is at most x. */
  lemma AlignDownGreatest(x: nat, align: nat, y: nat)
    requires OneBit(align)
    ensures AlignDown(x, align) % align == 0 && x - align < AlignDown(x, align) <= x
    ensures y <= x && y % align == 0 ==> y <= AlignDown(x, align)
  {
    var k := OneBitExponent(align);
    AndNotMask(x, k);
    DivMod(x, align);
    MulMod(x / align, align);
    if y <= x && y % align == 0 {
      MultipleBelow(x, y, align);
    }
  }

  /** For a power of two, align_up gives the least multiple of align that is at least x. */
  lemma AlignUpLeast(x: nat, align: nat, y: nat)
    requires OneBit(align)
    ensures AlignUp(x, align) % align == 0 && x <= AlignUp(x, align) < x + align
    ensures y >= x && y % align == 0 ==> y >= AlignUp(x, align)
  {
    AlignDownGreatest(x + align - 1, align, 0);
    var u := AlignUp(x, align);
    if y % align == 0 && x <= y < u {
      MultipleGap(u, y, align);
    }
  }

  /** Bitwise or. */
  function Or(a: nat, b: nat): (r: nat)
    decreases a + b
  {
    if a == 0 then b else if b == 0 then a
    else (if a % 2 == 1 || b % 2 == 1 then 1 else 0) + 2 * Or(a / 2, b / 2)
  }

  /** Digit i of v. */
  predicate Bit(v: nat, i: nat)
    decreases i
  {
    if i == 0 then v % 2 == 1 else Bit(v / 2, i - 1)
  }

  lemma {:induction false} BitZero(i: nat)
    ensures !Bit(0, i)
  {
    if i > 0 {
      BitZero(i - 1);
    }
  }

  lemma {:induction false} BitOr(a: nat, b: nat, i: nat)
    ensures Bit(Or(a, b), i) <==> Bit(a, i) || Bit(b, i)
    decreases i
  {
    BitZero(i);
    if i > 0 && a > 0 && b > 0 {
      BitOr(a / 2, b / 2, i - 1);
    }
  }

  /** Numbers with the same digits are equal. */
  lemma {:induction false} SameBits(a: nat, b: nat)
    requires forall i: nat :: Bit(a, i) <==> Bit(b, i)
    ensures a == b
    decreases a + b
  {
    assert Bit(a, 0) <==> Bit(b, 0);
    if a + b > 0 {
      forall i: nat ensures Bit(a / 2, i) <==> Bit(b / 2, i) {
        assert Bit(a, i + 1) <==> Bit(b, i + 1);
      }
      SameBits(a / 2, b / 2);
    }
  }

  lemma {:induction false} BitOnes(k: nat, i: nat)
    ensures Bit(Pow2(k) - 1, i) <==> i < k
    decreases k
  {
    if k == 0 {
      BitZero(i);
    } else if i > 0 {
      BitOnes(k - 1, i - 1);
      assert (2 * Pow2(k - 1) - 1) / 2 == Pow2(k - 1) - 1;
    }
  }

  /** The k lowest digits. */
  lemma {:induction false} AndOnes(a: nat, k: nat)
    ensures And(a, Pow2(k) - 1) == a % Pow2(k)
    decreases k
  {
    if a == 0 {
      MulMod(0, Pow2(k));
    } else if k > 0 {
      var p := Pow2(k - 1);
      AndOnes(a / 2, k - 1);
      assert (2 * p - 1) / 2 == p - 1 && (2 * p - 1) % 2 == 1;
      assert And(a, 2 * p - 1) == a % 2 + 2 * And(a / 2, p - 1);
      DoubleMod(a, p);
    }
  }

  lemma DoubleMod(a: nat, p: int)
    requires p > 0
    ensures a % (2 * p) == a % 2 + 2 * (a / 2 % p)
  {
    DivMod(a / 2, p);
    var q := a / 2 / p;
    assert a == q * (2 * p) + (a % 2 + 2 * (a / 2 % p)) by {
      assert q * (2 * p) == 2 * (q * p);
    }
    DivModUnique(a, 2 * p, q, a % 2 + 2 * (a / 2 % p));
  }

  lemma {:induction false} AndPow2(x: nat, k: nat)
    ensures And(x, Pow2(k)) == if Bit(x, k) then Pow2(k) else 0
    decreases k
  {
    if x == 0 {
      BitZero(k);
    } else if k > 0 {
      AndPow2(x / 2, k - 1);
    } else {
      AndZero(x / 2);
    }
  }

  lemma AndZero(x: nat)
    ensures And(x, 0) == 0 && And(0, x) == 0
  {
  }

  /** Without common digits, or is addition. */
  lemma {:induction false} OrSum(a: nat, b: nat)
    requires And(a, b) == 0
    ensures Or(a, b) == a + b
    decreases a + b
  {
    if a > 0 && b > 0 {
      OrSum(a / 2, b / 2);
    }
  }
}
