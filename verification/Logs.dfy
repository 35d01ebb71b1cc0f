/** The integer logarithm that afls and the ilog family compute: the number of binary digits. */
module Logs {
  import opened Powers
  import opened Bits

  function Ilog(v: nat): (r: nat) {
    if v == 0 then 0 else 1 + Ilog(v / 2)
  }

  /** Ilog is floor(log2(v)) + 1 for positive v, and 0 for 0. */
  lemma {:induction false} IlogBounds(v: nat)
    ensures v > 0 ==> Ilog(v) > 0 && Pow2(Ilog(v) - 1) <= v
    ensures v < Pow2(Ilog(v))
  {
    if v > 1 {
      IlogBounds(v / 2);
    }
  }

  lemma {:induction false} IlogAtMost(v: nat, k: nat)
    ensures Ilog(v) <= k <==> v < Pow2(k)
  {
    if v > 0 && k > 0 {
      IlogAtMost(v / 2, k - 1);
    }
  }

  /** v >> k. */
  function Shr(v: nat, k: nat): nat
    decreases k
  {
    if k == 0 then v else Shr(v / 2, k - 1)
  }

  lemma {:induction false} IlogShift(v: nat, k: nat)
    ensures Ilog(Shr(v, k)) == if Ilog(v) <= k then 0 else Ilog(v) - k
    decreases k
  {
    if k > 0 {
      IlogShift(v / 2, k - 1);
    }
  }

  /** v << k. */
  function Shl(v: nat, k: nat): (r: nat)
    ensures r == v * Pow2(k)
  {
    MulMono(0, v, Pow2(k));
    v * Pow2(k)
  }

  lemma ShrFiveSeven(v: nat)
    ensures Shr(v, 5) == v / 32 && Shr(v, 7) == v / 128
  {
    assert Shr(v, 5) == Shr(v / 4, 3);
    assert Shr(v / 4, 3) == Shr(v / 16, 1);
    assert Shr(v, 7) == Shr(v / 4, 5);
    assert Shr(v / 4, 5) == Shr(v / 16, 3);
    assert Shr(v / 16, 3) == Shr(v / 64, 1);
  }

  lemma {:induction false} IlogMono(v: nat, w: nat)
    requires v <= w
    ensures Ilog(v) <= Ilog(w)
  {
    if v > 0 {
      IlogMono(v / 2, w / 2);
    }
  }

  lemma {:induction false} BitShr(v: nat, k: nat, i: nat)
    ensures Bit(Shr(v, k), i) <==> Bit(v, i + k)
    decreases k
  {
    if k > 0 {
      BitShr(v / 2, k - 1, i);
    }
  }

  /** The digits at and above position Ilog(v) are 0, and the one below it is 1. */
  lemma {:induction false} BitIlog(v: nat, i: nat)
    ensures i >= Ilog(v) ==> !Bit(v, i)
    ensures v > 0 && i == Ilog(v) - 1 ==> Bit(v, i)
  {
    if v == 0 {
      BitZero(i);
    } else if i > 0 {
      BitIlog(v / 2, i - 1);
    }
  }

  lemma {:induction false} ShrDiv(v: nat, k: nat)
    ensures Shr(v, k) == v / Pow2(k)
    decreases k
  {
    if k > 0 {
      ShrDiv(v / 2, k - 1);
      HalfDiv(v, Pow2(k - 1));
    }
  }

  lemma HalfDiv(v: nat, p: int)
    requires p > 0
    ensures v / 2 / p == v / (2 * p)
  {
    DivMod(v, 2 * p);
    var q, r := v / (2 * p), v % (2 * p);
    assert q * (2 * p) == 2 * (q * p);
    assert v / 2 == q * p + r / 2;
    DivModUnique(v / 2, p, q, r / 2);
  }

  lemma {:induction false} IlogPow2(k: nat)
    ensures Ilog(Pow2(k)) == k + 1
  {
    if k > 0 {
      IlogPow2(k - 1);
    }
  }
}
