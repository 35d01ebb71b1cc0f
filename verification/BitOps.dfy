/** The word operations of bitops.c on a 64-bit unsigned long. */
module BitOps {
  import opened Powers
  import opened Bits
  import opened Logs
  import opened IlogForms

  /** afls: the position of the last digit that is set, counting from 1. */
  method Afls(val: nat) returns (r: nat)
    requires val < TWO64
    ensures r == Ilog(val) <= 64
  {
    r := Ilog64Debruijn(val);
    Widths();
    IlogAtMost(val, 64);
  }

  // ----- The first digit that is set -----

  /** The position of the first digit that is set, counting from 1, and 0 if there is none. */
  function Ffs(v: nat): (r: nat) {
    if v == 0 then 0 else if v % 2 == 1 then 1 else 1 + Ffs(v / 2)
  }

  /** Ffs names a digit that is set, and none below it is. */
  lemma {:induction false} FfsFirst(v: nat, i: nat)
    requires v > 0
    ensures Ffs(v) >= 1 && (i + 1 == Ffs(v) ==> Bit(v, i)) && (i + 1 < Ffs(v) ==> !Bit(v, i))
    decreases v
  {
    if v % 2 == 0 && i > 0 {
      FfsFirst(v / 2, i - 1);
    }
  }

  /** When the n lowest digits are clear they can be dropped and counted; when they are not, the search is among them. */
  lemma {:induction false} FfsRound(v: nat, n: nat)
    requires v > 0
    ensures v % Pow2(n) == 0 ==> Ffs(v) == n + Ffs(Shr(v, n)) && Shr(v, n) > 0
    ensures v % Pow2(n) != 0 ==> Ffs(v) <= n
    decreases n
  {
    if n > 0 {
      DoubleMod(v, Pow2(n - 1));
      if v % 2 == 0 {
        FfsRound(v / 2, n - 1);
      }
    }
  }

  /** One test of affsl. */
  method FfsStage(val: nat, r: nat, n: nat) returns (val1: nat, r1: nat)
    requires val > 0 && Ffs(val) <= n + n
    ensures val1 > 0 && Ffs(val1) <= n && r1 + Ffs(val1) == r + Ffs(val)
  {
    FfsRound(val, n);
    AndOnes(val, n);
    if And(val, Pow2(n) - 1) == 0 {
      val1, r1 := Shr(val, n), r + n;
    } else {
      val1, r1 := val, r;
    }
  }

  /** affsl in its portable form. */
  method Affsl(val0: nat) returns (r: nat)
    requires val0 < TWO64
    ensures r == Ffs(val0)
  {
    if val0 == 0 {
      return 0;
    }
    Widths();
    FfsSmall(val0, 64);
    var val;
    r := 1;
    val, r := FfsStage(val0, r, 32);
    val, r := FfsStage(val, r, 16);
    val, r := FfsStage(val, r, 8);
    val, r := FfsStage(val, r, 4);
    val, r := FfsStage(val, r, 2);
    val, r := FfsStage(val, r, 1);
  }

  lemma {:induction false} FfsSmall(v: nat, k: nat)
    requires v < Pow2(k)
    ensures Ffs(v) <= k
    decreases k
  {
    if v > 0 {
      FfsSmall(v / 2, k - 1);
    }
  }

  // ----- Counting digits -----

  function Popcount(v: nat): (r: nat) {
    if v == 0 then 0 else v % 2 + Popcount(v / 2)
  }

  lemma {:induction false} PopcountSmall(v: nat, k: nat)
    requires v < Pow2(k)
    ensures Popcount(v) <= k
    decreases k
  {
    if v > 0 {
      PopcountSmall(v / 2, k - 1);
    }
  }

  lemma {:induction false} PopcountSplit(lo: nat, hi: nat, k: nat)
    requires lo < Pow2(k)
    ensures hi * Pow2(k) >= 0 && Popcount(lo + hi * Pow2(k)) == Popcount(lo) + Popcount(hi)
    decreases k
  {
    MulMono(0, hi, Pow2(k));
    if k > 0 {
      PopcountSplit(lo / 2, hi, k - 1);
      HalfJoined(lo, hi, k);
      var v := lo + hi * Pow2(k);
      assert Popcount(v) == v % 2 + Popcount(v / 2);
      assert Popcount(lo) == lo % 2 + Popcount(lo / 2);
    }
  }

  /** Halving a number whose digits from k up are those of y. */
  lemma HalfJoined(x: nat, y: nat, k: nat)
    requires k > 0
    ensures 0 <= y * Pow2(k) && 0 <= y * Pow2(k - 1)
    ensures (x + y * Pow2(k)) / 2 == x / 2 + y * Pow2(k - 1) && (x + y * Pow2(k)) % 2 == x % 2
  {
    MulMono(0, y, Pow2(k));
    MulMono(0, y, Pow2(k - 1));
    DoubledProduct(y, k - 1);
  }

  /** Bitwise and works on a low part of k digits and the rest separately. */
  lemma {:induction false} AndSplit(x: nat, y: nat, m: nat, z: nat, k: nat)
    requires x < Pow2(k) && m < Pow2(k)
    ensures 0 <= y * Pow2(k) && 0 <= z * Pow2(k)
    ensures And(x + y * Pow2(k), m + z * Pow2(k)) == And(x, m) + And(y, z) * Pow2(k)
    decreases k
  {
    hide And;
    MulMono(0, y, Pow2(k));
    MulMono(0, z, Pow2(k));
    if k == 0 {
      AndZero(x);
    } else {
      AndSplit(x / 2, y, m / 2, z, k - 1);
      HalfJoined(x, y, k);
      HalfJoined(m, z, k);
      DoubledProduct(And(y, z), k - 1);
      AndStep(x + y * Pow2(k), m + z * Pow2(k));
      AndStep(x, m);
    }
  }

  lemma AndStep(a: nat, b: nat)
    ensures And(a, b) == (if a % 2 == 1 && b % 2 == 1 then 1 else 0) + 2 * And(a / 2, b / 2)
  {
    if a == 0 || b == 0 {
      AndZero(a / 2);
      AndZero(b / 2);
    }
  }

  // ----- apopcount: fields that each hold the number of digits set in them -----

  /** n fields of w digits; each holds the number of digits v has set in that field. */
  function Fields(v: nat, w: nat, n: nat): (r: nat)
    decreases n
  {
    if n == 0 then 0 else Prepend(Popcount(Low(v, w)), w, Fields(Shr(v, w), w, n - 1))
  }

  /** The w lowest digits. */
  function Low(v: nat, w: nat): (r: nat)
    ensures r < Pow2(w)
  {
    v % Pow2(w)
  }

  /** The digits of lo followed, from digit w up, by those of hi. */
  function Prepend(lo: nat, w: nat, hi: nat): (r: nat)
    ensures r == lo + hi * Pow2(w)
  {
    MulMono(0, hi, Pow2(w));
    lo + hi * Pow2(w)
  }

  /** The mask that keeps every other field of w digits. */
  function EveryOther(w: nat, n: nat): (r: nat) {
    if n == 0 then 0 else Prepend(Pow2(w) - 1, w + w, EveryOther(w, n - 1))
  }

  lemma LowShr(v: nat, w: nat)
    ensures v == Prepend(Low(v, w), w, Shr(v, w))
  {
    ShrDiv(v, w);
    DivMod(v, Pow2(w));
  }

  lemma PrependUp(lo: nat, w: nat, hi: nat)
    requires lo < Pow2(w)
    ensures Shr(Prepend(lo, w, hi), w) == hi && Low(Prepend(lo, w, hi), w) == lo
    ensures And(Prepend(lo, w, hi), Pow2(w) - 1) == lo
  {
    ShrDiv(Prepend(lo, w, hi), w);
    AndOnes(Prepend(lo, w, hi), w);
    DivModUnique(Prepend(lo, w, hi), Pow2(w), hi, lo);
  }

  lemma {:induction false} FieldsOne(v: nat, n: nat)
    requires v < Pow2(n)
    ensures Fields(v, 1, n) == v
    decreases n
  {
    if n > 0 {
      assert Pow2(1) == 2;
      FieldsOne(v / 2, n - 1);
      assert Shr(v, 1) == v / 2;
      assert Popcount(v % 2) == v % 2 by {
        assert Popcount(0) == 0;
      }
    }
  }

  lemma Regroup(u: int, x: int, y: int, p: int, q: int)
    ensures u + (x + y * p) * q == (u + x * q) + y * (p * q)
  {
  }

  lemma PrependAssoc(lo: nat, mid: nat, w: nat, hi: nat)
    requires lo < Pow2(w) && mid < Pow2(w)
    ensures Prepend(lo, w, Prepend(mid, w, hi)) == Prepend(Prepend(lo, w, mid), w + w, hi)
    ensures Prepend(lo, w, mid) < Pow2(w + w)
  {
    hide Pow2;
    Pow2Add(w, w);
    Regroup(lo, mid, hi, Pow2(w), Pow2(w));
    MulMono(mid + 1, Pow2(w), Pow2(w));
  }

  lemma PrependAnd(lo: nat, hi: nat, m: nat, z: nat, w: nat)
    requires lo < Pow2(w) && m < Pow2(w)
    ensures And(Prepend(lo, w, hi), Prepend(m, w, z)) == Prepend(And(lo, m), w, And(hi, z))
  {
    AndSplit(lo, hi, m, z, w);
  }

  lemma PrependSum(a: nat, b: nat, w: nat, x: nat, y: nat)
    ensures Prepend(a, w, x) + Prepend(b, w, y) == Prepend(a + b, w, x + y)
  {
    assert (x + y) * Pow2(w) == x * Pow2(w) + y * Pow2(w);
  }

  /** The counts of two neighbouring fields add up to the count of the field they form. */
  lemma PopcountPair(v: nat, w: nat)
    ensures Popcount(Low(v, w + w)) == Popcount(Low(v, w)) + Popcount(Low(Shr(v, w), w))
    ensures Shr(Shr(v, w), w) == Shr(v, w + w)
  {
    hide Pow2, Shr, Low, Popcount, Prepend;
    var lo, mid, hi := Low(v, w), Low(Shr(v, w), w), Shr(Shr(v, w), w);
    LowShr(v, w);
    LowShr(Shr(v, w), w);
    PrependAssoc(lo, mid, w, hi);
    PrependUp(Prepend(lo, w, mid), w + w, hi);
    PopcountSplit(lo, mid, w);
  }

  lemma FieldCount(v: nat, w: nat)
    ensures Popcount(Low(v, w)) < Pow2(w)
  {
    PopcountSmall(Low(v, w), w);
    Pow2Exceeds(w);
  }

  /** The lowest pair of fields: masking keeps the first count, shifting and masking the second. */
  lemma LowestPair(lo: nat, mid: nat, hi: nat, z: nat, w: nat)
    requires lo < Pow2(w) && mid < Pow2(w)
    ensures And(Prepend(lo, w, Prepend(mid, w, hi)), Prepend(Pow2(w) - 1, w + w, z)) == Prepend(lo, w + w, And(hi, z))
    ensures And(Shr(Prepend(lo, w, Prepend(mid, w, hi)), w), Prepend(Pow2(w) - 1, w + w, z))
      == Prepend(mid, w + w, And(Shr(hi, w), z))
  {
    hide And, Shr, Low, Pow2, Prepend;
    var p := Pow2(w);
    Pow2Mono(w, w + w);
    PrependAssoc(lo, mid, w, hi);
    PrependAnd(Prepend(lo, w, mid), hi, p - 1, z, w + w);
    PrependUp(lo, w, mid);
    PrependUp(lo, w, Prepend(mid, w, hi));
    var low, high := Low(hi, w), Shr(hi, w);
    LowShr(hi, w);
    PrependUp(low, w, high);
    PrependAssoc(mid, low, w, high);
    PrependAnd(Prepend(mid, w, low), high, p - 1, z, w + w);
    PrependUp(mid, w, low);
  }

  /** One line of apopcount: v = (v & mask) + ((v >> w) & mask) doubles the width of the fields. */
  lemma {:induction false} PairFields(v: nat, w: nat, n: nat)
    ensures And(Fields(v, w, n + n), EveryOther(w, n)) + And(Shr(Fields(v, w, n + n), w), EveryOther(w, n))
      == Fields(v, w + w, n)
    decreases n
  {
    hide And, Shr, Popcount, Prepend, Pow2, Low;
    if n == 0 {
      AndZero(Fields(v, w, 0));
      AndZero(Shr(Fields(v, w, 0), w));
    } else {
      PopcountPair(v, w);
      FieldCount(v, w);
      FieldCount(Shr(v, w), w);
      PairFields(Shr(v, w + w), w, n - 1);
      var lo, mid := Popcount(Low(v, w)), Popcount(Low(Shr(v, w), w));
      var hi := Fields(Shr(v, w + w), w, n - 1 + n - 1);
      var z := EveryOther(w, n - 1);
      TwoFields(v, w, n);
      LowestPair(lo, mid, hi, z, w);
      PrependSum(lo, mid, w + w, And(hi, z), And(Shr(hi, w), z));
    }
  }

  lemma TwoFields(v: nat, w: nat, n: nat)
    requires n > 0
    ensures Fields(v, w, n + n) == Prepend(Popcount(Low(v, w)), w,
      Prepend(Popcount(Low(Shr(v, w), w)), w, Fields(Shr(v, w + w), w, n - 1 + n - 1)))
  {
    hide Shr, Popcount, Prepend, Pow2, Low;
    PopcountPair(v, w);
  }

  lemma {:induction false} EveryOtherSplit(w: nat, a: nat, b: nat)
    ensures EveryOther(w, a + b) == Prepend(EveryOther(w, a), (w + w) * a, EveryOther(w, b))
    decreases a
  {
    if a > 0 {
      EveryOtherSplit(w, a - 1, b);
      var x, y := EveryOther(w, a - 1), EveryOther(w, b);
      Pow2Add((w + w) * (a - 1), w + w);
      assert (w + w) * a == (w + w) * (a - 1) + (w + w);
      Regroup(Pow2(w) - 1, x, y, Pow2((w + w) * (a - 1)), Pow2(w + w));
    }
  }

  lemma OneMask(w: nat)
    ensures EveryOther(w, 1) == Pow2(w) - 1
  {
    assert EveryOther(w, 0) == 0;
  }

  /** The six masks of apopcount. */
  lemma PopcountMasks()
    ensures EveryOther(1, 32) == 0x5555_5555_5555_5555 && EveryOther(2, 16) == 0x3333_3333_3333_3333
    ensures EveryOther(4, 8) == 0x0F0F_0F0F_0F0F_0F0F && EveryOther(8, 4) == 0x00FF_00FF_00FF_00FF
    ensures EveryOther(16, 2) == 0x0000_FFFF_0000_FFFF && EveryOther(32, 1) == 0x0000_0000_FFFF_FFFF
  {
    hide EveryOther, Pow2;
    Widths();
    SmallPowers();
    OneMask(1);
    EveryOtherSplit(1, 1, 1);
    EveryOtherSplit(1, 2, 2);
    EveryOtherSplit(1, 4, 4);
    EveryOtherSplit(1, 8, 8);
    EveryOtherSplit(1, 16, 16);
    OneMask(2);
    EveryOtherSplit(2, 1, 1);
    EveryOtherSplit(2, 2, 2);
    EveryOtherSplit(2, 4, 4);
    EveryOtherSplit(2, 8, 8);
    OneMask(4);
    EveryOtherSplit(4, 1, 1);
    EveryOtherSplit(4, 2, 2);
    EveryOtherSplit(4, 4, 4);
    OneMask(8);
    EveryOtherSplit(8, 1, 1);
    EveryOtherSplit(8, 2, 2);
    OneMask(16);
    EveryOtherSplit(16, 1, 1);
    OneMask(32);
  }

  lemma SmallPowers()
    ensures Pow2(1) == 2 && Pow2(2) == 4
  {
  }

  /** apopcount in its portable form for a 64-bit long. */
  method Apopcount(val: nat) returns (v: nat)
    requires val < TWO64
    ensures v == Popcount(val)
  {
    hide *;
    Widths();
    PopcountMasks();
    FieldsOne(val, 64);
    v := val;
    PairFields(val, 1, 32);
    v := And(v, 0x5555_5555_5555_5555) + And(Shr(v, 1), 0x5555_5555_5555_5555);
    PairFields(val, 2, 16);
    v := And(v, 0x3333_3333_3333_3333) + And(Shr(v, 2), 0x3333_3333_3333_3333);
    PairFields(val, 4, 8);
    v := And(v, 0x0F0F_0F0F_0F0F_0F0F) + And(Shr(v, 4), 0x0F0F_0F0F_0F0F_0F0F);
    PairFields(val, 8, 4);
    v := And(v, 0x00FF_00FF_00FF_00FF) + And(Shr(v, 8), 0x00FF_00FF_00FF_00FF);
    PairFields(val, 16, 2);
    v := And(v, 0x0000_FFFF_0000_FFFF) + And(Shr(v, 16), 0x0000_FFFF_0000_FFFF);
    PairFields(val, 32, 1);
    v := And(v, 0x0000_0000_FFFF_FFFF) + And(Shr(v, 32), 0x0000_0000_FFFF_FFFF);
    OneField(val, 64);
  }

  lemma OneField(v: nat, w: nat)
    requires v < Pow2(w)
    ensures Fields(v, w, 1) == Popcount(v)
  {
    DivModUnique(v, Pow2(w), 0, v);
    assert Fields(Shr(v, w), w, 0) == 0;
  }
}
