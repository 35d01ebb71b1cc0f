/**
  The three ways the ilog module computes the integer logarithm: branchless, by a
  de Bruijn product, and by the recursive compile-time macros.  All of them equal Ilog
  on every value of their width.
 */
module IlogForms {
  import opened Powers
  import opened Bits
  import opened Logs

  const TWO32: int := 0x1_0000_0000
  const TWO64: int := 0x1_0000_0000_0000_0000

  lemma Widths()
    ensures Mask(2, 2) == 0xC && Mask(4, 4) == 0xF0 && Mask(8, 8) == 0xFF00
    ensures Mask(16, 16) == 0xFFFF_0000 && Mask(32, 32) == 0xFFFF_FFFF_0000_0000
    ensures Pow2(32) == TWO32 && Pow2(64) == TWO64 && Pow2(16) == 0x1_0000 && Pow2(8) == 0x100 && Pow2(4) == 0x10
  {
    assert Pow2(4) == 16 && Pow2(8) == 256;
    Pow2Add(8, 8);
    Pow2Add(16, 16);
    Pow2Add(32, 32);
  }

  // ----- Branchless -----

  /** One round: when v is at least 2^m its m lowest digits are dropped and counted. */
  lemma DropDigits(v: nat, m: nat)
    requires m > 0
    ensures v >= Pow2(m) ==> Ilog(v) == m + Ilog(v / Pow2(m)) && v / Pow2(m) > 0
  {
    ShrDiv(v, m);
    IlogShift(v, m);
    IlogAtMost(v, m);
  }

  lemma QuotientBound(v: nat, a: nat, b: nat)
    requires v < Pow2(a + b)
    ensures v / Pow2(a) < Pow2(b)
  {
    Pow2Add(a, b);
    DivMod(v, Pow2(a));
    if v / Pow2(a) >= Pow2(b) {
      MulMono(Pow2(b), v / Pow2(a), Pow2(a));
    }
  }

  /** ret |= m, where m is 2^k or 0 and digit k of ret is clear. */
  lemma OrDigit(ret: nat, m: nat, k: nat)
    requires m == 0 || m == Pow2(k)
    requires !Bit(ret, k)
    ensures Or(ret, m) == ret + m
  {
    if m == Pow2(k) {
      AndPow2(ret, k);
      OrSum(ret, m);
    }
  }

  /** Digit k as a quotient. */
  lemma BitQuotient(v: nat, k: nat)
    ensures Bit(v, k) <==> v / Pow2(k) % 2 == 1
  {
    BitShr(v, k, 0);
    ShrDiv(v, k);
  }

  /** m = (v > mask) << k; v >>= m, for a mask of 2^k ones. */
  method Round(v: nat, n: nat, k: nat) returns (w: nat, m: nat)
    requires v < Pow2(n + n) && n > 0 && n == Pow2(k)
    ensures w < Pow2(n) && (m == 0 || m == n)
    ensures v > 0 ==> w > 0 && Ilog(v) == m + Ilog(w)
    ensures v == 0 ==> w == 0 && m == 0
  {
    m := if v > Pow2(n) - 1 then n else 0;
    DropDigits(v, n);
    QuotientBound(v, n, n);
    w := if m == 0 then v else v / Pow2(n);
  }

  lemma LowPart(ret: nat, n: nat, low: nat)
    requires n >= 2 && ret % (2 * n) == low < n
    ensures ret / n % 2 == 0 && ret % n == low && (ret + n) % n == low
  {
    DivMod(ret, 2 * n);
    var q := ret / (2 * n);
    assert q * (2 * n) == (2 * q) * n;
    DivModUnique(ret, n, 2 * q, low);
    assert (2 * q + 1) * n == (2 * q) * n + n;
    DivModUnique(ret + n, n, 2 * q + 1, low);
  }

  /** One round with its digit of the result. */
  method Stage(v: nat, ret: nat, n: nat, k: nat, ghost low: nat) returns (w: nat, ret1: nat)
    requires v < Pow2(n + n) && n >= 2 && n == Pow2(k) && ret % (2 * n) == low <= 1
    ensures w < Pow2(n) && ret1 % n == low
    ensures v > 0 ==> w > 0 && ret1 + Ilog(w) == ret + Ilog(v)
    ensures v == 0 ==> w == 0 && ret1 == ret
  {
    var m;
    w, m := Round(v, n, k);
    LowPart(ret, n, low);
    BitQuotient(ret, k);
    OrDigit(ret, m, k);
    ret1 := Or(ret, m);
  }

  lemma LastDigits(v: nat)
    requires v < 4
    ensures Ilog(v) == if v == 0 then 0 else if v == 1 then 1 else 2
  {
  }

  /** The rounds that the 32-bit and the 64-bit version share. */
  method Rounds32(v0: nat, ret0: nat) returns (ret: nat)
    requires v0 < TWO32 && ret0 % 32 <= 1
    ensures ret == ret0 + if v0 == 0 then 0 else Ilog(v0) - 1
  {
    Widths();
    assert Pow2(1) == 2 && Pow2(2) == 4 && Pow2(3) == 8;
    hide Pow2, Ilog;
    var v;
    ghost var low := ret0 % 32;
    v, ret := Stage(v0, ret0, 16, 4, low);
    v, ret := Stage(v, ret, 8, 3, low);
    v, ret := Stage(v, ret, 4, 2, low);
    v, ret := Stage(v, ret, 2, 1, low);
    ret := ret + if v > 1 then 1 else 0;
    LastDigits(v);
  }

  method Ilog32Branchless(v: nat) returns (ret: nat)
    requires v < TWO32
    ensures ret == Ilog(v)
  {
    ret := if v > 0 then 1 else 0;
    ret := Rounds32(v, ret);
  }

  method Ilog64Branchless(v: nat) returns (ret: nat)
    requires v < TWO64
    ensures ret == Ilog(v)
  {
    ret := if v > 0 then 1 else 0;
    Widths();
    assert Pow2(5) == 32;
    var w;
    w, ret := Stage(v, ret, 32, 5, ret);
    ret := Rounds32(w, ret);
  }

  // ----- De Bruijn -----

  /** The k digits from the leading one down are all 1. */
  ghost predicate TopOnes(v: nat, len: nat, k: nat) {
    && (forall i: nat {:trigger Bit(v, i)} :: i >= len ==> !Bit(v, i))
    && (forall i: nat {:trigger Bit(v, i)} :: len <= i + k && i < len ==> Bit(v, i))
  }

  /** v |= v >> k doubles the run of ones below the leading digit. */
  lemma SmearStep(v: nat, len: nat, k: nat)
    requires TopOnes(v, len, k)
    ensures TopOnes(Or(v, Shr(v, k)), len, 2 * k)
  {
    var w := Or(v, Shr(v, k));
    hide Bit, Or, Shr;
    forall i: nat
      ensures i >= len ==> !Bit(w, i)
      ensures len <= i + 2 * k && i < len ==> Bit(w, i)
    {
      BitOr(v, Shr(v, k), i);
      BitShr(v, k, i);
    }
  }

  lemma SmearStart(v: nat)
    ensures TopOnes(v, Ilog(v), 1)
  {
    forall i: nat ensures i >= Ilog(v) ==> !Bit(v, i) {
      BitIlog(v, i);
    }
    if v > 0 {
      BitIlog(v, Ilog(v) - 1);
    }
  }

  lemma SmearEnd(v: nat, len: nat, k: nat)
    requires TopOnes(v, len, k) && len <= k
    ensures v == Pow2(len) - 1
  {
    forall i: nat ensures Bit(v, i) <==> Bit(Pow2(len) - 1, i) {
      BitOnes(len, i);
    }
    SameBits(v, Pow2(len) - 1);
  }

  /** The five smearing lines of the 32-bit version. */
  method Smear32(v0: nat) returns (v: nat)
    requires v0 < TWO32
    ensures v == Pow2(Ilog(v0)) - 1
  {
    ghost var len := Ilog(v0);
    Widths();
    IlogAtMost(v0, 32);
    SmearStart(v0);
    SmearStep(v0, len, 1);
    v := Or(v0, Shr(v0, 1));
    SmearStep(v, len, 2);
    v := Or(v, Shr(v, 2));
    SmearStep(v, len, 4);
    v := Or(v, Shr(v, 4));
    SmearStep(v, len, 8);
    v := Or(v, Shr(v, 8));
    SmearStep(v, len, 16);
    v := Or(v, Shr(v, 16));
    SmearEnd(v, len, 32);
  }

  method Smear64(v0: nat) returns (v: nat)
    requires v0 < TWO64
    ensures v == Pow2(Ilog(v0)) - 1
  {
    ghost var len := Ilog(v0);
    Widths();
    IlogAtMost(v0, 64);
    SmearStart(v0);
    SmearStep(v0, len, 1);
    v := Or(v0, Shr(v0, 1));
    SmearStep(v, len, 2);
    v := Or(v, Shr(v, 2));
    SmearStep(v, len, 4);
    v := Or(v, Shr(v, 4));
    SmearStep(v, len, 8);
    v := Or(v, Shr(v, 8));
    SmearStep(v, len, 16);
    v := Or(v, Shr(v, 16));
    SmearStep(v, len, 32);
    v := Or(v, Shr(v, 32));
    SmearEnd(v, len, 64);
  }

  lemma FifthPower()
    ensures Pow2(5) == 32
  {
  }

  /** The top five, or six, digits of the product with the de Bruijn constant. */
  function TopDigits32(v: nat): (r: nat)
    ensures r < 32
  {
    v * DEBRUIJN32 % TWO32 / 0x800_0000 % 32
  }

  function TopDigits64(v: nat): (r: nat)
    ensures r < 64
  {
    v * DEBRUIJN64 % TWO64 / 0x400_0000_0000_0000 % 64
  }

  /** ilog32 in its de Bruijn form. */
  method Ilog32Debruijn(v0: nat) returns (ret: nat)
    requires v0 < TWO32
    ensures ret == Ilog(v0)
  {
    hide Pow2, Ilog, DebruijnIdx32, TopDigits32;
    SmearedIndex32(v0);
    ret := if v0 > 0 then 1 else 0;
    var v := Smear32(v0);
    v := v / 2 + 1;
    ret := ret + DebruijnIdx32(TopDigits32(v));
  }

  method Ilog64Debruijn(v0: nat) returns (ret: nat)
    requires v0 < TWO64
    ensures ret == Ilog(v0)
  {
    hide Pow2, Ilog, DebruijnIdx64, TopDigits64;
    SmearedIndex64(v0);
    ret := if v0 > 0 then 1 else 0;
    var v := Smear64(v0);
    v := v / 2 + 1;
    ret := ret + DebruijnIdx64(TopDigits64(v));
  }

  /** ilog64 where long has 32 digits: one branchless round, then the 32-bit table. */
  method Ilog64Halves(v0: nat) returns (ret: nat)
    requires v0 < TWO64
    ensures ret == Ilog(v0)
  {
    hide Pow2, Ilog, DebruijnIdx32, TopDigits32;
    ret := if v0 > 0 then 1 else 0;
    Widths();
    FifthPower();
    var w;
    w, ret := Stage(v0, ret, 32, 5, ret);
    SmearedIndex32(w);
    var v := Smear32(w);
    v := v / 2 + 1;
    ret := ret + DebruijnIdx32(TopDigits32(v));
  }

  lemma SmearedIndex32(v0: nat)
    requires v0 < TWO32
    ensures var v := (Pow2(Ilog(v0)) - 1) / 2 + 1;
            DebruijnIdx32(TopDigits32(v)) + (if v0 > 0 then 1 else 0) == Ilog(v0)
  {
    hide Pow2, DebruijnIdx32, TopDigits32;
    IlogAtMost(v0, 32);
    Widths();
    HalfOnes(Ilog(v0));
    Index32(if v0 > 0 then Ilog(v0) - 1 else 0);
  }

  lemma SmearedIndex64(v0: nat)
    requires v0 < TWO64
    ensures var v := (Pow2(Ilog(v0)) - 1) / 2 + 1;
            DebruijnIdx64(TopDigits64(v)) + (if v0 > 0 then 1 else 0) == Ilog(v0)
  {
    hide Pow2, DebruijnIdx64, TopDigits64;
    IlogAtMost(v0, 64);
    Widths();
    HalfOnes(Ilog(v0));
    Index64(if v0 > 0 then Ilog(v0) - 1 else 0);
  }

  /** A row of ones, halved, plus one. */
  lemma HalfOnes(k: nat)
    ensures (Pow2(k) - 1) / 2 + 1 == Pow2(if k > 0 then k - 1 else 0)
  {
  }

  // ----- The compile-time macros -----

  /** ((2^b - 1) << a). */
  function Mask(a: nat, b: nat): (m: nat) {
    MulMono(0, Pow2(b) - 1, Pow2(a));
    (Pow2(b) - 1) * Pow2(a)
  }

  /** v & Mask(a, b) is not zero exactly when v has a digit from a on, for v below 2^(a + b). */
  lemma HighMask(v: nat, a: nat, b: nat)
    requires v < Pow2(a + b)
    ensures And(v, Mask(a, b)) != 0 <==> v >= Pow2(a)
  {
    var q := Shr(v, a);
    AndShifted(v, a, Pow2(b) - 1);
    AndOnes(q, b);
    ShrDiv(v, a);
    QuotientBound(v, a, b);
    SmallMod(q, Pow2(b));
    DivMod(v, Pow2(a));
    NonzeroProduct(q, Pow2(a));
  }

  lemma SmallMod(x: nat, p: int)
    requires x < p
    ensures x % p == x
  {
    DivModUnique(x, p, 0, x);
  }

  lemma NonzeroProduct(x: nat, p: int)
    requires p > 0
    ensures x * p != 0 <==> x != 0
    ensures x > 0 ==> x * p >= p
  {
    if x > 0 {
      MulMono(1, x, p);
    }
  }

  lemma {:induction false} AndShifted(v: nat, a: nat, m: nat)
    ensures 0 <= m * Pow2(a) && And(v, m * Pow2(a)) == And(Shr(v, a), m) * Pow2(a)
    decreases a
  {
    if a > 0 {
      AndShifted(v / 2, a - 1, m);
      DoubledProduct(m, a - 1);
      AndEven(v, m * Pow2(a - 1));
      DoubledProduct(And(Shr(v, a), m), a - 1);
    }
  }

  lemma AndEven(v: nat, w: nat)
    ensures And(v, 2 * w) == 2 * And(v / 2, w)
  {
    if v == 0 || w == 0 {
      AndZero(v);
      AndZero(v / 2);
      AndZero(w);
    }
  }

  function StaticIlog0(v: nat): nat {
    if v != 0 then 1 else 0
  }

  function StaticIlog1(v: nat): nat {
    if And(v, 0x2) != 0 then 2 else StaticIlog0(v)
  }

  function StaticIlog2(v: nat): nat {
    if And(v, 0xC) != 0 then 2 + StaticIlog1(Shr(v, 2)) else StaticIlog1(v)
  }

  function StaticIlog3(v: nat): nat {
    if And(v, 0xF0) != 0 then 4 + StaticIlog2(Shr(v, 4)) else StaticIlog2(v)
  }

  function StaticIlog4(v: nat): nat {
    if And(v, 0xFF00) != 0 then 8 + StaticIlog3(Shr(v, 8)) else StaticIlog3(v)
  }

  function StaticIlog5(v: nat): nat {
    if And(v, 0xFFFF_0000) != 0 then 16 + StaticIlog4(Shr(v, 16)) else StaticIlog4(v)
  }

  function StaticIlog6(v: nat): nat {
    if And(v, 0xFFFF_FFFF_0000_0000) != 0 then 32 + StaticIlog5(Shr(v, 32)) else StaticIlog5(v)
  }

  /** One macro level halves the number of digits it still has to look at. */
  lemma MacroLevel(v: nat, n: nat)
    requires n > 0 && v < Pow2(n + n)
    ensures And(v, Mask(n, n)) != 0 <==> v >= Pow2(n)
    ensures v >= Pow2(n) ==> Ilog(v) == n + Ilog(Shr(v, n)) && Shr(v, n) < Pow2(n)
  {
    HighMask(v, n, n);
    DropDigits(v, n);
    QuotientBound(v, n, n);
    ShrDiv(v, n);
  }

  lemma StaticSmall(v: nat)
    requires v < 4
    ensures StaticIlog1(v) == Ilog(v)
  {
    assert And(0, 2) == 0 && And(1, 2) == 0 && And(2, 2) == 2 && And(3, 2) == 2;
    LastDigits(v);
  }

  lemma Static3(v: nat)
    requires v < 0x100
    ensures StaticIlog3(v) == Ilog(v)
  {
    assert Pow2(2) == 4;
    Widths();
    MacroLevel(v, 4);
    var w := if v >= 16 then Shr(v, 4) else v;
    MacroLevel(w, 2);
    StaticSmall(if w >= 4 then Shr(w, 2) else w);
  }

  /** STATIC_ILOG_32 is Ilog on every 32-bit value. */
  lemma Static5(v: nat)
    requires v < TWO32
    ensures StaticIlog5(v) == Ilog(v)
  {
    Widths();
    hide Pow2, StaticIlog3;
    MacroLevel(v, 16);
    var w := if v >= 0x1_0000 then Shr(v, 16) else v;
    MacroLevel(w, 8);
    Static3(if w >= 0x100 then Shr(w, 8) else w);
  }

  /** STATIC_ILOG_64 is Ilog on every 64-bit value. */
  lemma Static6(v: nat)
    requires v < TWO64
    ensures StaticIlog6(v) == Ilog(v)
  {
    Widths();
    hide Pow2, StaticIlog5;
    MacroLevel(v, 32);
    Static5(if v >= TWO32 then Shr(v, 32) else v);
  }

  // ----- The de Bruijn tables -----

  const DEBRUIJN32: nat := 0x77CB531
  const DEBRUIJN64: nat := 0x218A392CD3D5DBF

  /** The lookup table of the 32-bit version. */
  function DebruijnIdx32(i: nat): nat {
    match i
    case 0 => 0 case 1 => 1 case 2 => 28 case 3 => 2 case 4 => 29 case 5 => 14 case 6 => 24 case 7 => 3
    case 8 => 30 case 9 => 22 case 10 => 20 case 11 => 15 case 12 => 25 case 13 => 17 case 14 => 4 case 15 => 8
    case 16 => 31 case 17 => 27 case 18 => 13 case 19 => 23 case 20 => 21 case 21 => 19 case 22 => 16 case 23 => 7
    case 24 => 26 case 25 => 12 case 26 => 18 case 27 => 6 case 28 => 11 case 29 => 5 case 30 => 10 case 31 => 9
    case _ => 0
  }

  /** The lookup table of the 64-bit version. */
  function DebruijnIdx64(i: nat): nat {
    match i
    case 0 => 0 case 1 => 1 case 2 => 2 case 3 => 7 case 4 => 3 case 5 => 13 case 6 => 8 case 7 => 19
    case 8 => 4 case 9 => 25 case 10 => 14 case 11 => 28 case 12 => 9 case 13 => 34 case 14 => 20 case 15 => 40
    case 16 => 5 case 17 => 17 case 18 => 26 case 19 => 38 case 20 => 15 case 21 => 46 case 22 => 29 case 23 => 48
    case 24 => 10 case 25 => 31 case 26 => 35 case 27 => 54 case 28 => 21 case 29 => 50 case 30 => 41 case 31 => 57
    case 32 => 63 case 33 => 6 case 34 => 12 case 35 => 18 case 36 => 24 case 37 => 27 case 38 => 33 case 39 => 39
    case 40 => 16 case 41 => 37 case 42 => 45 case 43 => 47 case 44 => 30 case 45 => 53 case 46 => 49 case 47 => 56
    case 48 => 62 case 49 => 11 case 50 => 23 case 51 => 32 case 52 => 36 case 53 => 44 case 54 => 52 case 55 => 55
    case 56 => 61 case 57 => 22 case 58 => 43 case 59 => 51 case 60 => 60 case 61 => 42 case 62 => 59 case 63 => 58
    case _ => 0
  }

  /** The top digits of the product x find k in the table, and y is the next product. */
  predicate Entry32(x: int, y: int, k: int) {
    0 <= x && DebruijnIdx32(x / 0x800_0000) == k && y == 2 * x % 0x1_0000_0000
  }

  /** The table at the top digits of x, 2x, 4x, ... modulo 2^32 holds k, k + 1, k + 2, ... up to the end. */
  predicate Table32From(x: int, k: int)
    decreases 32 - k
  {
    0 <= x && (k >= 32 || (DebruijnIdx32(x / 0x800_0000) == k && Table32From(2 * x % 0x1_0000_0000, k + 1)))
  }

  lemma EntryLinks32(end: int)
    requires 0 <= end
    ensures Table32From(end, 32)
    ensures forall x, y, k {:trigger Entry32(x, y, k)} :: Entry32(x, y, k) && Table32From(y, k + 1) ==> Table32From(x, k)
  {
  }

  lemma Products32From0()
    ensures Entry32(0x77CB531, 0xEF96A62, 0) && Entry32(0xEF96A62, 0x1DF2D4C4, 1)
    ensures Entry32(0x1DF2D4C4, 0x3BE5A988, 2) && Entry32(0x3BE5A988, 0x77CB5310, 3)
    ensures Entry32(0x77CB5310, 0xEF96A620, 4) && Entry32(0xEF96A620, 0xDF2D4C40, 5)
    ensures Entry32(0xDF2D4C40, 0xBE5A9880, 6) && Entry32(0xBE5A9880, 0x7CB53100, 7)
    ensures Entry32(0x7CB53100, 0xF96A6200, 8) && Entry32(0xF96A6200, 0xF2D4C400, 9)
    ensures Entry32(0xF2D4C400, 0xE5A98800, 10) && Entry32(0xE5A98800, 0xCB531000, 11)
    ensures Entry32(0xCB531000, 0x96A62000, 12) && Entry32(0x96A62000, 0x2D4C4000, 13)
    ensures Entry32(0x2D4C4000, 0x5A988000, 14) && Entry32(0x5A988000, 0xB5310000, 15)
  {
  }

  lemma Products32From16()
    ensures Entry32(0xB5310000, 0x6A620000, 16) && Entry32(0x6A620000, 0xD4C40000, 17)
    ensures Entry32(0xD4C40000, 0xA9880000, 18) && Entry32(0xA9880000, 0x53100000, 19)
    ensures Entry32(0x53100000, 0xA6200000, 20) && Entry32(0xA6200000, 0x4C400000, 21)
    ensures Entry32(0x4C400000, 0x98800000, 22) && Entry32(0x98800000, 0x31000000, 23)
    ensures Entry32(0x31000000, 0x62000000, 24) && Entry32(0x62000000, 0xC4000000, 25)
    ensures Entry32(0xC4000000, 0x88000000, 26) && Entry32(0x88000000, 0x10000000, 27)
    ensures Entry32(0x10000000, 0x20000000, 28) && Entry32(0x20000000, 0x40000000, 29)
    ensures Entry32(0x40000000, 0x80000000, 30) && Entry32(0x80000000, 0x0, 31)
  {
  }

  lemma Chain32()
    ensures Table32From(DEBRUIJN32, 0)
  {
    hide Entry32, Table32From;
    EntryLinks32(0x0);
    Products32From0();
    Products32From16();
  }

  /** The top digits of the product x find k in the table, and y is the next product. */
  predicate Entry64(x: int, y: int, k: int) {
    0 <= x && DebruijnIdx64(x / 0x400_0000_0000_0000) == k && y == 2 * x % 0x1_0000_0000_0000_0000
  }

  /** The table at the top digits of x, 2x, 4x, ... modulo 2^64 holds k, k + 1, k + 2, ... up to the end. */
  predicate Table64From(x: int, k: int)
    decreases 64 - k
  {
    0 <= x && (k >= 64 || (DebruijnIdx64(x / 0x400_0000_0000_0000) == k && Table64From(2 * x % 0x1_0000_0000_0000_0000, k + 1)))
  }

  lemma EntryLinks64(end: int)
    requires 0 <= end
    ensures Table64From(end, 64)
    ensures forall x, y, k {:trigger Entry64(x, y, k)} :: Entry64(x, y, k) && Table64From(y, k + 1) ==> Table64From(x, k)
  {
  }

  lemma Products64From0()
    ensures Entry64(0x218A392CD3D5DBF, 0x43147259A7ABB7E, 0) && Entry64(0x43147259A7ABB7E, 0x8628E4B34F576FC, 1)
    ensures Entry64(0x8628E4B34F576FC, 0x10C51C9669EAEDF8, 2) && Entry64(0x10C51C9669EAEDF8, 0x218A392CD3D5DBF0, 3)
    ensures Entry64(0x218A392CD3D5DBF0, 0x43147259A7ABB7E0, 4) && Entry64(0x43147259A7ABB7E0, 0x8628E4B34F576FC0, 5)
    ensures Entry64(0x8628E4B34F576FC0, 0xC51C9669EAEDF80, 6) && Entry64(0xC51C9669EAEDF80, 0x18A392CD3D5DBF00, 7)
    ensures Entry64(0x18A392CD3D5DBF00, 0x3147259A7ABB7E00, 8) && Entry64(0x3147259A7ABB7E00, 0x628E4B34F576FC00, 9)
    ensures Entry64(0x628E4B34F576FC00, 0xC51C9669EAEDF800, 10) && Entry64(0xC51C9669EAEDF800, 0x8A392CD3D5DBF000, 11)
    ensures Entry64(0x8A392CD3D5DBF000, 0x147259A7ABB7E000, 12) && Entry64(0x147259A7ABB7E000, 0x28E4B34F576FC000, 13)
    ensures Entry64(0x28E4B34F576FC000, 0x51C9669EAEDF8000, 14) && Entry64(0x51C9669EAEDF8000, 0xA392CD3D5DBF0000, 15)
  {
  }

  lemma Products64From16()
    ensures Entry64(0xA392CD3D5DBF0000, 0x47259A7ABB7E0000, 16) && Entry64(0x47259A7ABB7E0000, 0x8E4B34F576FC0000, 17)
    ensures Entry64(0x8E4B34F576FC0000, 0x1C9669EAEDF80000, 18) && Entry64(0x1C9669EAEDF80000, 0x392CD3D5DBF00000, 19)
    ensures Entry64(0x392CD3D5DBF00000, 0x7259A7ABB7E00000, 20) && Entry64(0x7259A7ABB7E00000, 0xE4B34F576FC00000, 21)
    ensures Entry64(0xE4B34F576FC00000, 0xC9669EAEDF800000, 22) && Entry64(0xC9669EAEDF800000, 0x92CD3D5DBF000000, 23)
    ensures Entry64(0x92CD3D5DBF000000, 0x259A7ABB7E000000, 24) && Entry64(0x259A7ABB7E000000, 0x4B34F576FC000000, 25)
    ensures Entry64(0x4B34F576FC000000, 0x9669EAEDF8000000, 26) && Entry64(0x9669EAEDF8000000, 0x2CD3D5DBF0000000, 27)
    ensures Entry64(0x2CD3D5DBF0000000, 0x59A7ABB7E0000000, 28) && Entry64(0x59A7ABB7E0000000, 0xB34F576FC0000000, 29)
    ensures Entry64(0xB34F576FC0000000, 0x669EAEDF80000000, 30) && Entry64(0x669EAEDF80000000, 0xCD3D5DBF00000000, 31)
  {
  }

  lemma Products64From32()
    ensures Entry64(0xCD3D5DBF00000000, 0x9A7ABB7E00000000, 32) && Entry64(0x9A7ABB7E00000000, 0x34F576FC00000000, 33)
    ensures Entry64(0x34F576FC00000000, 0x69EAEDF800000000, 34) && Entry64(0x69EAEDF800000000, 0xD3D5DBF000000000, 35)
    ensures Entry64(0xD3D5DBF000000000, 0xA7ABB7E000000000, 36) && Entry64(0xA7ABB7E000000000, 0x4F576FC000000000, 37)
    ensures Entry64(0x4F576FC000000000, 0x9EAEDF8000000000, 38) && Entry64(0x9EAEDF8000000000, 0x3D5DBF0000000000, 39)
    ensures Entry64(0x3D5DBF0000000000, 0x7ABB7E0000000000, 40) && Entry64(0x7ABB7E0000000000, 0xF576FC0000000000, 41)
    ensures Entry64(0xF576FC0000000000, 0xEAEDF80000000000, 42) && Entry64(0xEAEDF80000000000, 0xD5DBF00000000000, 43)
    ensures Entry64(0xD5DBF00000000000, 0xABB7E00000000000, 44) && Entry64(0xABB7E00000000000, 0x576FC00000000000, 45)
    ensures Entry64(0x576FC00000000000, 0xAEDF800000000000, 46) && Entry64(0xAEDF800000000000, 0x5DBF000000000000, 47)
  {
  }

  lemma Products64From48()
    ensures Entry64(0x5DBF000000000000, 0xBB7E000000000000, 48) && Entry64(0xBB7E000000000000, 0x76FC000000000000, 49)
    ensures Entry64(0x76FC000000000000, 0xEDF8000000000000, 50) && Entry64(0xEDF8000000000000, 0xDBF0000000000000, 51)
    ensures Entry64(0xDBF0000000000000, 0xB7E0000000000000, 52) && Entry64(0xB7E0000000000000, 0x6FC0000000000000, 53)
    ensures Entry64(0x6FC0000000000000, 0xDF80000000000000, 54) && Entry64(0xDF80000000000000, 0xBF00000000000000, 55)
    ensures Entry64(0xBF00000000000000, 0x7E00000000000000, 56) && Entry64(0x7E00000000000000, 0xFC00000000000000, 57)
    ensures Entry64(0xFC00000000000000, 0xF800000000000000, 58) && Entry64(0xF800000000000000, 0xF000000000000000, 59)
    ensures Entry64(0xF000000000000000, 0xE000000000000000, 60) && Entry64(0xE000000000000000, 0xC000000000000000, 61)
    ensures Entry64(0xC000000000000000, 0x8000000000000000, 62) && Entry64(0x8000000000000000, 0x0, 63)
  {
  }

  lemma Chain64()
    ensures Table64From(DEBRUIJN64, 0)
  {
    hide Entry64, Table64From;
    EntryLinks64(0x0);
    Products64From0();
    Products64From16();
    Products64From32();
    Products64From48();
  }

  lemma DoubledMod(x: nat, p: nat, m: int)
    requires m > 0
    ensures (2 * x % m) * p % m == 2 * (x * p) % m
  {
    DivMod(2 * x, m);
    var q, r := 2 * x / m, 2 * x % m;
    DivMod(r * p, m);
    assert 2 * (x * p) == (2 * x) * p;
    assert (q * m + r) * p == (q * p) * m + r * p;
    assert (q * p + r * p / m) * m == (q * p) * m + r * p / m * m;
    DivModUnique(2 * (x * p), m, q * p + r * p / m, r * p % m);
  }

  lemma DoubledProduct(x: nat, i: nat)
    ensures x * Pow2(i + 1) == 2 * (x * Pow2(i)) && x * Pow2(i) >= 0
  {
    MulMono(0, x, Pow2(i));
  }

  lemma {:induction false} Product32(x: nat, k0: nat, k: nat)
    requires Table32From(x, k0) && k0 <= k < 32 && x < TWO32
    ensures DebruijnIdx32(x * Pow2(k - k0) % TWO32 / 0x800_0000) == k
    decreases k - k0
  {
    if k == k0 {
      SmallMod(x, TWO32);
    } else {
      Product32(2 * x % TWO32, k0 + 1, k);
      DoubledMod(x, Pow2(k - k0 - 1), TWO32);
      DoubledProduct(x, k - k0 - 1);
    }
  }

  lemma {:induction false} Product64(x: nat, k0: nat, k: nat)
    requires Table64From(x, k0) && k0 <= k < 64 && x < TWO64
    ensures DebruijnIdx64(x * Pow2(k - k0) % TWO64 / 0x400_0000_0000_0000) == k
    decreases k - k0
  {
    if k == k0 {
      SmallMod(x, TWO64);
    } else {
      Product64(2 * x % TWO64, k0 + 1, k);
      DoubledMod(x, Pow2(k - k0 - 1), TWO64);
      DoubledProduct(x, k - k0 - 1);
    }
  }

  /** The top five digits of 2^k times the de Bruijn number find k in the table. */
  lemma Index32(k: nat)
    requires k < 32
    ensures DebruijnIdx32(TopDigits32(Pow2(k))) == k
  {
    Chain32();
    Product32(DEBRUIJN32, 0, k);
    assert DEBRUIJN32 * Pow2(k) == Pow2(k) * DEBRUIJN32;
    TopDigits(DEBRUIJN32 * Pow2(k) % TWO32, 32, 0x800_0000);
  }

  lemma Index64(k: nat)
    requires k < 64
    ensures DebruijnIdx64(TopDigits64(Pow2(k))) == k
  {
    Chain64();
    Product64(DEBRUIJN64, 0, k);
    assert DEBRUIJN64 * Pow2(k) == Pow2(k) * DEBRUIJN64;
    TopDigits(DEBRUIJN64 * Pow2(k) % TWO64, 64, 0x400_0000_0000_0000);
  }

  /** A value below n * d has at most n - 1 in front of d, so the mask after the shift changes nothing. */
  lemma TopDigits(x: nat, n: nat, d: nat)
    requires d > 0 && x < n * d
    ensures x / d % n == x / d
  {
    DivMod(x, d);
    if x / d >= n {
      MulMono(n, x / d, d);
    }
    SmallMod(x / d, n);
  }
}
