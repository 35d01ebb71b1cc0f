/** Bitmaps kept as arrays of 64-bit words, as alloc.c keeps them. */
module Bitmaps {
  import opened Powers
  import opened Bits
  import opened IlogForms
  import opened BitOps

  type Word = w: nat | w < 0x1_0000_0000_0000_0000

  // ----- One word -----

  lemma {:induction false} OrBelow(a: nat, b: nat, k: nat)
    requires a < Pow2(k) && b < Pow2(k)
    ensures Or(a, b) < Pow2(k)
    decreases k
  {
    if a > 0 && b > 0 {
      OrBelow(a / 2, b / 2, k - 1);
    }
  }

  lemma {:induction false} AndNotBelow(a: nat, b: nat)
    ensures AndNot(a, b) <= a
  {
    if a > 0 {
      AndNotBelow(a / 2, b / 2);
    }
  }

  lemma {:induction false} BitAndNot(a: nat, b: nat, i: nat)
    ensures Bit(AndNot(a, b), i) <==> Bit(a, i) && !Bit(b, i)
    decreases i
  {
    BitZero(i);
    if i > 0 && a > 0 {
      BitAndNot(a / 2, b / 2, i - 1);
    }
  }

  lemma {:induction false} BitPow2(k: nat, i: nat)
    ensures Bit(Pow2(k), i) <==> i == k
    decreases k
  {
    if k == 0 {
      if i > 0 {
        BitZero(i - 1);
      }
    } else if i > 0 {
      BitPow2(k - 1, i - 1);
    }
  }

  /** The complement of a k-digit number has the opposite digits. */
  lemma {:induction false} BitComplement(a: nat, k: nat, i: nat)
    requires a < Pow2(k) && i < k
    ensures Bit(Pow2(k) - 1 - a, i) <==> !Bit(a, i)
    decreases k
  {
    HalfComplement(a, Pow2(k - 1));
    if i > 0 {
      BitComplement(a / 2, k - 1, i - 1);
    }
  }

  lemma HalfComplement(a: nat, p: int)
    requires a < 2 * p
    ensures (2 * p - 1 - a) / 2 == p - 1 - a / 2 && ((2 * p - 1 - a) % 2 == 1 <==> a % 2 == 0)
  {
  }

  // ----- test_bit, set_bit, clear_bit -----

  function Zeros(n: nat): (r: seq<Word>)
    ensures |r| == n && forall i :: 0 <= i < n ==> r[i] == 0
  {
    seq(n, _ => 0)
  }

  predicate TestBit(m: seq<Word>, off: nat)
    requires off < 64 * |m|
  {
    And(m[off / 64], Pow2(off % 64)) != 0
  }

  function SetBit(m: seq<Word>, off: nat): (r: seq<Word>)
    requires off < 64 * |m|
    ensures |r| == |m|
  {
    WordPower(off % 64);
    OrBelow(m[off / 64], Pow2(off % 64), 64);
    m[off / 64 := Or(m[off / 64], Pow2(off % 64))]
  }

  function ClearBit(m: seq<Word>, off: nat): (r: seq<Word>)
    requires off < 64 * |m|
    ensures |r| == |m|
  {
    AndNotBelow(m[off / 64], Pow2(off % 64));
    m[off / 64 := AndNot(m[off / 64], Pow2(off % 64))]
  }

  lemma WordPower(k: nat)
    requires k < 64
    ensures Pow2(k) < Pow2(64) && Pow2(64) == 0x1_0000_0000_0000_0000
  {
    Widths();
    Pow2Mono(k, 64);
  }

  lemma TestBitIs(m: seq<Word>, off: nat)
    requires off < 64 * |m|
    ensures TestBit(m, off) <==> Bit(m[off / 64], off % 64)
  {
    AndPow2(m[off / 64], off % 64);
  }

  /** set_bit sets one bit and changes no other. */
  lemma SetBitOnly(m: seq<Word>, off: nat, i: nat)
    requires off < 64 * |m| && i < 64 * |m|
    ensures TestBit(SetBit(m, off), i) <==> i == off || TestBit(m, i)
  {
    TestBitIs(m, i);
    TestBitIs(SetBit(m, off), i);
    BitOr(m[off / 64], Pow2(off % 64), i % 64);
    BitPow2(off % 64, i % 64);
  }

  /** clear_bit clears one bit and changes no other. */
  lemma ClearBitOnly(m: seq<Word>, off: nat, i: nat)
    requires off < 64 * |m| && i < 64 * |m|
    ensures TestBit(ClearBit(m, off), i) <==> i != off && TestBit(m, i)
  {
    TestBitIs(m, i);
    TestBitIs(ClearBit(m, off), i);
    BitAndNot(m[off / 64], Pow2(off % 64), i % 64);
    BitPow2(off % 64, i % 64);
  }

  // ----- find_free_bit -----

  /** The first clear bit of a word that has one. */
  method FreeInWord(w: Word) returns (i: nat)
    requires w < 0xFFFF_FFFF_FFFF_FFFF
    ensures i < 64 && !Bit(w, i) && forall j: nat :: j < i ==> Bit(w, j)
  {
    Widths();
    var v := Pow2(64) - 1 - w;
    var r := Affsl(v);
    FfsSmall(v, 64);
    FfsFirst(v, 0);
    i := r - 1;
    FfsFirst(v, i);
    BitComplement(w, 64, i);
    forall j: nat | j < i ensures Bit(w, j) {
      FfsFirst(v, j);
      BitComplement(w, 64, j);
    }
  }

  lemma FullWord(i: nat)
    requires i < 64
    ensures Bit(0xFFFF_FFFF_FFFF_FFFF, i)
  {
    Widths();
    BitOnes(64, i);
  }

  /** find_free_bit: there must be a bit to be found, and the first one is. */
  method FindFreeBit(bitmap: seq<Word>) returns (off: nat)
    requires exists k: nat :: k < 64 * |bitmap| && !TestBit(bitmap, k)
    ensures off < 64 * |bitmap| && !TestBit(bitmap, off)
    ensures forall j: nat :: j < off ==> TestBit(bitmap, j)
  {
    hide TestBit;
    ghost var k: nat :| k < 64 * |bitmap| && !TestBit(bitmap, k);
    TestBitIs(bitmap, k);
    var i := 0;
    while i < |bitmap| && bitmap[i] == 0xFFFF_FFFF_FFFF_FFFF
      invariant i <= k / 64
      invariant forall j: nat :: j < 64 * i ==> TestBit(bitmap, j)
    {
      FullWord(k % 64);
      forall j: nat | 64 * i <= j < 64 * (i + 1) ensures TestBit(bitmap, j) {
        FullWord(j % 64);
        TestBitIs(bitmap, j);
      }
      i := i + 1;
    }
    var r := FreeInWord(bitmap[i]);
    off := i * 64 + r;
    TestBitIs(bitmap, off);
    forall j: nat | 64 * i <= j < off ensures TestBit(bitmap, j) {
      TestBitIs(bitmap, j);
    }
  }

  // ----- count_bits -----

  /** The number of set bits below limit. */
  function BitCount(m: seq<Word>, limit: nat): (r: nat)
    requires limit <= 64 * |m|
    ensures r <= limit
  {
    if limit == 0 then 0 else BitCount(m, limit - 1) + if TestBit(m, limit - 1) then 1 else 0
  }

  lemma {:induction false} PopcountBits(m: seq<Word>, i: nat, k: nat)
    requires i < |m| && k <= 64
    ensures BitCount(m, 64 * i + k) == BitCount(m, 64 * i) + Popcount(Low(m[i], k))
    decreases k
  {
    hide TestBit, Bit, Popcount, Low, Pow2;
    if k > 0 {
      PopcountBits(m, i, k - 1);
      NthBit(m, i, k - 1);
      PopcountTop(m[i], k - 1);
    } else {
      LowNone(m[i]);
    }
  }

  lemma LowNone(v: nat)
    ensures Popcount(Low(v, 0)) == 0
  {
    MulMod(v, 1);
  }

  lemma LowAll(v: nat, k: nat)
    requires v < Pow2(k)
    ensures Low(v, k) == v
  {
    DivModUnique(v, Pow2(k), 0, v);
  }

  lemma NthBit(m: seq<Word>, i: nat, k: nat)
    requires i < |m| && k < 64
    ensures TestBit(m, 64 * i + k) <==> Bit(m[i], k)
  {
    TestBitIs(m, 64 * i + k);
  }

  /** Extending a low part by one digit. */
  lemma PopcountTop(w: nat, k: nat)
    ensures Popcount(Low(w, k + 1)) == Popcount(Low(w, k)) + if Bit(w, k) then 1 else 0
  {
    hide Pow2, Bit;
    BitQuotient(w, k);
    var p := Pow2(k);
    assert Pow2(k + 1) == 2 * p by { Pow2Add(1, k); assert Pow2(1) == 2 by { OneDigit(); } }
    DivMod(w, p);
    var q := w / p;
    var h := q / 2;
    assert q * p == h * (2 * p) + q % 2 * p by { SplitProduct(q, h, p); }
    DivModUnique(w, 2 * p, h, w % p + q % 2 * p);
    PopcountSplit(w % p, q % 2, k);
    assert Popcount(0) == 0 && Popcount(1) == 1;
  }

  lemma OneDigit()
    ensures Pow2(1) == 2
  {
  }

  lemma SplitProduct(q: int, h: int, p: int)
    requires h == q / 2 && p >= 0
    ensures q * p == h * (2 * p) + q % 2 * p && 0 <= q % 2 * p <= p
  {
    assert q == 2 * h + q % 2;
  }

  /** count_bits. */
  method CountBits(bitmap: seq<Word>, limit0: nat) returns (count: nat)
    requires limit0 <= 64 * |bitmap|
    ensures count == BitCount(bitmap, limit0)
  {
    hide TestBit;
    var word := 0;
    var limit := limit0;
    count := 0;
    while limit >= 64
      invariant 64 * word + limit == limit0
      invariant count == BitCount(bitmap, 64 * word)
    {
      var c := Apopcount(bitmap[word]);
      Widths();
      LowAll(bitmap[word], 64);
      PopcountBits(bitmap, word, 64);
      count := count + c;
      word := word + 1;
      limit := limit - 64;
    }
    var i := 0;
    while i < limit
      invariant i <= limit
      invariant count == BitCount(bitmap, 64 * word + i)
    {
      if TestBit(bitmap, 64 * word + i) {
        count := count + 1;
      }
      i := i + 1;
    }
  }

  /** The count depends on the bits alone. */
  lemma {:induction false} BitCountSame(m: seq<Word>, n: seq<Word>, limit: nat)
    requires limit <= 64 * |m| && |m| == |n|
    requires forall i: nat :: i < limit ==> (TestBit(m, i) <==> TestBit(n, i))
    ensures BitCount(m, limit) == BitCount(n, limit)
  {
    hide TestBit;
    if limit > 0 {
      BitCountSame(m, n, limit - 1);
    }
  }

  /** Changing one bit changes the count by one. */
  lemma {:induction false} BitCountChange(m: seq<Word>, n: seq<Word>, off: nat, limit: nat)
    requires off < limit <= 64 * |m| && |m| == |n|
    requires !TestBit(m, off) && TestBit(n, off)
    requires forall i: nat :: i < limit && i != off ==> (TestBit(m, i) <==> TestBit(n, i))
    ensures BitCount(n, limit) == BitCount(m, limit) + 1
  {
    hide TestBit;
    if off == limit - 1 {
      BitCountSame(m, n, limit - 1);
    } else {
      BitCountChange(m, n, off, limit - 1);
    }
  }

  lemma {:induction false} BitCountAll(m: seq<Word>, limit: nat)
    requires limit <= 64 * |m|
    ensures BitCount(m, limit) == limit <==> forall i: nat :: i < limit ==> TestBit(m, i)
    ensures BitCount(m, limit) == 0 <==> forall i: nat :: i < limit ==> !TestBit(m, i)
  {
    hide TestBit;
    if limit > 0 {
      BitCountAll(m, limit - 1);
    }
  }
}
