/** Powers of two and alignment: the arithmetic shared by the allocators. */
module Powers {

  function Pow2(k: nat): (p: int)
    ensures p >= 1
  {
    if k == 0 then 1 else 2 * Pow2(k - 1)
  }

  lemma {:induction false} Pow2Add(a: nat, b: nat)
    ensures Pow2(a + b) == Pow2(a) * Pow2(b)
  {
    if a == 0 {
    } else {
      Pow2Add(a - 1, b);
      assert Pow2(a + b) == 2 * Pow2(a - 1 + b);
      assert 2 * (Pow2(a - 1) * Pow2(b)) == (2 * Pow2(a - 1)) * Pow2(b);
    }
  }

  lemma {:induction false} Pow2Mono(a: nat, b: nat)
    requires a <= b
    ensures Pow2(a) <= Pow2(b)
    ensures a < b ==> 2 * Pow2(a) <= Pow2(b)
  {
    if a < b {
      Pow2Mono(a, b - 1);
    }
  }

  lemma Pow2Below(a: nat, b: nat)
    requires Pow2(a) < Pow2(b)
    ensures a < b
  {
    Pow2Either(a, b);
  }

  lemma Pow2Either(a: nat, b: nat)
    ensures a < b || Pow2(b) <= Pow2(a)
  {
    if b <= a {
      Pow2Mono(b, a);
    }
  }

  lemma {:induction false} Pow2Exceeds(k: nat)
    ensures k < Pow2(k)
  {
    if k > 0 {
      Pow2Exceeds(k - 1);
    }
  }

  lemma MulMono(x: int, y: int, p: int)
    requires x <= y && 0 <= p
    ensures x * p <= y * p
  {
    assert (y - x) * p >= 0;
  }

  lemma MulAssoc2(x: int, y: int)
    ensures x * (2 * y) == (x * y) * 2
  {
  }

  lemma DivMod(x: int, p: int)
    requires p > 0
    ensures x == (x / p) * p + x % p && 0 <= x % p < p
  {
  }

  /** Division with remainder is unique. */
  lemma DivModUnique(x: int, p: int, q: int, r: int)
    requires p > 0 && x == q * p + r && 0 <= r < p
    ensures x / p == q && x % p == r
  {
    DivMod(x, p);
    var d := q - x / p;
    assert d * p == q * p - (x / p) * p;
    if d >= 1 {
      MulMono(1, d, p);
    } else if d <= -1 {
      MulMono(d, -1, p);
    }
  }

  lemma MulMod(q: int, p: int)
    requires p > 0
    ensures (q * p) % p == 0 && (q * p) / p == q
  {
    DivModUnique(q * p, p, q, 0);
  }

  lemma ProductDiv(p: int, q: int)
    requires p > 0
    ensures (p * q) / p == q
  {
    assert p * q == q * p;
    MulMod(q, p);
  }

  /** A start position that is a multiple of 2^k. */
  predicate Aligned(i: int, k: nat) {
    i % Pow2(k) == 0
  }

  lemma AlignedZero(k: nat)
    ensures Aligned(0, k)
  {
    MulMod(0, Pow2(k));
  }

  lemma AlignedDown(i: int, k: nat, m: nat)
    requires m <= k && Aligned(i, k)
    ensures Aligned(i, m)
  {
    Pow2Add(k - m, m);
    DivMod(i, Pow2(k));
    var q := i / Pow2(k);
    assert i == (q * Pow2(k - m)) * Pow2(m);
    MulMod(q * Pow2(k - m), Pow2(m));
  }

  /** Adding or removing 2^k keeps k-alignment. */
  lemma AlignedStep(i: int, k: nat)
    requires Aligned(i, k)
    ensures Aligned(i + Pow2(k), k) && Aligned(i - Pow2(k), k)
  {
    DivMod(i, Pow2(k));
    var q := i / Pow2(k);
    assert i + Pow2(k) == (q + 1) * Pow2(k);
    assert i - Pow2(k) == (q - 1) * Pow2(k);
    MulMod(q + 1, Pow2(k));
    MulMod(q - 1, Pow2(k));
  }

  /** Even and odd multiples of p as multiples of 2 p. */
  lemma HalfStep(i: int, p: int)
    requires p > 0 && i % p == 0
    ensures i / p % 2 == 0 ==> i % (2 * p) == 0 && (i + p) % (2 * p) == p
    ensures i / p % 2 == 1 ==> i % (2 * p) == p && (i + p) % (2 * p) == 0 && (i - p) % (2 * p) == 0
  {
    DivMod(i, p);
    var h := i / p / 2;
    Doubled(i / p, h, p);
    if i / p % 2 == 0 {
      HalfMod(i, h, p, 0);
      HalfMod(i + p, h, p, p);
    } else {
      HalfMod(i, h, p, p);
      Doubled(2 * (h + 1), h + 1, p);
      HalfMod(i + p, h + 1, p, 0);
      HalfMod(i - p, h, p, 0);
    }
  }

  lemma Doubled(q: int, h: int, p: int)
    ensures q == 2 * h ==> q * p == 2 * h * p
    ensures q == 2 * h + 1 ==> q * p == 2 * h * p + p && 2 * (h + 1) * p == 2 * h * p + 2 * p
  {
  }

  lemma HalfMod(x: int, h: int, p: int, r: int)
    requires p > 0 && 0 <= r < 2 * p && x == 2 * h * p + r
    ensures x % (2 * p) == r
  {
    assert 2 * h * p == h * (2 * p);
    DivModUnique(x, 2 * p, h, r);
  }

  /** The bit (i >> k) & 1 tells on which side of its parent a k-aligned block lies. */
  lemma HalfBit(i: int, k: nat)
    requires Aligned(i, k)
    ensures (i / Pow2(k)) % 2 == 0 <==> Aligned(i, k + 1)
    ensures !Aligned(i, k + 1) ==> Aligned(i - Pow2(k), k + 1)
    ensures !Aligned(i, k + 1) ==> Aligned(i + Pow2(k), k + 1)
    ensures Aligned(i, k + 1) ==> !Aligned(i + Pow2(k), k + 1)
  {
    HalfStep(i, Pow2(k));
  }

  /** A run of s cells of size p on a grid contains a given cell or misses it. */
  lemma GridNested(i: int, j: int, s: int, p: int)
    requires p > 0 && s > 0 && i % p == 0 && j % p == 0
    ensures i + p <= j || j + s * p <= i || (j <= i && i + p <= j + s * p)
  {
    DivMod(i, p);
    DivMod(j, p);
    var q, r := i / p, j / p;
    assert (q + 1) * p == i + p;
    assert (r + s) * p == j + s * p;
    if q < r {
      MulMono(q + 1, r, p);
    } else if q >= r + s {
      MulMono(r + s, q, p);
    } else {
      MulMono(r, q, p);
      MulMono(q + 1, r + s, p);
    }
  }

  /** Aligned power-of-two ranges are nested or disjoint. */
  lemma Nested(i: int, k: nat, j: int, m: nat)
    requires k <= m && Aligned(i, k) && Aligned(j, m)
    ensures i + Pow2(k) <= j || j + Pow2(m) <= i || (j <= i && i + Pow2(k) <= j + Pow2(m))
  {
    AlignedDown(j, m, k);
    Pow2Add(m - k, k);
    GridNested(i, j, Pow2(m - k), Pow2(k));
  }
}
