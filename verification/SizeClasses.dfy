/** The size classes of alloc.c: buckets, page headers, and how many elements a page holds. */
module SizeClasses {
  import opened Powers
  import opened Logs

  const INTER_BUCKET_SPACE: int := 4

  // ----- Buckets -----

  function BucketToSize(bucket: nat): (r: nat)
    ensures r >= 1
  {
    var base := Pow2(bucket / 4);
    base + bucket % 4 * base / 4
  }

  /** The power of two a size rounds down to. */
  lemma SizeBase(size: nat)
    requires size >= 1
    ensures Pow2(Ilog(size / 2)) <= size < 2 * Pow2(Ilog(size / 2))
  {
    IlogBounds(size);
    assert Ilog(size) == 1 + Ilog(size / 2);
  }

  lemma QuotientNat(x: nat, p: int)
    requires p >= 1
    ensures x / p >= 0
  {
    DivMod(x, p);
    if x / p < 0 {
      MulMono(x / p, -1, p);
    }
  }

  /** x divided by p, rounded up. */
  function Ceil(x: nat, p: int): (q: nat)
    requires p >= 1
  {
    QuotientNat(x + p - 1, p);
    (x + p - 1) / p
  }

  function SizeToBucket(size: nat): (b: nat)
    requires size >= 1
  {
    SizeBase(size);
    var base := Pow2(Ilog(size / 2));
    Ilog(size / 2) * 4 + Ceil((size - base) * 4, base)
  }

  lemma CeilQuotient(x: nat, p: int, r: int)
    requires p >= 1
    ensures Ceil(x, p) <= r <==> x <= r * p
  {
    DivMod(x + p - 1, p);
    var q := (x + p - 1) / p;
    assert (q - 1) * p == q * p - p;
    if q <= r {
      MulMono(q, r, p);
    } else {
      MulMono(r, q - 1, p);
    }
  }

  /** r is the least number of quarters of p that reach o. */
  ghost predicate Quarters(o: int, p: int, r: nat) {
    forall k: nat :: r <= k <==> 4 * o <= k * p
  }

  /** The quarter steps above a size's base that reach it. */
  lemma Steps(size: nat) returns (e: nat, p: int, r: nat)
    requires size >= 1
    ensures p == Pow2(e) && p <= size < 2 * p && SizeToBucket(size) == 4 * e + r && r <= 4
    ensures Quarters(size - p, p, r)
  {
    SizeBase(size);
    e := Ilog(size / 2);
    p := Pow2(e);
    r := Ceil((size - p) * 4, p);
    forall k: nat ensures r <= k <==> 4 * (size - p) <= k * p {
      CeilQuotient((size - p) * 4, p, k);
    }
    assert r <= 4 <==> 4 * (size - p) <= 4 * p;
  }

  /** A bucket lies between two powers of two. */
  lemma BucketRange(b: nat)
    ensures Pow2(b / 4) <= BucketToSize(b) < 2 * Pow2(b / 4)
  {
    var p := Pow2(b / 4);
    MulMono(0, b % 4, p);
    MulMono(b % 4, 3, p);
  }

  /** Between two powers of two the buckets are a quarter of the smaller one apart, fractions cut off. */
  lemma BucketSeries(e: nat, r: nat)
    requires r < 4
    ensures 4 * BucketToSize(4 * e + r) <= (4 + r) * Pow2(e) < 4 * BucketToSize(4 * e + r) + 4
    ensures e >= 2 ==> 4 * BucketToSize(4 * e + r) == (4 + r) * Pow2(e)
  {
    hide Pow2, BucketToSize;
    BucketAt(e, r);
    QuarterSplit(Pow2(e), r, r * Pow2(e) / 4);
    if e >= 2 {
      FourPowers(e - 2);
      QuarterWhole(r * Pow2(e - 2));
      assert r * Pow2(e) == 4 * (r * Pow2(e - 2));
    }
  }

  lemma BucketAt(e: nat, r: nat)
    requires r < 4
    ensures BucketToSize(4 * e + r) == Pow2(e) + r * Pow2(e) / 4
  {
    hide Pow2;
    assert (4 * e + r) / 4 == e && (4 * e + r) % 4 == r;
  }

  lemma QuarterSplit(p: nat, r: nat, q: nat)
    requires q == r * p / 4
    ensures 4 * (p + q) <= (4 + r) * p < 4 * (p + q) + 4
  {
    DivMod(r * p, 4);
    assert (4 + r) * p == 4 * p + r * p;
  }

  lemma QuarterWhole(x: nat)
    ensures 4 * x / 4 == x
  {
  }

  lemma FourPowers(e: nat)
    ensures Pow2(e + 2) == 4 * Pow2(e)
  {
  }

  /** The Galois connection: a size's bucket is the least one whose size reaches it. */
  lemma BucketGalois(s: nat, b: nat)
    requires s >= 1
    ensures SizeToBucket(s) <= b <==> s <= BucketToSize(b)
  {
    hide BucketToSize, SizeToBucket, Pow2;
    var e, p, r := Steps(s);
    BucketRange(b);
    var f := b / 4;
    if f < e {
      Pow2Mono(f, e);
    } else if f > e {
      Pow2Mono(e, f);
    } else {
      assert r <= b % 4 <==> 4 * (s - p) <= b % 4 * p;
      SameBase(b);
    }
  }

  lemma SameBase(b: nat)
    ensures BucketToSize(b) == Pow2(b / 4) + b % 4 * Pow2(b / 4) / 4
  {
  }

  /** A larger bucket holds larger elements. */
  lemma BucketMono(b: nat, c: nat)
    requires b <= c
    ensures BucketToSize(b) <= BucketToSize(c)
  {
    BucketGalois(BucketToSize(b), b);
    BucketGalois(BucketToSize(b), c);
  }

  /** Rounding a request up to its bucket wastes less than a quarter of the request. */
  lemma BucketWaste(s: nat)
    requires s >= 1
    ensures s <= BucketToSize(SizeToBucket(s))
    ensures 4 * (BucketToSize(SizeToBucket(s)) - s) < s
  {
    hide BucketToSize, SizeToBucket, Pow2;
    BucketGalois(s, SizeToBucket(s));
    var e, p, r := Steps(s);
    BucketParts(e, r);
    Pow2Next(e);
    if r > 0 {
      assert r <= r - 1 <==> 4 * (s - p) <= (r - 1) * p;
      assert r * p == (r - 1) * p + p;
    }
  }

  lemma Pow2Next(e: nat)
    ensures Pow2(e + 1) == 2 * Pow2(e)
  {
  }

  // ----- Alignment -----

  lemma AlignedBelow(i: int, k: nat)
    requires Aligned(i, k) && 0 <= i < Pow2(k)
    ensures i == 0
  {
  }

  lemma AlignedHalf(i: int, k: nat)
    requires Aligned(i, k) && 0 <= i < Pow2(k + 1)
    ensures i == 0 || i == Pow2(k)
  {
    if i >= Pow2(k) {
      AlignedStep(i, k);
      AlignedBelow(i - Pow2(k), k);
    }
  }

  /** An aligned positive size is at least its alignment. */
  lemma AlignedAtLeast(s: nat, j: nat)
    requires s >= 1 && Aligned(s, j)
    ensures s >= Pow2(j)
  {
    if s < Pow2(j) {
      AlignedBelow(s, j);
    }
  }

  lemma QuarterAligned(e: nat, r: nat, j: nat)
    requires j + 2 <= e
    ensures r * Pow2(e) / 4 == r * Pow2(e - 2) && Aligned(r * Pow2(e) / 4, j)
  {
    assert Pow2(e) == 4 * Pow2(e - 2);
    assert r * Pow2(e) == 4 * (r * Pow2(e - 2));
    MulMod(r, Pow2(e - 2));
    AlignedDown(r * Pow2(e - 2), e - 2, j);
  }

  lemma SumAligned(a: int, b: int, j: nat)
    requires Aligned(a, j) && Aligned(b, j)
    ensures Aligned(a + b, j) && Aligned(a - b, j)
  {
    var p := Pow2(j);
    DivMod(a, p);
    DivMod(b, p);
    assert (a / p + b / p) * p == a + b;
    assert (a / p - b / p) * p == a - b;
    MulMod(a / p + b / p, p);
    MulMod(a / p - b / p, p);
  }

  lemma ScaledAligned(i: int, a: int, j: nat)
    requires Aligned(a, j)
    ensures Aligned(i * a, j)
  {
    var p := Pow2(j);
    DivMod(a, p);
    assert i * a == (i * (a / p)) * p;
    MulMod(i * (a / p), p);
  }

  lemma PowerAligned(e: nat, j: nat)
    requires j <= e
    ensures Aligned(Pow2(e), j)
  {
    assert 1 * Pow2(e) == Pow2(e);
    MulMod(1, Pow2(e));
    AlignedDown(Pow2(e), e, j);
  }

  /** The bucket of an aligned size keeps the alignment: its own size and its header power are aligned too. */
  lemma BucketAligned(s: nat, j: nat)
    requires s >= 1 && Aligned(s, j)
    ensures Aligned(BucketToSize(SizeToBucket(s)), j) && j <= SizeToBucket(s) / 4
  {
    hide BucketToSize, SizeToBucket, Pow2, Aligned, Quarters, QuarterOf;
    var e, p, r := Steps(s);
    AlignedAtLeast(s, j);
    if e < j {
      Pow2Mono(e, j);
    } else {
      PowerAligned(e, j);
      SumAligned(s, p, j);
      BucketParts(e, r);
      if r == 4 {
        PowerAligned(e + 1, j);
      } else {
        QuarterStep(s, j, e, r);
        SumAligned(p, QuarterOf(r, p), j);
      }
    }
  }

  function QuarterOf(r: nat, p: int): int {
    r * p / 4
  }

  lemma BucketParts(e: nat, r: nat)
    requires r <= 4
    ensures BucketToSize(4 * e + r) == if r == 4 then Pow2(e + 1) else Pow2(e) + QuarterOf(r, Pow2(e))
    ensures (4 * e + r) / 4 >= e
  {
    assert r == 4 ==> (4 * e + r) / 4 == e + 1 && (4 * e + r) % 4 == 0;
    assert r < 4 ==> (4 * e + r) / 4 == e && (4 * e + r) % 4 == r;
  }

  lemma QuarterStep(s: nat, j: nat, e: nat, r: nat)
    requires j <= e && Pow2(e) <= s < 2 * Pow2(e) && Aligned(s - Pow2(e), j)
    requires Quarters(s - Pow2(e), Pow2(e), r)
    ensures Aligned(QuarterOf(r, Pow2(e)), j)
  {
    hide Aligned, Pow2;
    var o := s - Pow2(e);
    AlignedZero(j);
    if e == j {
      AlignedBelow(o, j);
      assert 4 * o <= 0 * Pow2(e);
    } else if e == j + 1 {
      Pow2Next(j);
      AlignedHalf(o, j);
      PowerAligned(j, j);
      assert r <= 2 <==> 4 * o <= 2 * Pow2(e);
      assert r <= 1 <==> 4 * o <= 1 * Pow2(e);
      assert r <= 0 <==> 4 * o <= 0 * Pow2(e);
    } else {
      QuarterAligned(e, r, j);
    }
  }
}
