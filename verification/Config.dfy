/** How the bounds and the precision asked for determine a histogram's layout. */
module Config {
  import opened Bits
  import opened Layouts
  import opened Wrappers

  datatype CreationError =
    | LowIsZero
    | LowExceedsMax
    | HighLessThanTwiceLow
    | SigFigExceedsMax
    | CannotRepresentSigFigBeyondLow

  function Pow10(n: nat): (p: nat)
    ensures p >= 1
  {
    if n == 0 then 1 else 10 * Pow10(n - 1)
  }

  /** Floor of the binary logarithm. */
  function FloorLog2(x: nat): nat
    requires x >= 1
  {
    BitLen(x) - 1
  }

  /** Ceiling of the binary logarithm. */
  function CeilLog2(x: nat): nat
    requires x >= 1
  {
    BitLen(x - 1)
  }

  function LayoutFor(low: nat, sigfig: nat): Layout
    requires low >= 1
  {
    var largest := 2 * Pow10(sigfig);
    var magnitude := CeilLog2(largest);
    TwoSubBucketsAtLeast(sigfig);
    Layout(FloorLog2(low), magnitude - 1)
  }

  lemma TwoSubBucketsAtLeast(sigfig: nat)
    ensures CeilLog2(2 * Pow10(sigfig)) >= 1
  {
  }

  function CheckBounds(low: U64, high: U64, sigfig: nat): Result<Layout, CreationError> {
    if low < 1 then Failure(LowIsZero)
    else if low > U64_MAX / 2 then Failure(LowExceedsMax)
    else if high < 2 * low then Failure(HighLessThanTwiceLow)
    else if sigfig > 5 then Failure(SigFigExceedsMax)
    else
      var g := LayoutFor(low, sigfig);
      if g.unit + (g.halfMag + 1) > 63 then Failure(CannotRepresentSigFigBeyondLow) else Success(g)
  }

  /** The parameters of an existing histogram. */
  ghost predicate Configured(low: nat, sigfig: nat, g: Layout) {
    && low >= 1
    && sigfig <= 5
    && g == LayoutFor(low, sigfig)
    && g.Valid()
  }

  /** The unit is the largest power of two not above `low`. */
  lemma UnitOfLow(low: nat, sigfig: nat)
    requires low >= 1
    ensures Pow2(LayoutFor(low, sigfig).unit) <= low < 2 * Pow2(LayoutFor(low, sigfig).unit)
  {
    BitLenBounds(low);
  }

  /** Half a bucket has room for the decimal digits asked for, and the least such power of two is used. */
  lemma HalfCoversDigits(low: nat, sigfig: nat)
    requires low >= 1
    ensures Pow10(sigfig) <= LayoutFor(low, sigfig).Half() < 2 * Pow10(sigfig)
  {
    hide Pow10;
    var x := 2 * Pow10(sigfig) - 1;
    BitLenBounds(x);
    TwoSubBucketsAtLeast(sigfig);
  }

  /** The number of sub-buckets for each precision, and none of them depends on `low`. */
  lemma SubBucketCounts(low: nat, sigfig: nat)
    requires low >= 1
    requires sigfig <= 5
    ensures LayoutFor(low, sigfig).SubBuckets() == [2, 32, 0x100, 0x800, 0x8000, 0x4_0000][sigfig]
  {
    hide BitLen;
    PowersOfTen();
    Powers();
    var largest := [2, 20, 200, 2_000, 20_000, 200_000][sigfig];
    var magnitude := [1, 5, 8, 11, 15, 18][sigfig];
    assert 2 * Pow10(sigfig) == largest;
    BitLenUnique(largest - 1, magnitude);
    TwoSubBucketsAtLeast(sigfig);
  }

  lemma PowersOfTen()
    ensures Pow10(0) == 1 && Pow10(1) == 10 && Pow10(2) == 100
    ensures Pow10(3) == 1_000 && Pow10(4) == 10_000 && Pow10(5) == 100_000
  {
  }

  lemma Powers()
    ensures Pow2(0) == 1 && Pow2(1) == 2 && Pow2(4) == 16 && Pow2(5) == 32 && Pow2(7) == 0x80 && Pow2(8) == 0x100
    ensures Pow2(10) == 0x400 && Pow2(11) == 0x800 && Pow2(14) == 0x4000 && Pow2(15) == 0x8000
    ensures Pow2(17) == 0x2_0000 && Pow2(18) == 0x4_0000
  {
    assert Pow2(3) == 8;
    assert Pow2(6) == 64;
    assert Pow2(9) == 0x200;
    assert Pow2(12) == 0x1000;
    assert Pow2(13) == 0x2000;
    assert Pow2(16) == 0x1_0000;
  }

  /** Which parameters are refused, and what for. */
  lemma RefusedBounds(low: U64, high: U64, sigfig: nat)
    ensures
      var r := CheckBounds(low, high, sigfig);
      && (r == Failure(LowIsZero) <==> low == 0)
      && (r == Failure(LowExceedsMax) <==> low >= 0x8000_0000_0000_0000)
      && (r == Failure(HighLessThanTwiceLow) <==> high < 2 * low < 0x1_0000_0000_0000_0000)
      && (r == Failure(SigFigExceedsMax) <==> 2 <= 2 * low <= high && sigfig > 5)
      && (r == Failure(CannotRepresentSigFigBeyondLow) <==>
            && 2 <= 2 * low <= high && sigfig <= 5
            && low * LayoutFor(low, sigfig).SubBuckets() >= 0x1_0000_0000_0000_0000)
  {
    hide LayoutFor, BitLen, Layout.SubBuckets;
    if low >= 1 {
      UnitOfLow(low, sigfig);
      TooManyDigits(low, LayoutFor(low, sigfig));
    }
  }

  /** A number times a power of two exceeds a word exactly if the lengths do. */
  lemma TooManyDigits(low: nat, g: Layout)
    requires Pow2(g.unit) <= low < 2 * Pow2(g.unit)
    ensures low * g.SubBuckets() >= 0x1_0000_0000_0000_0000 <==> g.BaseBits() > 63
  {
    hide Pow2, Shl;
    Pow2Values();
    ProductBounds(low, g.unit, g.halfMag + 1);
    if g.BaseBits() > 63 {
      Pow2Monotone(64, g.BaseBits());
    } else {
      Pow2Monotone(g.BaseBits() + 1, 64);
    }
  }

  lemma ProductBounds(x: nat, n: nat, k: nat)
    requires Pow2(n) <= x < 2 * Pow2(n)
    ensures Pow2(n + k) <= x * Pow2(k) < Pow2(n + k + 1)
  {
    hide Pow2, Shl;
    Pow2Step(n);
    Pow2Product(n, k);
    Pow2Product(n + 1, k);
    Ordered(Pow2(n), x, Pow2(n + 1), Pow2(k));
  }

  lemma Ordered(a: nat, b: nat, c: nat, p: nat)
    requires a <= b < c && p >= 1
    ensures a * p <= b * p < c * p
  {
  }

  lemma LargestSize(sigfig: nat)
    requires sigfig <= 5
    ensures CeilLog2(2 * Pow10(sigfig)) <= 18
  {
    assert Pow10(5) == 100_000;
    Pow10Monotone(sigfig, 5);
    Pow2Values();
    assert Pow2(18) == 2 * Pow2(17);
    BitLenAtMost(2 * Pow10(sigfig) - 1, 18);
  }

  lemma {:induction false} Pow10Monotone(a: nat, b: nat)
    requires a <= b
    ensures Pow10(a) <= Pow10(b)
  {
    if a < b {
      Pow10Monotone(a, b - 1);
    }
  }

  /** Parameters are accepted exactly when they leave room for the digits in a 64-bit word. */
  lemma AcceptedBounds(low: U64, high: U64, sigfig: nat)
    ensures CheckBounds(low, high, sigfig).Success? <==>
      && 1 <= low
      && 2 * low <= high
      && sigfig <= 5
      && LayoutFor(low, sigfig).BaseBits() <= 63
    ensures CheckBounds(low, high, sigfig).Success? ==>
      Configured(low, sigfig, CheckBounds(low, high, sigfig).value)
  {
    hide Pow10, CeilLog2, FloorLog2;
    if low >= 1 && sigfig <= 5 {
      LargestSize(sigfig);
    }
  }

  /** The precision promised at construction: less than the unit asked for, or one part in 10^sigfig. */
  ghost predicate Precise(low: nat, sigfig: nat, g: Layout)
    requires g.Valid()
  {
    forall value: U64 :: g.EquivalentRange(value) <= Max(low, value / Pow10(sigfig))
  }

  /**
    However the unit magnitude was computed, the precision promised is kept for all values if and
    only if one unit is not larger than the unit asked for.
   */
  lemma PreciseIffUnitFits(low: nat, sigfig: nat, g: Layout)
    requires g.Valid()
    requires low >= 1
    requires Pow10(sigfig) <= g.Half()
    ensures Precise(low, sigfig, g) <==> Pow2(g.unit) <= low
  {
    hide Layout.BucketFor, Layout.EquivalentRange, Pow10, Pow2, Layout.Half;
    if Pow2(g.unit) <= low {
      forall value: U64 ensures g.EquivalentRange(value) <= Max(low, value / Pow10(sigfig)) {
        RangeOfValue(low, sigfig, g, value);
      }
    } else {
      SmallestRange(g);
      assert g.EquivalentRange(0) > Max(low, 0 / Pow10(sigfig));
    }
  }

  lemma SmallestRange(g: Layout)
    requires g.Valid()
    ensures g.EquivalentRange(0) == Pow2(g.unit)
  {
    hide Layout.BucketFor, Pow2;
    var b := g.BucketFor(0);
    assert b == 0;
  }

  lemma RangeOfValue(low: nat, sigfig: nat, g: Layout, value: U64)
    requires g.Valid()
    requires Pow2(g.unit) <= low
    requires Pow10(sigfig) <= g.Half()
    ensures g.EquivalentRange(value) <= Max(low, value / Pow10(sigfig))
  {
    hide Layout.BucketFor, Pow10, Shl, Shr, Pow2;
    var b := g.BucketFor(value);
    var r, p := g.EquivalentRange(value), Pow10(sigfig);
    if b > 0 {
      SubBucketBounds(g, value);
      var s := g.SubBucketFor(value, b);
      ShlIsProduct(s, b + g.unit);
      ProductOrder(p, s, r);
      QuotientAtLeast(value, p, r);
    }
  }

  /** With the exact logarithm, the promise holds for every accepted configuration. */
  lemma RangeIsPrecise(low: nat, sigfig: nat, g: Layout, value: U64)
    requires Configured(low, sigfig, g)
    ensures g.EquivalentRange(value) <= Max(low, value / Pow10(sigfig))
  {
    hide Layout.BucketFor, Layout.EquivalentRange, LayoutFor, Pow10, Pow2;
    UnitOfLow(low, sigfig);
    HalfCoversDigits(low, sigfig);
    RangeOfValue(low, sigfig, g, value);
  }

  /** A unit magnitude rounded up, as for a low bound of 2^62 - 1, gives the promise away. */
  lemma RoundedUnitTooWide()
    ensures Layout(62, 0).Valid()
    ensures !Precise(0x3FFF_FFFF_FFFF_FFFF, 0, Layout(62, 0))
  {
    hide Precise;
    assert Pow10(0) == 1;
    Pow2Values();
    Pow2Step(62);
    PreciseIffUnitFits(0x3FFF_FFFF_FFFF_FFFF, 0, Layout(62, 0));
  }

  lemma ProductOrder(a: nat, b: nat, r: nat)
    requires a <= b
    ensures a * r <= b * r
  {
  }

  lemma QuotientAtLeast(x: nat, p: nat, r: nat)
    requires p >= 1
    requires p * r <= x
    ensures r <= x / p
  {
    if x / p < r {
      ProductOrder(x / p + 1, r, p);
    }
  }
}
