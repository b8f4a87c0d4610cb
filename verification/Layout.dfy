/**
  The index arithmetic of a histogram: how a 64-bit value is mapped to a counts index and
  back, and which values share an index. A layout is fixed by two numbers; everything else
  that the program caches (masks, sub-bucket counts, leading-zero base) follows from them.
 */
module Layouts {
  import opened Bits

  datatype Layout = Layout(unit: nat, halfMag: nat) {
    /** What construction guarantees about the unit magnitude and the sub-bucket magnitude. */
    predicate Valid() {
      halfMag <= 17 && unit + halfMag + 1 <= 63
    }

    function Half(): (n: nat)
      ensures n >= 1
    {
      Pow2(halfMag)
    }

    function SubBuckets(): nat {
      Pow2(halfMag + 1)
    }

    /** Bits used by the largest value of bucket 0. */
    function BaseBits(): nat {
      unit + halfMag + 1
    }

    function LeadingZeroBase(): int {
      64 - unit - (halfMag + 1)
    }

    function SubBucketMask(): nat {
      Shl(SubBuckets() - 1, unit)
    }

    function UnitMask(): nat {
      Pow2(unit) - 1
    }

    /** Lowest bucket whose sub-buckets can represent `value`. */
    function BucketFor(value: U64): (b: nat)
      requires Valid()
      ensures BaseBits() + b <= 64
      ensures value < Pow2(BaseBits() + b)
      ensures b > 0 ==> Pow2(BaseBits() + b - 1) <= value
    {
      BucketBits(this, value);
      LeadingZeroBase() - LeadingZeros(BitOr(value, SubBucketMask()))
    }

    function SubBucketFor(value: U64, bucket: nat): nat {
      Shr(value, bucket + unit)
    }

    /** The counts index of a value. */
    function IndexFor(value: U64): nat
      requires Valid()
    {
      var bucket := BucketFor(value);
      var subBucket := SubBucketFor(value, bucket);
      var bucketBase := Shl(bucket + 1, halfMag);
      var offset := subBucket - Half();
      IndexNonNegative(this, value);
      bucketBase + offset
    }

    /** A shifted sub-bucket number; bits pushed out of the 64-bit word are lost. */
    function ValueFromLoc(bucket: nat, subBucket: nat): U64 {
      Shl(subBucket, bucket + unit) % 0x1_0000_0000_0000_0000
    }

    /** The value that a counts index stands for: the lowest one recorded there. */
    function ValueFor(index: nat): U64 {
      var bucket := Shr(index, halfMag) - 1;
      var subBucket := BitAnd(index, Half() - 1) + Half();
      if bucket < 0 then ValueFromLoc(0, subBucket - Half()) else ValueFromLoc(bucket, subBucket)
    }

    function LowestEquivalent(value: U64): U64
      requires Valid()
    {
      var bucket := BucketFor(value);
      ValueFromLoc(bucket, SubBucketFor(value, bucket))
    }

    function EquivalentRange(value: U64): (w: nat)
      requires Valid()
      ensures w >= 1
    {
      Pow2(unit + BucketFor(value))
    }

    function NextNonEquivalent(value: U64): U64
      requires Valid()
    {
      Min(U64_MAX, LowestEquivalent(value) + EquivalentRange(value))
    }

    function HighestEquivalent(value: U64): U64
      requires Valid()
    {
      if value == U64_MAX then U64_MAX else NextNonEquivalent(value) - 1
    }

    predicate Equivalent(v: U64, w: U64)
      requires Valid()
    {
      LowestEquivalent(v) == LowestEquivalent(w)
    }

    /** Bins used by a number of buckets: one half bucket each, and one for the lower half of bucket 0. */
    function NumBins(buckets: nat): nat {
      Shl(buckets + 1, halfMag)
    }

    // ---- the same map over unbounded numbers ----

    function Level(index: nat): nat {
      if Shr(index, halfMag) == 0 then 0 else Shr(index, halfMag) - 1
    }

    /** Position in the bucket, counted from the bucket's own first sub-bucket. */
    function Slot(index: nat): (s: nat)
      ensures s < 2 * Half()
      ensures Level(index) > 0 ==> Half() <= s
      ensures index == Shl(Level(index), halfMag) + s
    {
      ShlAdd(Shr(index, halfMag), 1, halfMag);
      if Shr(index, halfMag) > 0 then
        ShlAdd(Level(index), 1, halfMag);
        index - Shl(Level(index), halfMag)
      else
        ShlZero(halfMag);
        index
    }

    /** Number of values in the class with this index. */
    function Width(index: nat): (w: nat)
      ensures w >= 1
    {
      Pow2(Level(index) + unit)
    }

    /** First number of the class with this index, before any wrap-around. */
    function Start(index: nat): nat {
      Shl(Slot(index), Level(index) + unit)
    }
  }

  // ---- definedness of the functions above ----

  lemma MaskLength(g: Layout)
    requires g.Valid()
    ensures g.SubBucketMask() <= U64_MAX
    ensures BitLen(g.SubBucketMask()) == g.BaseBits()
  {
    hide Shl;
    ShlAdd(g.SubBuckets() - 1, 1, g.unit);
    Pow2Add(g.halfMag + 1, g.unit);
    Pow2Add(g.halfMag, g.unit);
    ShlOrder(Pow2(g.halfMag), g.SubBuckets() - 1, g.unit);
    BitLenUnique(g.SubBucketMask(), g.BaseBits());
    Pow2Monotone(g.BaseBits(), 64);
    Pow2Values();
  }

  lemma BucketBits(g: Layout, value: U64)
    requires g.Valid()
    ensures g.SubBucketMask() <= U64_MAX
    ensures BitOr(value, g.SubBucketMask()) <= U64_MAX
    ensures var b := g.LeadingZeroBase() - LeadingZeros(BitOr(value, g.SubBucketMask()));
            && 0 <= b
            && g.BaseBits() + b <= 64
            && value < Pow2(g.BaseBits() + b)
            && (b > 0 ==> Pow2(g.BaseBits() + b - 1) <= value)
  {
    hide Pow2, Shl, Layout.SubBucketMask, BitOr;
    var mask := g.SubBucketMask();
    MaskLength(g);
    BitOrOfWords(value, mask);
    BitLenOr(value, mask);
    BitLenBounds(value);
    BitLenOfWord(value);
    Pow2Monotone(BitLen(value), Max(BitLen(value), g.BaseBits()));
  }

  /** A value's sub-bucket: below the sub-bucket count, and in the upper half past bucket 0. */
  lemma SubBucketBounds(g: Layout, value: U64)
    requires g.Valid()
    ensures var b := g.BucketFor(value);
            var s := g.SubBucketFor(value, b);
            && s < 2 * g.Half()
            && (b > 0 ==> g.Half() <= s)
            && Shl(s, b + g.unit) <= value < Shl(s, b + g.unit) + Pow2(b + g.unit)
  {
    hide Layout.BucketFor, Shl, Shr, Pow2;
    var b := g.BucketFor(value);
    var w := b + g.unit;
    var s := g.SubBucketFor(value, b);
    Pow2Step(g.halfMag);
    ShlAdd(s, 1, w);
    Pow2Add(g.halfMag + 1, w);
    ShlOrder(s, 2 * g.Half(), w);
    if b > 0 {
      Pow2Add(g.halfMag, w);
      ShlOrder(g.Half(), s + 1, w);
    }
  }

  lemma IndexNonNegative(g: Layout, value: U64)
    requires g.Valid()
    ensures var b := g.BucketFor(value);
            Shl(b + 1, g.halfMag) + g.SubBucketFor(value, b) - g.Half()
            == Shl(b, g.halfMag) + g.SubBucketFor(value, b) >= 0
  {
    ShlAdd(g.BucketFor(value), 1, g.halfMag);
  }

  // ---- classes of equivalent values ----

  /** An index is determined by its level and slot. */
  lemma LevelAt(g: Layout, index: nat, level: nat, slot: nat)
    requires index == Shl(level, g.halfMag) + slot
    requires slot < 2 * g.Half()
    requires level > 0 ==> g.Half() <= slot
    ensures g.Level(index) == level
    ensures g.Slot(index) == slot
    ensures g.Start(index) == Shl(slot, level + g.unit)
  {
    hide Shl, Shr, Pow2;
    ShlAdd(level, 1, g.halfMag);
    ShlAdd(level + 1, 1, g.halfMag);
    ShlZero(g.halfMag);
    if slot < g.Half() {
      ShrUnique(index, g.halfMag, level);
    } else {
      ShrUnique(index, g.halfMag, level + 1);
    }
  }

  /** The class of a value's index holds the value. */
  lemma StartOfIndexFor(g: Layout, value: U64)
    requires g.Valid()
    ensures var i := g.IndexFor(value);
            && g.Level(i) == g.BucketFor(value)
            && g.Start(i) <= value < g.Start(i) + g.Width(i)
            && g.Start(i) == Shl(g.SubBucketFor(value, g.BucketFor(value)), g.BucketFor(value) + g.unit)
  {
    hide Shl, Shr, Pow2, Layout.BucketFor;
    var b := g.BucketFor(value);
    IndexNonNegative(g, value);
    SubBucketBounds(g, value);
    LevelAt(g, g.IndexFor(value), b, g.SubBucketFor(value, b));
  }

  /** Classes follow each other without gap, across bucket borders too. */
  lemma StartOfNext(g: Layout, index: nat)
    ensures g.Start(index + 1) == g.Start(index) + g.Width(index)
    ensures g.Width(index + 1) == g.Width(index) || g.Width(index + 1) == 2 * g.Width(index)
  {
    hide Shl, Shr;
    var l, s := g.Level(index), g.Slot(index);
    ShlAdd(s, 1, l + g.unit);
    if s + 1 < 2 * g.Half() {
      LevelAt(g, index + 1, l, s + 1);
    } else {
      ShlAdd(l, 1, g.halfMag);
      LevelAt(g, index + 1, l + 1, g.Half());
      ShlTwice(g.Half(), 1, l + g.unit);
      ShlByOne(g.Half());
    }
  }

  lemma ShlByOne(x: nat)
    ensures Shl(x, 1) == 2 * x
  {
  }

  lemma {:induction false} StartMonotone(g: Layout, i: nat, j: nat)
    requires i <= j
    ensures g.Start(i) <= g.Start(j)
    ensures i < j ==> g.Start(i) + g.Width(i) <= g.Start(j)
    decreases j - i
  {
    hide Layout.Start, Layout.Width;
    if i < j {
      StartOfNext(g, i);
      StartMonotone(g, i + 1, j);
    }
  }

  /** Indexes and values are in a Galois connection: `Start` is adjoint to `IndexFor`. */
  lemma IndexGalois(g: Layout, i: nat, value: U64)
    requires g.Valid()
    ensures i <= g.IndexFor(value) <==> g.Start(i) <= value
  {
    hide Layout.Start, Layout.Width, Layout.IndexFor;
    StartOfIndexFor(g, value);
    if i <= g.IndexFor(value) {
      StartMonotone(g, i, g.IndexFor(value));
    } else {
      StartMonotone(g, g.IndexFor(value), i);
    }
  }

  lemma IndexUnique(g: Layout, i: nat, value: U64)
    requires g.Valid()
    requires g.Start(i) <= value < g.Start(i) + g.Width(i)
    ensures g.IndexFor(value) == i
  {
    hide Layout.Start, Layout.Width, Layout.IndexFor;
    IndexGalois(g, i, value);
    IndexGalois(g, i + 1, value);
    StartOfNext(g, i);
  }

  lemma IndexMonotone(g: Layout, v: U64, w: U64)
    requires g.Valid()
    requires v <= w
    ensures g.IndexFor(v) <= g.IndexFor(w)
  {
    hide Layout.Start, Layout.Width, Layout.IndexFor;
    StartOfIndexFor(g, v);
    IndexGalois(g, g.IndexFor(v), w);
  }

  /** The end of the range of a number of buckets is a power of two. */
  lemma StartOfNumBins(g: Layout, buckets: nat)
    requires buckets >= 1
    ensures g.Start(g.NumBins(buckets)) == Pow2(g.BaseBits() + buckets - 1)
  {
    hide Shl, Shr, Pow2;
    ShlAdd(buckets, 1, g.halfMag);
    LevelAt(g, g.NumBins(buckets), buckets, g.Half());
    Pow2Add(g.halfMag, buckets + g.unit);
  }

  /** A number of buckets covers exactly the values whose bucket is among them. */
  lemma BucketsCover(g: Layout, buckets: nat, value: U64)
    requires g.Valid()
    requires buckets >= 1
    ensures g.IndexFor(value) < g.NumBins(buckets) <==> g.BucketFor(value) < buckets
    ensures g.IndexFor(value) < g.NumBins(buckets) <==> value < Pow2(g.BaseBits() + buckets - 1)
  {
    hide Layout.Start, Layout.Width, Layout.IndexFor, Layout.BucketFor, Layout.NumBins, Pow2;
    StartOfNumBins(g, buckets);
    IndexGalois(g, g.NumBins(buckets), value);
    var b := g.BucketFor(value);
    if b < buckets {
      Pow2Monotone(g.BaseBits() + b, g.BaseBits() + buckets - 1);
    } else {
      Pow2Monotone(g.BaseBits() + buckets - 1, g.BaseBits() + b - 1);
    }
  }

  /** Largest number of buckets that any value needs. */
  function MaxBuckets(g: Layout): int {
    65 - g.BaseBits()
  }

  lemma BinsFitInWord(g: Layout, buckets: nat)
    requires g.Valid()
    requires 1 <= buckets <= MaxBuckets(g)
    ensures g.Start(g.NumBins(buckets)) <= U64_MAX + 1
    ensures g.NumBins(buckets) <= 65 * 0x2_0000
  {
    hide Layout.Start, Pow2, Shl;
    StartOfNumBins(g, buckets);
    Pow2Monotone(g.BaseBits() + buckets - 1, 64);
    Pow2Values();
    BinsBound(g.halfMag, buckets + 1);
  }

  lemma BinsBound(k: nat, n: nat)
    requires k <= 17
    requires n <= 65
    ensures Shl(n, k) <= 65 * 0x2_0000
  {
    hide Shl, Pow2;
    ShlIsProduct(n, k);
    Pow2Monotone(k, 17);
    Pow2Values();
  }

  /** The value computed with masks and shifts is the class start, cut to 64 bits. */
  lemma ValueForIsStart(g: Layout, index: nat)
    ensures g.ValueFor(index) == g.Start(index) % 0x1_0000_0000_0000_0000
    ensures g.Start(index) <= U64_MAX ==> g.ValueFor(index) == g.Start(index)
  {
    hide Shl, Shr, Pow2, BitAnd, LowBits;
    AndLowMask(index, g.halfMag);
    LowBitsBound(index, g.halfMag);
    ShlZero(g.halfMag);
    if Shr(index, g.halfMag) > 0 {
      ShlAdd(Shr(index, g.halfMag) - 1, 1, g.halfMag);
    }
    assert g.ValueFor(index) == g.ValueFromLoc(g.Level(index), g.Slot(index));
  }

  // ---- main results ----

  /** Every index of a histogram is the index of the value it stands for. */
  lemma IndexOfValueFor(g: Layout, buckets: nat, i: nat)
    requires g.Valid()
    requires 1 <= buckets <= MaxBuckets(g)
    requires i < g.NumBins(buckets)
    ensures g.ValueFor(i) == g.Start(i)
    ensures g.IndexFor(g.ValueFor(i)) == i
  {
    hide Layout.Start, Layout.Width, Layout.IndexFor, Layout.ValueFor, Layout.NumBins;
    BinsFitInWord(g, buckets);
    StartMonotone(g, i, g.NumBins(buckets));
    ValueForIsStart(g, i);
    IndexUnique(g, i, g.ValueFor(i));
  }

  lemma ValueForIncreasing(g: Layout, buckets: nat, i: nat, j: nat)
    requires g.Valid()
    requires 1 <= buckets <= MaxBuckets(g)
    requires i < j < g.NumBins(buckets)
    ensures g.ValueFor(i) < g.ValueFor(j)
  {
    hide Layout.Start, Layout.Width, Layout.IndexFor, Layout.ValueFor, Layout.NumBins;
    IndexOfValueFor(g, buckets, i);
    IndexOfValueFor(g, buckets, j);
    StartMonotone(g, i, j);
  }

  /** The round trip from a value through its index ends at the lowest equivalent value. */
  lemma ValueOfIndexFor(g: Layout, value: U64)
    requires g.Valid()
    ensures g.ValueFor(g.IndexFor(value)) == g.LowestEquivalent(value) == g.Start(g.IndexFor(value))
    ensures g.LowestEquivalent(value) <= value
    ensures g.EquivalentRange(value) == g.Width(g.IndexFor(value))
    ensures value < g.LowestEquivalent(value) + g.EquivalentRange(value)
  {
    hide Layout.IndexFor, Layout.ValueFor, Layout.BucketFor, Shl, Shr, Pow2;
    StartOfIndexFor(g, value);
    ValueForIsStart(g, g.IndexFor(value));
  }

  /** Two values are counted together if and only if they are equivalent. */
  lemma EquivalentIffSameIndex(g: Layout, v: U64, w: U64)
    requires g.Valid()
    ensures g.Equivalent(v, w) <==> g.IndexFor(v) == g.IndexFor(w)
  {
    hide Layout.IndexFor, Layout.LowestEquivalent, Layout.Start, Layout.Width;
    ValueOfIndexFor(g, v);
    ValueOfIndexFor(g, w);
    if g.IndexFor(v) < g.IndexFor(w) {
      StartMonotone(g, g.IndexFor(v), g.IndexFor(w));
    } else if g.IndexFor(w) < g.IndexFor(v) {
      StartMonotone(g, g.IndexFor(w), g.IndexFor(v));
    }
  }

  /** Every class ends within the 64-bit words. */
  lemma ClassEnd(g: Layout, value: U64)
    requires g.Valid()
    ensures g.Start(g.IndexFor(value)) + g.Width(g.IndexFor(value)) <= U64_MAX + 1
  {
    hide Layout.Start, Layout.Width, Layout.IndexFor, Layout.NumBins, Layout.BucketFor;
    var b := g.BucketFor(value);
    BucketsCover(g, b + 1, value);
    BinsFitInWord(g, b + 1);
    StartMonotone(g, g.IndexFor(value), g.NumBins(b + 1));
  }

  /** The largest word lies in a class of at least two values, and does not begin it. */
  lemma TopClass(g: Layout)
    requires g.Valid()
    ensures g.Start(g.IndexFor(U64_MAX)) < U64_MAX
    ensures g.Start(g.IndexFor(U64_MAX)) + g.Width(g.IndexFor(U64_MAX)) == U64_MAX + 1
  {
    hide Layout.Start, Layout.IndexFor, Layout.BucketFor, Pow2, Shr, Shl;
    StartOfIndexFor(g, U64_MAX);
    ClassEnd(g, U64_MAX);
    var b := g.BucketFor(U64_MAX);
    Pow2Values();
    Pow2Monotone(g.BaseBits() + b, 64);
    Pow2Monotone(Min(g.BaseBits() + b, 63), 63);
    assert b + g.unit == 63 - g.halfMag;
    Pow2Monotone(1, 63 - g.halfMag);
    Pow2Small();
  }

  /**
    `HighestEquivalent` stays in the class of its argument and bounds the class from above,
    except that the class holding the largest word ends one short unless asked about that word.
   */
  lemma HighestEquivalentInClass(g: Layout, value: U64)
    requires g.Valid()
    ensures g.IndexFor(g.HighestEquivalent(value)) == g.IndexFor(value)
    ensures value <= g.HighestEquivalent(value)
    ensures g.HighestEquivalent(value) < g.LowestEquivalent(value) + g.EquivalentRange(value)
    ensures g.IndexFor(value) < g.IndexFor(U64_MAX) ==>
      g.HighestEquivalent(value) == g.LowestEquivalent(value) + g.EquivalentRange(value) - 1
    ensures g.IndexFor(value) == g.IndexFor(U64_MAX) ==>
      g.HighestEquivalent(value) == if value == U64_MAX then U64_MAX else U64_MAX - 1
  {
    hide Layout.Start, Layout.Width, Layout.IndexFor, Layout.LowestEquivalent, Layout.EquivalentRange;
    ValueOfIndexFor(g, value);
    ClassEnd(g, value);
    TopClass(g);
    IndexMonotone(g, value, U64_MAX);
    if g.IndexFor(value) < g.IndexFor(U64_MAX) {
      StartMonotone(g, g.IndexFor(value), g.IndexFor(U64_MAX));
    }
    IndexUnique(g, g.IndexFor(value), g.HighestEquivalent(value));
  }

  /** A value other than the largest word is at most the top of its own or any later class. */
  lemma BelowHighestEquivalent(g: Layout, v: U64, w: U64)
    requires g.Valid()
    requires g.IndexFor(v) <= g.IndexFor(w)
    requires v != U64_MAX
    ensures v <= g.HighestEquivalent(w)
  {
    hide Layout.Start, Layout.Width, Layout.IndexFor, Layout.LowestEquivalent, Layout.EquivalentRange;
    hide Layout.HighestEquivalent;
    HighestEquivalentInClass(g, w);
    ValueOfIndexFor(g, v);
    ValueOfIndexFor(g, w);
    IndexMonotone(g, w, U64_MAX);
    if g.IndexFor(v) < g.IndexFor(w) {
      StartMonotone(g, g.IndexFor(v), g.IndexFor(w));
    }
  }

  /** An index never stands for the largest word. */
  lemma ValueForNotMax(g: Layout, i: nat)
    requires g.Valid()
    requires g.Start(i) <= U64_MAX
    ensures g.ValueFor(i) != U64_MAX
  {
    hide Layout.Start, Layout.IndexFor, Layout.ValueFor, Layout.Width;
    ValueForIsStart(g, i);
    if g.Start(i) == U64_MAX {
      IndexUnique(g, i, U64_MAX);
      TopClass(g);
    }
  }

  // ---- unit equivalence ----

  lemma UnitBlock(g: Layout, v: U64)
    requires g.Valid()
    ensures g.UnitMask() <= U64_MAX
    ensures var q := Shl(Shr(v, g.unit), g.unit);
            && BitOr(v, g.UnitMask()) == q + Pow2(g.unit) - 1
            && BitAnd(v, BitNot64(g.UnitMask())) == q
            && q <= v < q + Pow2(g.unit)
  {
    hide Shl, Shr, Pow2;
    Pow2Values();
    Pow2Monotone(g.unit, 64);
    OrLowMask(v, g.unit);
    AndNotLowMask(v, g.unit);
    LowBitsBound(v, g.unit);
  }

  /** A class that holds one value of a unit block holds the whole block. */
  lemma UnitBlockInClass(g: Layout, i: nat, v: nat)
    requires g.Start(i) <= v < g.Start(i) + g.Width(i)
    ensures g.Start(i) <= Shl(Shr(v, g.unit), g.unit)
    ensures Shl(Shr(v, g.unit), g.unit) + Pow2(g.unit) <= g.Start(i) + g.Width(i)
  {
    hide Shl, Shr, Pow2;
    var q, l, s := Shr(v, g.unit), g.Level(i), g.Slot(i);
    var a, b := Shl(s, l), Shl(s + 1, l);
    ShlTwice(s, l, g.unit);
    ShlTwice(s + 1, l, g.unit);
    ShlAdd(s, 1, l + g.unit);
    ShlAdd(q, 1, g.unit);
    ShlOrder(a, q + 1, g.unit);
    ShlOrder(a, q, g.unit);
    ShlOrder(q, b, g.unit);
    ShlOrder(q + 1, b, g.unit);
  }

  /** Values that differ only below the unit magnitude share an index. */
  lemma UnitEquivalent(g: Layout, v: U64)
    requires g.Valid()
    ensures BitOr(v, g.UnitMask()) <= U64_MAX && g.UnitMask() <= U64_MAX
    ensures v <= BitOr(v, g.UnitMask())
    ensures g.IndexFor(BitOr(v, g.UnitMask())) == g.IndexFor(v)
    ensures BitAnd(v, BitNot64(g.UnitMask())) <= v
    ensures g.IndexFor(BitAnd(v, BitNot64(g.UnitMask()))) == g.IndexFor(v)
  {
    hide Layout.Start, Layout.Width, Layout.IndexFor, Layout.UnitMask, BitOr, BitAnd, Shl, Shr;
    var i := g.IndexFor(v);
    UnitBlock(g, v);
    StartOfIndexFor(g, v);
    ClassEnd(g, v);
    UnitBlockInClass(g, i, v);
    IndexUnique(g, i, BitOr(v, g.UnitMask()));
    IndexUnique(g, i, BitAnd(v, BitNot64(g.UnitMask())));
  }

  /** Index 0 holds the values below one unit. */
  lemma FirstClass(g: Layout, v: U64)
    requires g.Valid()
    ensures g.Start(0) == 0 && g.Width(0) == Pow2(g.unit)
    ensures v <= g.UnitMask() <==> g.IndexFor(v) == 0
  {
    hide Shl, Shr, Pow2, Layout.IndexFor;
    ShlZero(g.halfMag);
    ShlZero(g.unit);
    LevelAt(g, 0, 0, 0);
    StartOfNext(g, 0);
    IndexGalois(g, 1, v);
  }
}
