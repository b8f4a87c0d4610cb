/** Facts about the range of values that a number of buckets covers. */
module Ranges {
  import opened Bits
  import opened Layouts

  /** The largest value a histogram with this many buckets says it can take. */
  function Top(g: Layout, buckets: nat): U64
    requires g.Valid()
  {
    g.HighestEquivalent(g.ValueFor(g.NumBins(buckets) - 1))
  }

  lemma BucketCount(g: Layout, value: U64)
    requires g.Valid()
    ensures 1 <= g.BucketFor(value) + 1 <= MaxBuckets(g)
    ensures g.IndexFor(value) < g.NumBins(g.BucketFor(value) + 1)
  {
    hide Layout.BucketFor, Layout.IndexFor, Layout.NumBins;
    BucketsCover(g, g.BucketFor(value) + 1, value);
  }

  lemma NumBinsIncreasing(g: Layout, a: nat, b: nat)
    requires a < b
    ensures 1 <= g.NumBins(a) < g.NumBins(b)
  {
    ShlOrder(a + 1, b + 1, g.halfMag);
  }

  /** The last index stands for a word, and `Top` is in its class. */
  lemma TopIndex(g: Layout, buckets: nat)
    requires g.Valid()
    requires 1 <= buckets <= MaxBuckets(g)
    ensures g.NumBins(buckets) >= 1
    ensures g.IndexFor(g.ValueFor(g.NumBins(buckets) - 1)) == g.NumBins(buckets) - 1
    ensures g.IndexFor(Top(g, buckets)) == g.NumBins(buckets) - 1
    ensures Top(g, buckets) != U64_MAX
  {
    hide Layout.BucketFor, Layout.IndexFor, Layout.NumBins, Layout.ValueFor, Layout.HighestEquivalent, Layout.Start;
    NumBinsIncreasing(g, buckets - 1, buckets);
    var last := g.NumBins(buckets) - 1;
    IndexOfValueFor(g, buckets, last);
    ValueForNotMax(g, last);
    TopNotMax(g, g.ValueFor(last));
    HighestEquivalentInClass(g, g.ValueFor(last));
  }

  lemma TopBucket(g: Layout, buckets: nat)
    requires g.Valid()
    requires 1 <= buckets <= MaxBuckets(g)
    ensures g.BucketFor(Top(g, buckets)) + 1 == buckets
  {
    hide Layout.BucketFor, Layout.IndexFor, Layout.NumBins, Top;
    TopIndex(g, buckets);
    BucketsCover(g, buckets, Top(g, buckets));
    if buckets > 1 {
      NumBinsIncreasing(g, buckets - 1, buckets);
      BucketsCover(g, buckets - 1, Top(g, buckets));
    }
  }

  /** All values up to `Top` have a counter, and so do all larger ones but for the largest word. */
  lemma TopCovers(g: Layout, buckets: nat, value: U64)
    requires g.Valid()
    requires 1 <= buckets <= MaxBuckets(g)
    ensures g.NumBins(buckets) >= 1
    ensures value <= Top(g, buckets) ==> g.IndexFor(value) < g.NumBins(buckets)
    ensures g.IndexFor(value) < g.NumBins(buckets) && value != U64_MAX ==> value <= Top(g, buckets)
    ensures Top(g, buckets) != U64_MAX
    ensures g.BucketFor(Top(g, buckets)) + 1 == buckets
  {
    hide Layout.BucketFor, Layout.IndexFor, Layout.NumBins, Layout.ValueFor, Layout.HighestEquivalent;
    TopIndex(g, buckets);
    TopBucket(g, buckets);
    if value <= Top(g, buckets) {
      IndexMonotone(g, value, Top(g, buckets));
    } else if g.IndexFor(value) < g.NumBins(buckets) && value != U64_MAX {
      BelowHighestEquivalent(g, value, g.ValueFor(g.NumBins(buckets) - 1));
    }
  }

  lemma TopNotMax(g: Layout, v: U64)
    requires g.Valid()
    requires v != U64_MAX
    ensures g.HighestEquivalent(v) != U64_MAX
  {
    hide Layout.LowestEquivalent, Layout.EquivalentRange;
  }

  /** A value without a counter lies above everything covered, and growing for it gives new slots only. */
  lemma GrowthCovers(g: Layout, high: U64, value: U64)
    requires g.Valid()
    requires g.NumBins(g.BucketFor(high) + 1) <= g.IndexFor(value)
    ensures high < value
    ensures g.BucketFor(high) < g.BucketFor(value)
    ensures g.NumBins(g.BucketFor(high) + 1) < g.NumBins(g.BucketFor(value) + 1)
    ensures high <= Top(g, g.BucketFor(value) + 1)
  {
    hide Layout.BucketFor, Layout.IndexFor, Layout.NumBins, Top;
    var a, b := g.BucketFor(high) + 1, g.BucketFor(value) + 1;
    BucketCount(g, high);
    BucketCount(g, value);
    if value <= high {
      IndexMonotone(g, value, high);
    }
    BucketsCover(g, a, value);
    NumBinsIncreasing(g, a, b);
    TopCovers(g, b, high);
  }
}
