/** Histograms made from others: empty ones of the same settings, copies, and corrected copies. */
module Cloning {
  import opened Bits
  import opened Layouts
  import opened Counts
  import opened Stats
  import opened Ranges
  import opened Config
  import opened Omission
  import opened Accuracy
  import opened Iteration
  import opened Iterators
  import opened Histograms
  import opened Wrappers

  ghost predicate SameSettings(a: Histogram, b: Histogram)
    reads a, b
  {
    && a.low == b.low && a.sigfig == b.sigfig && a.layout == b.layout && a.counterMax == b.counterMax
    && a.autoResize == b.autoResize
  }

  /** An empty histogram with the settings of another; its parameters are always accepted again. */
  method NewFrom(source: Histogram) returns (h: Histogram)
    requires source.Valid()
    ensures fresh(h) && h.Valid() && h.Exact() && h.MinKnown()
    ensures SameSettings(h, source)
    ensures h.high == source.high && h.bucketCount == source.bucketCount
    ensures h.counts == Zeros(|source.counts|) && h.total == 0
    ensures h.MaxIndex() == 0
  {
    hide Layout.IndexFor, Layout.BucketFor, Layout.NumBins, LayoutFor, Sum, AllAtMost, NoneAfter, ExactStats;
    hide ExactMinNonZero, Pow2;
    AcceptedBounds(source.low, source.high, source.sigfig);
    SameLayout(source.low, source.high, source.sigfig, source.layout);
    var created := Histogram.NewWithBounds(source.low, source.high, source.sigfig, source.counterMax);
    h := created.value;
    FirstClass(h.layout, 0);
    ResizedSame(h.counts);
    h.Auto(source.autoResize);
    h.ResizeCounts(|source.counts|);
  }

  lemma SameLayout(low: U64, high: U64, sigfig: nat, g: Layout)
    requires Configured(low, sigfig, g)
    requires 2 * low <= high
    ensures CheckBounds(low, high, sigfig) == Success(g)
  {
    hide LayoutFor;
    AcceptedBounds(low, high, sigfig);
  }

  /** Merging into nothing gives the counts that were merged. */
  lemma MergedIntoNothing(g: Layout, buckets: nat, c: seq<nat>, cap: nat)
    requires g.Valid()
    requires 1 <= buckets <= MaxBuckets(g)
    requires |c| == g.NumBins(buckets)
    requires AllAtMost(c, cap)
    ensures Merged(Zeros(|c|), g, g, c, |c|, cap) == c
  {
    hide Layout.NumBins, Image;
    forall j | 0 <= j < |c| ensures Image(g, g, c, |c|, j) == c[j] {
      ImageSame(g, buckets, c, |c|, j);
    }
  }

  /** When a copy grows for the largest word, it grows to the size it has. */
  lemma SameBuckets(g: Layout, high: U64, value: U64)
    requires g.Valid()
    requires g.IndexFor(value) < g.NumBins(g.BucketFor(high) + 1)
    requires Top(g, g.BucketFor(high) + 1) < value
    ensures g.BucketFor(value) == g.BucketFor(high)
  {
    hide Layout.IndexFor, Layout.BucketFor, Layout.NumBins, Top;
    var buckets := g.BucketFor(high) + 1;
    BucketCount(g, high);
    BucketsCover(g, buckets, value);
    TopBelow(g, buckets, value);
  }

  /**
    Copies a histogram by adding it to an empty one. That fails exactly if it does not grow and
    holds the largest word.
   */
  method Clone(source: Histogram) returns (r: Result<Histogram, AdditionError>)
    requires source.Valid()
    ensures r.Failure? <==> !source.autoResize && source.MaxRecorded() == U64_MAX
    ensures r.Success? ==>
      && fresh(r.value) && r.value.Valid()
      && SameSettings(r.value, source)
      && r.value.high == (if source.MaxRecorded() == U64_MAX then U64_MAX else source.high)
      && r.value.bucketCount == source.bucketCount
      && r.value.counts == source.counts
      && r.value.total == Min(U64_MAX, Sum(source.counts))
      && r.value.MaxIndex() == source.MaxIndex()
      && (source.Exact() ==> r.value.Exact())
      && (source.Exact() && source.MinKnown() ==> r.value.MinKnown())
  {
    hide Layout.IndexFor, Layout.BucketFor, Layout.NumBins, Layout.ValueFor, LayoutFor, Sum, AllAtMost, NoneAfter;
    hide ExactStats, ExactMinNonZero, ReportedMax, Top, Merged, Conv;
    var h := NewFrom(source);
    BucketCount(source.layout, source.high);
    ReportedMaxIndex(source.layout, source.maxValue);
    IndexOfMax(source);
    TopCovers(source.layout, source.bucketCount, source.MaxRecorded());
    if Top(source.layout, source.bucketCount) < source.MaxRecorded() {
      SameBuckets(source.layout, source.high, source.MaxRecorded());
    }
    ResizedSame(Zeros(|source.counts|));
    MergedIntoNothing(source.layout, source.bucketCount, source.counts, source.counterMax);
    var added := h.Add(source);
    if added.Fail? {
      return Failure(added.error);
    }
    r := Success(h);
  }

  lemma IndexOfMax(h: Histogram)
    requires h.Valid()
    ensures Counts.Conv(h.layout, h.layout, h.MaxIndex()) == h.MaxIndex()
  {
    hide Layout.IndexFor, Layout.BucketFor, Layout.NumBins, Layout.ValueFor, LayoutFor, Prefix, AllAtMost, NoneAfter;
    BucketCount(h.layout, h.high);
    IndexOfValueFor(h.layout, h.bucketCount, h.MaxIndex());
  }

  /** Between equal layouts, merging adds index by index, also into a longer array. */
  lemma MergedIndexByIndex(g: Layout, buckets: nat, base: seq<nat>, c: seq<nat>, cap: nat)
    requires g.Valid()
    requires 1 <= buckets <= MaxBuckets(g)
    requires |c| == g.NumBins(buckets)
    ensures forall j :: 0 <= j < |base| ==>
      Merged(base, g, g, c, |c|, cap)[j] == Min(cap, base[j] + if j < |c| then c[j] else 0)
  {
    hide Layout.NumBins, Image;
    forall j | 0 <= j < |base| ensures Image(g, g, c, |c|, j) == if j < |c| then c[j] else 0 {
      ImageSame(g, buckets, c, |c|, j);
    }
  }

  /**
    Merges a recorder's histogram into one with the same settings. That fails exactly if it does
    not grow and the recorder holds the largest word; otherwise counts are added index by index.
   */
  method MergeRecorded(merged: Histogram, h: Histogram) returns (r: Outcome<AdditionError>)
    requires merged.Valid() && h.Valid() && merged != h
    requires SameSettings(merged, h)
    requires !merged.autoResize ==> merged.bucketCount == h.bucketCount
    modifies merged
    ensures merged.Valid()
    ensures r.Fail? <==> !old(merged.autoResize) && h.MaxRecorded() == U64_MAX
    ensures r.Fail? ==> unchanged(merged)
    ensures r.Pass? ==>
      && |old(merged.counts)| <= |merged.counts|
      && (forall j :: 0 <= j < |merged.counts| ==>
            merged.counts[j] == Min(merged.counterMax,
              (if j < |old(merged.counts)| then old(merged.counts)[j] else 0) +
              (if j < |h.counts| then h.counts[j] else 0)))
      && merged.total == Min(U64_MAX, old(merged.total) + Sum(h.counts))
      && merged.MaxIndex() == Max(old(merged.MaxIndex()), h.MaxIndex())
      && (old(merged.Exact()) && h.Exact() ==> merged.Exact())
      && (old(merged.MinKnown()) && h.Exact() && h.MinKnown() ==> merged.MinKnown())
  {
    hide Layout.IndexFor, Layout.BucketFor, Layout.NumBins, LayoutFor, Prefix, AllAtMost, NoneAfter;
    hide ReportedMax, Merged;
    hide ExactStats, ExactMinNonZero, Counts.Conv, Top;
    ReportedMaxIndex(h.layout, h.maxValue);
    IndexOfMax(h);
    BucketCount(h.layout, h.high);
    r := merged.Add(h);
    MergedIndexByIndex(h.layout, h.bucketCount, Resized(old(merged.counts), |merged.counts|), h.counts, h.counterMax);
  }

  // ---- copies corrected for coordinated omission ----

  /** All values that stand in for the samples at an index are in range. */
  lemma CorrectedInRange(g: Layout, buckets: nat, i: nat, interval: U64)
    requires g.Valid()
    requires 1 <= buckets <= MaxBuckets(g)
    requires i < g.NumBins(buckets)
    ensures g.IndexFor(g.HighestEquivalent(g.ValueFor(i))) == i
    ensures AllHaveSlots(g, CorrectedValues(g.HighestEquivalent(g.ValueFor(i)), interval), g.NumBins(buckets))
  {
    hide Layout.IndexFor, Layout.ValueFor, Layout.HighestEquivalent, Layout.NumBins, Descending;
    var v := g.HighestEquivalent(g.ValueFor(i));
    IndexOfValueFor(g, buckets, i);
    HighestEquivalentInClass(g, g.ValueFor(i));
    if interval > 0 && v > interval {
      IndexMonotone(g, v - interval, v);
      DescendingInRange(g, v - interval, interval, g.NumBins(buckets));
    }
  }

  /** The counts after the samples at the first `k` of some indexes have been recorded with correction. */
  ghost function Corrected(g: Layout, buckets: nat, src: seq<nat>, all: seq<nat>, k: nat, interval: U64, cap: nat)
    : (t: seq<nat>)
    requires g.Valid()
    requires 1 <= buckets <= MaxBuckets(g)
    requires |src| == g.NumBins(buckets)
    requires forall j :: 0 <= j < |all| ==> all[j] < |src|
    requires k <= |all|
    ensures |t| == |src|
  {
    if k == 0 then Zeros(|src|)
    else
      var i := all[k - 1];
      CorrectedInRange(g, buckets, i, interval);
      BumpAll(g, Corrected(g, buckets, src, all, k - 1, interval, cap),
              CorrectedValues(g.HighestEquivalent(g.ValueFor(i)), interval), src[i], cap)
  }

  /** The samples that those records bring to index `j`: `n` of each corrected value that belongs there. */
  ghost function CorrectedAt(g: Layout, src: seq<nat>, all: seq<nat>, k: nat, interval: U64, j: nat): nat
    requires g.Valid()
    requires forall i :: 0 <= i < |all| ==> all[i] < |src|
    requires k <= |all|
  {
    if k == 0 then 0
    else
      var i := all[k - 1];
      CorrectedAt(g, src, all, k - 1, interval, j) +
      Groups(src[i], Tally(g, CorrectedValues(g.HighestEquivalent(g.ValueFor(i)), interval), j))
  }

  /** Index by index, the counts of a corrected copy are the numbers of corrected samples, saturated. */
  lemma {:induction false} CorrectedByIndex(g: Layout, buckets: nat, src: seq<nat>, all: seq<nat>, k: nat,
      interval: U64, cap: nat, j: nat)
    requires g.Valid()
    requires 1 <= buckets <= MaxBuckets(g)
    requires |src| == g.NumBins(buckets)
    requires forall i :: 0 <= i < |all| ==> all[i] < |src|
    requires k <= |all|
    requires j < |src|
    ensures Corrected(g, buckets, src, all, k, interval, cap)[j] ==
      Min(cap, CorrectedAt(g, src, all, k, interval, j))
  {
    hide Layout.IndexFor, Layout.ValueFor, Layout.HighestEquivalent, Layout.NumBins, BumpAll, Tally, CorrectedValues;
    hide Groups, AllHaveSlots;
    if k > 0 {
      var i := all[k - 1];
      CorrectedByIndex(g, buckets, src, all, k - 1, interval, cap, j);
      CorrectedInRange(g, buckets, i, interval);
      var values := CorrectedValues(g.HighestEquivalent(g.ValueFor(i)), interval);
      BumpAllAt(g, Corrected(g, buckets, src, all, k - 1, interval, cap), values, src[i], cap, j);
    }
  }

  /** The indexes that iteration over recorded values yields. */
  ghost function IndexesYielded(source: Histogram): (all: seq<nat>)
    requires source.Valid()
    reads source
    ensures forall k :: 0 <= k < |all| ==> all[k] < |source.counts|
  {
    if source.MaxIndex() > 0 then NonZeros(source.counts, 0) else []
  }

  ghost function CorrectedCounts(source: Histogram, k: nat, interval: U64): (t: seq<nat>)
    requires source.Valid()
    requires k <= |IndexesYielded(source)|
    reads source
    ensures |t| == |source.counts|
  {
    BucketCount(source.layout, source.high);
    Corrected(source.layout, source.bucketCount, source.counts, IndexesYielded(source), k, interval, source.counterMax)
  }

  /** The number of samples recorded for the first `k` of them. */
  ghost function CorrectedTotal(source: Histogram, k: nat, interval: U64): nat
    requires source.Valid()
    requires k <= |IndexesYielded(source)|
    reads source
  {
    if k == 0 then 0
    else
      var g, i := source.layout, IndexesYielded(source)[k - 1];
      CorrectedTotal(source, k - 1, interval) +
      Groups(source.counts[i], |CorrectedValues(g.HighestEquivalent(g.ValueFor(i)), interval)|)
  }

  lemma CorrectedNext(source: Histogram, k: nat, interval: U64)
    requires source.Valid()
    requires k < |IndexesYielded(source)|
    ensures var g, i := source.layout, IndexesYielded(source)[k];
      var v := g.HighestEquivalent(g.ValueFor(i));
      && source.counts[i] <= source.counterMax
      && source.counts[i] > 0
      && g.IndexFor(v) < |source.counts|
      && AllHaveSlots(g, CorrectedValues(v, interval), |source.counts|)
      && CorrectedCounts(source, k + 1, interval)
         == BumpAll(g, CorrectedCounts(source, k, interval), CorrectedValues(v, interval),
                    source.counts[i], source.counterMax)
      && CorrectedTotal(source, k + 1, interval) ==
        CorrectedTotal(source, k, interval) + Groups(source.counts[i], |CorrectedValues(v, interval)|)
  {
    hide Layout.IndexFor, Layout.BucketFor, Layout.NumBins, Layout.ValueFor, Layout.HighestEquivalent, LayoutFor;
    hide Prefix, NoneAfter, NonZeros, BumpAll, CorrectedValues, AllHaveSlots, Groups;
    BucketCount(source.layout, source.high);
    CorrectedInRange(source.layout, source.bucketCount, IndexesYielded(source)[k], interval);
  }

  /**
    A corrected copy: the samples at each index that iteration over recorded values yields are
    recorded again with correction, which cannot fail. A sample at index 0 is lost if there is
    no other.
   */
  method CloneCorrect(source: Histogram, interval: U64) returns (h: Histogram)
    requires source.Valid()
    ensures fresh(h) && h.Valid() && h.Exact() && h.MinKnown()
    ensures SameSettings(h, source)
    ensures h.high == source.high && h.bucketCount == source.bucketCount
    ensures h.counts == CorrectedCounts(source, |IndexesYielded(source)|, interval)
    ensures forall j :: 0 <= j < |h.counts| ==>
      h.counts[j] == Min(source.counterMax, CorrectedSamples(source, interval, j))
    ensures h.total == Min(U64_MAX, CorrectedTotal(source, |IndexesYielded(source)|, interval))
  {
    hide Layout.IndexFor, Layout.BucketFor, Layout.NumBins, Layout.ValueFor, Layout.HighestEquivalent, LayoutFor;
    hide Prefix, AllAtMost, NoneAfter, ExactStats, ExactMinNonZero, NonZeros, BumpAll, CorrectedValues;
    hide Resized, AllHaveSlots, Groups;
    hide Corrected, CorrectedCounts, CorrectedTotal;
    h := NewFrom(source);
    var rs := CollectRecorded(source);
    NothingCorrected(source, interval);
    for k := 0 to |rs|
      invariant fresh(h) && h.Valid() && h.Exact() && h.MinKnown()
      invariant SameSettings(h, source)
      invariant h.high == source.high && h.bucketCount == source.bucketCount
      invariant |rs| == |IndexesYielded(source)|
      invariant h.counts == CorrectedCounts(source, k, interval)
      invariant h.total == Min(U64_MAX, CorrectedTotal(source, k, interval))
    {
      CorrectedNext(source, k, interval);
      SaturateTwice(CorrectedTotal(source, k, interval),
        CorrectedTotal(source, k + 1, interval) - CorrectedTotal(source, k, interval));
      ResizedSame(h.counts);
      var r := h.RecordNCorrect(rs[k].value, rs[k].countAtValue, interval);
    }
    CountsAreCorrected(source, interval);
  }

  /** Corrected samples at index `j`, with every sample taken as the highest value of its class. */
  ghost function CorrectedSamples(source: Histogram, interval: U64, j: nat): nat
    requires source.Valid()
    reads source
  {
    var all := IndexesYielded(source);
    CorrectedAt(source.layout, source.counts, all, |all|, interval, j)
  }

  lemma CountsAreCorrected(source: Histogram, interval: U64)
    requires source.Valid()
    ensures forall j :: 0 <= j < |source.counts| ==>
      CorrectedCounts(source, |IndexesYielded(source)|, interval)[j] ==
        Min(source.counterMax, CorrectedSamples(source, interval, j))
  {
    hide Layout.IndexFor, Layout.BucketFor, Layout.NumBins, LayoutFor, Prefix, AllAtMost, NoneAfter, Corrected;
    hide CorrectedAt, IndexesYielded;
    BucketCount(source.layout, source.high);
    var all := IndexesYielded(source);
    forall j | 0 <= j < |source.counts|
      ensures CorrectedCounts(source, |all|, interval)[j] ==
        Min(source.counterMax, CorrectedSamples(source, interval, j))
    {
      CorrectedByIndex(source.layout, source.bucketCount, source.counts, all, |all|, interval, source.counterMax, j);
    }
  }

  lemma NothingCorrected(source: Histogram, interval: U64)
    requires source.Valid()
    ensures CorrectedCounts(source, 0, interval) == Zeros(|source.counts|)
    ensures CorrectedTotal(source, 0, interval) == 0
  {
    hide Layout.IndexFor, Layout.BucketFor, Layout.NumBins, LayoutFor, Prefix, AllAtMost, NoneAfter;
    BucketCount(source.layout, source.high);
  }
}
