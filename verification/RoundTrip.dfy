/** Adding a histogram and subtracting it again. */
module RoundTrips {
  import opened Bits
  import opened Layouts
  import opened Counts
  import opened Stats
  import opened Ranges
  import opened Transfers
  import opened Config
  import opened Histograms
  import opened Wrappers

  /** No counter saturates when `c` is merged into `base`. */
  ghost predicate NoneSaturates(base: seq<nat>, src: Layout, dst: Layout, c: seq<nat>, cap: nat)
    requires dst.Valid()
  {
    forall j :: 0 <= j < |base| ==> base[j] + Image(src, dst, c, |c|, j) <= cap
  }

  /**
    What was merged without saturation can always be taken out again, for any two layouts,
    unless the source holds the largest 64-bit word: only then does the range check of the
    subtraction refuse what the addition accepted.
   */
  lemma MergedCanBeTakenOut(g: Layout, buckets: nat, base: seq<nat>, cap: nat,
                            src: Layout, srcBuckets: nat, c: seq<nat>, srcMax: U64)
    requires g.Valid() && src.Valid()
    requires 1 <= buckets <= MaxBuckets(g)
    requires 1 <= srcBuckets <= MaxBuckets(src)
    requires |base| == g.NumBins(buckets)
    requires |c| == src.NumBins(srcBuckets)
    requires src.IndexFor(srcMax) < |c|
    requires NoneAfter(c, src.IndexFor(srcMax))
    requires g.IndexFor(ReportedMax(src, srcMax)) < |base|
    requires NoneSaturates(base, src, g, c, cap)
    ensures
      var sum := Merged(base, src, g, c, |c|, cap);
      && Fits(sum, src, g, c, |c|)
      && Reduced(sum, src, g, c, |c|) == base
      && Sum(sum) == Sum(base) + Sum(c)
      && (g.HighestEquivalent(ReportedMax(src, srcMax)) <= Top(g, buckets) <==> ReportedMax(src, srcMax) != U64_MAX)
  {
    hide Layout.IndexFor, Layout.ValueFor, Layout.NumBins, Layout.HighestEquivalent, ReportedMax, Top, Conv, Image;
    hide Merged, Reduced, Fits, Prefix;
    RangeCheckPasses(g, buckets, ReportedMax(src, srcMax));
    MergeThenReduce(base, src, g, c, cap);
    LandsAnywhere(g, buckets, src, srcBuckets, c, srcMax);
    var sum := Merged(base, src, g, c, |c|, cap);
    SumReduced(sum, src, g, c, |c|);
  }

  lemma LandsAnywhere(g: Layout, buckets: nat, src: Layout, srcBuckets: nat, c: seq<nat>, srcMax: U64)
    requires g.Valid() && src.Valid()
    requires 1 <= buckets <= MaxBuckets(g)
    requires 1 <= srcBuckets <= MaxBuckets(src)
    requires |c| == src.NumBins(srcBuckets)
    requires src.IndexFor(srcMax) < |c|
    requires NoneAfter(c, src.IndexFor(srcMax))
    requires g.IndexFor(ReportedMax(src, srcMax)) < g.NumBins(buckets)
    ensures Lands(src, g, c, g.NumBins(buckets))
  {
    hide Layout.IndexFor, Layout.ValueFor, Layout.NumBins, ReportedMax, Conv;
    ConvOfMax(src, g, srcMax);
    LandsBelowMax(src, g, srcBuckets, c, src.IndexFor(srcMax));
  }

  /**
    Adds a histogram and subtracts it again. When nothing saturates, the subtraction undoes the
    addition exactly: every count is back, at its old index, and so is the total.
   */
  method AddThenSubtract(h: Histogram, s: Histogram)
    returns (added: Outcome<AdditionError>, taken: Outcome<SubtractionError>)
    requires h.Valid() && s.Valid() && s != h
    requires h.counterMax == s.counterMax
    modifies h
    ensures h.Valid()
    ensures added.Fail? ==> unchanged(h)
    ensures added.Pass? ==>
      && |old(h.counts)| <= |h.counts|
      && h.high == (if old(Top(h.layout, h.bucketCount)) < s.MaxRecorded() then s.MaxRecorded() else old(h.high))
    ensures
      && added.Pass?
      && NoneSaturates(Resized(old(h.counts), |h.counts|), s.layout, h.layout, s.counts, h.counterMax)
      && old(h.total) + Sum(s.counts) <= U64_MAX
      ==>
      && (taken.Pass? <==> s.MaxRecorded() != U64_MAX)
      && (taken.Pass? ==>
            && h.counts == Resized(old(h.counts), |h.counts|)
            && (h.total == old(h.total) || h.total == Sum(old(h.counts)))
            && (old(h.total) == Sum(old(h.counts)) ==> h.total == old(h.total))
            && (old(h.Exact()) && s.Exact() ==> h.Exact()))
  {
    hide Layout.IndexFor, Layout.ValueFor, Layout.NumBins, Layout.BucketFor, Layout.HighestEquivalent;
    hide Layout.LowestEquivalent;
    hide ReportedMax, ReportedMin, Top, Merged, Reduced, Fits, Prefix, ExactStats, ExactMinNonZero, Touched;
    hide AllAtMost, NoneSaturates;
    hide LayoutFor, Histogram.Between, ExactMinNonZero;
    added := h.Add(s);
    if added.Fail? {
      return added, Pass;
    }
    BucketCount(h.layout, h.high);
    BucketCount(s.layout, s.high);
    ghost var base := Resized(old(h.counts), |h.counts|);
    SumPadded(old(h.counts), |base| - |old(h.counts)|);
    assert base == old(h.counts) + Zeros(|base| - |old(h.counts)|);
    if NoneSaturates(base, s.layout, h.layout, s.counts, h.counterMax) {
      MergedCanBeTakenOut(h.layout, h.bucketCount, base, h.counterMax, s.layout, s.bucketCount, s.counts, s.maxValue);
    }
    ghost var n;
    taken, n := h.Subtract(s);
  }

  /**
    Adding index by index and adding value by value cannot be told apart: started in equal
    states, they end with the same counts, the same saturated total and the same largest index.
   */
  method BothPathsAgree(a: Histogram, b: Histogram, s: Histogram)
    requires a.Valid() && b.Valid() && s.Valid() && a != s && b != s && a != b
    requires a.layout == b.layout == s.layout
    requires a.bucketCount == b.bucketCount == s.bucketCount
    requires a.counterMax == b.counterMax == s.counterMax
    requires a.counts == b.counts && a.total == b.total && a.maxValue == b.maxValue
    modifies a, b
    ensures a.Valid() && b.Valid()
    ensures a.counts == b.counts
    ensures a.total == b.total
    ensures a.MaxIndex() == b.MaxIndex()
  {
    hide Layout.IndexFor, Layout.ValueFor, Layout.NumBins, Layout.BucketFor, LayoutFor;
    hide ReportedMax, ExactStats, ExactMinNonZero, Prefix, Merged, Conv, AllAtMost, NoneAfter;
    ReportedMaxIndex(s.layout, s.maxValue);
    a.AddSameShape(s);
    b.AddByValue(s);
  }
}
