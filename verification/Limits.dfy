/** Inputs for which a documented promise is not kept. */
module Limits {
  import opened Bits
  import opened Layouts
  import opened Counts
  import opened Stats
  import opened Transfers
  import opened Accuracy
  import opened Ranges
  import opened Cloning
  import opened Config
  import opened Iteration
  import opened Iterators
  import opened LinearIteration
  import opened Histograms
  import opened Wrappers

  /** Bounds with which every value up to `high` can be recorded, at the least precision. */
  lemma CoarseBounds(high: U64)
    requires high >= 2
    ensures CheckBounds(1, high, 0).Success?
    ensures CheckBounds(1, high, 0).value == LayoutFor(1, 0) == Layout(0, 0)
  {
    assert Pow10(0) == 1;
    AcceptedBounds(1, high, 0);
  }

  lemma LargestRecorded(g: Layout, current: U64)
    requires g.Valid()
    requires current < U64_MAX
    ensures ReportedMax(g, MaxWith(g, current, U64_MAX)) == U64_MAX
  {
    hide Layout.IndexFor, BitOr, Layout.UnitMask, Layout.LowestEquivalent, Layout.EquivalentRange;
    UnitEquivalent(g, U64_MAX);
  }

  /** A histogram over all 64-bit values that holds the largest of them. */
  method HoldsLargestWord() returns (s: Histogram)
    ensures fresh(s) && s.Valid()
    ensures s.layout == Layout(0, 0) && s.counterMax == 1 && !s.autoResize
    ensures s.MaxRecorded() == U64_MAX
  {
    hide Layout.IndexFor, Layout.BucketFor, Layout.NumBins, LayoutFor, MaxWith, MinWith, ReportedMax;
    hide Sum, AllAtMost, NoneAfter, ExactStats, ExactMinNonZero;
    CoarseBounds(U64_MAX);
    var created := Histogram.NewWithBounds(1, U64_MAX, 0, 1);
    s := created.value;
    BucketCount(s.layout, U64_MAX);
    LargestRecorded(s.layout, 0);
    var r := s.RecordNInner(U64_MAX, 1, false);
  }

  /** A histogram that grows takes in the largest word, but it cannot be subtracted again. */
  method SubtractRefusesWhatAddAccepted() returns (added: Outcome<AdditionError>, taken: Outcome<SubtractionError>)
    ensures added.Pass?
    ensures taken == Fail(SubtrahendValueExceedsMinuendRange)
  {
    hide Layout.IndexFor, Layout.BucketFor, Layout.NumBins, LayoutFor, ReportedMax, Sum, AllAtMost, NoneAfter;
    hide ExactStats, ExactMinNonZero, Layout.LowestEquivalent, Top;
    var s := HoldsLargestWord();
    CoarseBounds(2);
    var created := Histogram.NewWithBounds(1, 2, 0, 1);
    var h := created.value;
    h.Auto(true);
    added := h.Add(s);
    BucketCount(h.layout, h.high);
    TopCovers(h.layout, h.bucketCount, 0);
    ghost var n;
    taken, n := h.Subtract(s);
  }

  /** A histogram over all values that does not grow refuses the largest word, although it has a counter for it. */
  method AddRefusesWhatIsCovered() returns (h: Histogram, added: Outcome<AdditionError>)
    ensures h.layout.Valid() && h.HasSlot(U64_MAX)
    ensures added.Fail?
  {
    hide Layout.IndexFor, Layout.BucketFor, Layout.NumBins, LayoutFor, ReportedMax, Sum, AllAtMost, NoneAfter;
    hide ExactStats, ExactMinNonZero, Top;
    var s := HoldsLargestWord();
    CoarseBounds(U64_MAX);
    var created := Histogram.NewWithBounds(1, U64_MAX, 0, 1);
    h := created.value;
    BucketCount(h.layout, U64_MAX);
    added := h.Add(s);
  }

  lemma OneZero(c: seq<nat>)
    requires |c| > 0 && c == Zeros(|c|)
    ensures Sum(Bump(c, 0, 1, 1)) == 1 && Bump(c, 0, 1, 1)[0] == 1
  {
    PrefixZeros(c, 0, |c|);
    SumBump(c, 0, 1, 1);
  }

  /** A histogram that does not grow and holds the largest word cannot be copied. */
  method CloneRefuses() returns (s: Histogram, r: Result<Histogram, AdditionError>)
    ensures s.Valid()
    ensures r.Failure?
  {
    hide Histogram.Valid, ReportedMax;
    s := HoldsLargestWord();
    r := Clone(s);
  }

  /** A histogram whose only sample is a zero. */
  method SingleZero() returns (h: Histogram)
    ensures fresh(h) && h.Valid() && h.layout.Valid()
    ensures |h.counts| > 0 && h.counts[0] == 1 && Sum(h.counts) == 1 && h.MaxIndex() == 0
  {
    hide Layout.IndexFor, Layout.BucketFor, Layout.NumBins, LayoutFor, AllAtMost, NoneAfter, ExactStats;
    hide ExactMinNonZero;
    hide Sum, Bump, Zeros, CheckBounds;
    CoarseBounds(2);
    var created := Histogram.NewWithBounds(1, 2, 0, 1);
    h := created.value;
    FirstClass(h.layout, 0);
    BucketCount(h.layout, h.high);
    OneZero(h.counts);
    var r := h.RecordN(0, 1);
  }

  /** Iterating over its recorded values yields nothing. */
  method RecordedSkipsZero() returns (h: Histogram, rs: seq<Emission>)
    ensures h.Valid() && h.layout.Valid()
    ensures |h.counts| > 0 && h.counts[0] == 1 && h.MaxIndex() == 0
    ensures !YieldsNonZeros(SourceOf(h))
    ensures rs == []
  {
    hide Layout.IndexFor, Layout.BucketFor, Layout.NumBins, LayoutFor, Sum, AllAtMost, NoneAfter, ExactStats;
    hide ExactMinNonZero;
    hide YieldsNonZeros, Source.Valid;
    h := SingleZero();
    SourceOfValid(h);
    SourceInRange(SourceOf(h));
    RecordedYieldsNonZeros(SourceOf(h));
    rs := CollectRecorded(h);
  }

  /** Iterating over it linearly does not report the zero. */
  method LinearSkipsZero() returns (h: Histogram, rs: seq<Emission>)
    ensures h.Valid() && Sum(h.counts) == 1
    ensures SumSince(rs) == 0
  {
    hide Layout.IndexFor, Layout.BucketFor, Layout.NumBins, Layout.ValueFor, LayoutFor, Sum, AllAtMost, NoneAfter;
    hide ExactStats, ExactMinNonZero, Stops, LevelsFit, Histogram.Valid;
    h := SingleZero();
    rs := CollectLinear(h, 1);
  }

  /** The first classes at the least precision: 0, 1, 2 to 3, and 4 to 7. */
  lemma CoarseClasses(g: Layout)
    requires g == Layout(0, 0)
    ensures g.Start(0) == 0 && g.Start(1) == 1 && g.Start(3) == 4
    ensures g.Width(0) == 1 && g.Width(1) == 1 && g.Width(3) == 4
    ensures g.NumBins(3) == 4
  {
  }

  lemma CoarseIndexes(g: Layout, a: U64, b: U64, c: U64, d: U64)
    requires g == Layout(0, 0)
    requires a == 0 && b == 1 && c == 4 && d == 7
    ensures g.IndexFor(a) == 0 && g.IndexFor(b) == 1 && g.IndexFor(c) == 3 && g.IndexFor(d) == 3
    ensures g.BucketFor(d) == 2
  {
    hide Layout.IndexFor, Layout.BucketFor, Layout.Start, Layout.Width;
    CoarseClasses(g);
    IndexUnique(g, 0, a);
    IndexUnique(g, 1, b);
    IndexUnique(g, 3, c);
    IndexUnique(g, 3, d);
    assert Pow2(3) == 8 && Pow2(2) == 4;
    BucketOfBounds(g, d, 2);
  }

  lemma SmallTallies(g: Layout)
    requires g == Layout(0, 0)
    ensures forall j :: 0 <= j < 4 ==> Tally(g, [0, 1, 4], j) == [1, 1, 0, 1][j] && Tally(g, [1], j) == [0, 1, 0, 0][j]
  {
    hide Layout.IndexFor;
    CoarseIndexes(g, 0, 1, 4, 7);
    assert [0, 1, 4][..2] == [0, 1];
    assert [0, 1][..1] == [0];
    forall j | 0 <= j < 4
      ensures Tally(g, [0, 1, 4], j) == [1, 1, 0, 1][j] && Tally(g, [1], j) == [0, 1, 0, 0][j]
    {
      assert Tally(g, [0], j) == if j == 0 then 1 else 0;
      assert Tally(g, [0, 1], j) == if j <= 1 then 1 else 0;
    }
  }

  lemma SmallIndex(g: Layout, v: U64)
    requires g == Layout(0, 0)
    requires v == 0 || v == 1 || v == 4
    ensures g.IndexFor(v) < 4
  {
    hide Layout.IndexFor, Layout.BucketFor;
    CoarseIndexes(g, 0, 1, 4, 7);
  }

  lemma CoarseLength(h: Histogram)
    requires h.Valid()
    requires h.layout == Layout(0, 0) && h.high == 7
    ensures |h.counts| == 4 && h.bucketCount == 3
  {
    hide *;
    LengthOf(h);
    CoarseClasses(h.layout);
    CoarseIndexes(h.layout, 0, 1, 4, h.high);
  }

  lemma LengthOf(h: Histogram)
    requires h.Valid()
    ensures h.layout.Valid()
    ensures h.bucketCount == h.layout.BucketFor(h.high) + 1 && |h.counts| == h.layout.NumBins(h.bucketCount)
  {
    hide Layout.IndexFor, Layout.BucketFor, Layout.NumBins, LayoutFor, AllAtMost, NoneAfter, Prefix;
  }

  method NewCoarse() returns (h: Histogram)
    ensures fresh(h) && h.Valid() && h.Exact() && h.MinKnown()
    ensures h.layout == Layout(0, 0) && h.layout.Valid() && h.counterMax == 3 && h.high == 7
    ensures h.counts == Zeros(|h.counts|) && h.total == 0
  {
    hide Layout.IndexFor, Layout.BucketFor, Layout.NumBins, LayoutFor, AllAtMost, NoneAfter, Prefix, CheckBounds;
    hide ExactStats, ExactMinNonZero;
    CoarseBounds(7);
    var created := Histogram.NewWithBounds(1, 7, 0, 3);
    h := created.value;
    CoarseLayout(h);
  }

  /** A histogram with four counters and some samples. */
  method Sampled(samples: seq<U64>) returns (h: Histogram)
    requires |samples| <= 3
    requires forall k :: 0 <= k < |samples| ==> samples[k] == 0 || samples[k] == 1 || samples[k] == 4
    ensures fresh(h) && h.Valid() && h.Exact() && h.MinKnown()
    ensures h.layout == Layout(0, 0) && h.counterMax == 3 && h.high == 7 && h.total == |samples|
    ensures Tallies(h.layout, h.counts, samples)
  {
    hide *;
    h := NewCoarse();
    FewTallies(h.layout, samples);
    CoarseLength(h);
    forall k | 0 <= k < |samples| ensures h.HasSlot(samples[k]) {
      SmallIndex(h.layout, samples[k]);
      h.SlotOf(samples[k]);
    }
    var ok := RecordAll(h, samples);
    SmallTotal(|samples|);
  }

  lemma CoarseLayout(h: Histogram)
    requires h.Valid() && h.low == 1 && h.sigfig == 0
    ensures h.layout == Layout(0, 0) && h.layout.Valid()
  {
    hide Layout.IndexFor, Layout.BucketFor, Layout.NumBins, AllAtMost, NoneAfter, Prefix;
    CoarseBounds(2);
  }

  lemma SmallTotal(n: nat)
    requires n <= 3
    ensures Min(U64_MAX, n) == n
  {
  }

  lemma FewTallies(g: Layout, samples: seq<U64>)
    requires g.Valid()
    requires |samples| <= 3
    ensures Unsaturated(g, samples, 3)
  {
    hide Layout.IndexFor, Tally;
    forall j ensures Tally(g, samples, j) <= 3 {
      TallyAtMostAll(g, samples, j);
    }
  }

  lemma {:induction false} TallyAtMostAll(g: Layout, samples: seq<U64>, j: nat)
    requires g.Valid()
    ensures Tally(g, samples, j) <= |samples|
  {
    hide Layout.IndexFor;
    if samples != [] {
      TallyAtMostAll(g, samples[..|samples| - 1], j);
    }
  }

  /** What the extremes of a histogram with samples in the classes of 0, 1 and 4 are. */
  lemma CoarseExtremes(g: Layout, c: seq<nat>, maxValue: U64, minNonZero: U64)
    requires g == Layout(0, 0)
    requires c == [1, 1, 0, 1]
    requires g.IndexFor(maxValue) < |c| && NoneAfter(c, g.IndexFor(maxValue))
    requires ExactMinNonZero(g, c, minNonZero)
    ensures ReportedMinNonZero(g, minNonZero) == 1 && minNonZero != U64_MAX
    ensures g.LowestEquivalent(ReportedMax(g, maxValue)) == 4
    ensures g.HighestEquivalent(0) == 0
    ensures g.ValueFor(1) == 1
    ensures g.IndexFor(U64_MAX) >= 3
  {
    hide Layout.IndexFor, Layout.BucketFor, Layout.Start, Layout.Width, Layout.ValueFor, Layout.LowestEquivalent;
    hide Layout.EquivalentRange, Layout.NumBins, ReportedMax, MaxBuckets;
    CoarseClasses(g);
    CoarseIndexes(g, 0, 1, 4, 7);
    assert c[1] == 1 && c[3] == 1;
    assert g.IndexFor(maxValue) == 3 && g.IndexFor(minNonZero) == 1;
    ReportedMaxIndex(g, maxValue);
    ValueOfIndexFor(g, ReportedMax(g, maxValue));
    ValueOfIndexFor(g, minNonZero);
    ValueOfIndexFor(g, 0);
    IndexMonotone(g, 7, U64_MAX);
    CoarseBuckets(g);
    IndexOfValueFor(g, 3, 1);
  }

  lemma CoarseBuckets(g: Layout)
    requires g == Layout(0, 0)
    ensures g.Valid() && 3 <= MaxBuckets(g) && g.NumBins(3) == 4
  {
  }

  /** What is left of those samples without the one. */
  lemma OneTakenOut(g: Layout, c: seq<nat>, s: seq<nat>)
    requires g.Valid() && 3 <= MaxBuckets(g) && g.NumBins(3) == 4
    requires c == [1, 1, 0, 1] && s == [0, 1, 0, 0]
    ensures Fits(c, g, g, s, |s|) && Reduced(c, g, g, s, |s|) == [1, 0, 0, 1]
  {
    hide Image, Layout.NumBins, MaxBuckets;
    forall j | 0 <= j < 4 ensures Image(g, g, s, |s|, j) == s[j] {
      ImageSame(g, 3, s, |s|, j);
    }
  }

  lemma CoarseRange(g: Layout, s: seq<nat>, maxValue: U64, minNonZero: U64)
    requires g.Valid() && 3 <= MaxBuckets(g) && g.NumBins(3) == 4
    requires g.IndexFor(U64_MAX) >= 3
    requires s == [0, 1, 0, 0] && ExactStats(g, s, maxValue, minNonZero)
    ensures g.HighestEquivalent(ReportedMax(g, maxValue)) <= Top(g, 3)
  {
    hide Layout.IndexFor, ReportedMax, Layout.HighestEquivalent, Top, Layout.NumBins, Layout.BucketFor, MaxBuckets;
    assert s[1] == 1;
    assert g.IndexFor(maxValue) == 1;
    ReportedMaxIndex(g, maxValue);
    RangeCheckPasses(g, 3, ReportedMax(g, maxValue));
  }

  /**
    Samples 0, 1 and 4 without the 1: nothing is recomputed, since the extremes 0 and 4 are not
    touched, and the smallest non-zero value reported is still 1.
   */
  method MinimumLeftBehind() returns (h: Histogram, r: Outcome<SubtractionError>)
    ensures h.Valid() && h.layout == Layout(0, 0) && h.layout.Valid()
    ensures r.Pass?
    ensures h.counts == [1, 0, 0, 1]
    ensures h.MinNzRecorded() == 1
  {
    hide *;
    h := Sampled([0, 1, 4]);
    var s := Sampled([1]);
    SampledCounts(h, s);
    ReadyToSubtract(h, s);
    ghost var n;
    r, n := h.Subtract(s);
    MinReported(h);
  }

  lemma ReadyToSubtract(h: Histogram, s: Histogram)
    requires h.Valid() && s.Valid() && h.MinKnown() && s.Exact()
    requires h.layout == s.layout == Layout(0, 0) && h.layout.Valid() && h.bucketCount == 3 && h.total == 3
    requires h.counts == [1, 1, 0, 1] && s.counts == [0, 1, 0, 0]
    ensures h.layout.HighestEquivalent(s.MaxRecorded()) <= Top(h.layout, h.bucketCount)
    ensures Fits(h.counts, s.layout, h.layout, s.counts, |s.counts|)
    ensures Reduced(h.counts, s.layout, h.layout, s.counts, |s.counts|) == [1, 0, 0, 1]
    ensures h.total != U64_MAX && h.Between(s, |s.counts|)
    ensures ReportedMinNonZero(h.layout, h.minNonZero) == 1
  {
    hide Layout.IndexFor, Layout.BucketFor, Layout.NumBins, Layout.ValueFor, Layout.LowestEquivalent, LayoutFor;
    hide Layout.HighestEquivalent, ReportedMax, ReportedMinNonZero, Top, Fits, Reduced, Prefix, AllAtMost, NoneAfter;
    hide ExactStats, ExactMinNonZero, MaxBuckets, Layout.Start, Layout.Width, Layout.EquivalentRange;
    CoarseBuckets(h.layout);
    CoarseExtremes(h.layout, h.counts, h.maxValue, h.minNonZero);
    CoarseRange(h.layout, s.counts, s.maxValue, s.minNonZero);
    OneTakenOut(h.layout, h.counts, s.counts);
  }

  lemma MinReported(h: Histogram)
    requires h.layout.Valid()
    ensures h.MinNzRecorded() == ReportedMinNonZero(h.layout, h.minNonZero)
  {
  }

  lemma SampledCounts(h: Histogram, s: Histogram)
    requires h.Valid() && s.Valid()
    requires h.layout == s.layout == Layout(0, 0) && h.high == s.high == 7
    requires Tallies(h.layout, h.counts, [0, 1, 4]) && Tallies(s.layout, s.counts, [1])
    ensures h.layout.Valid() && h.bucketCount == 3
    ensures h.counts == [1, 1, 0, 1] && s.counts == [0, 1, 0, 0]
  {
    hide Histogram.Valid, Layout.IndexFor, Tally;
    CoarseLength(h);
    CoarseLength(s);
    SmallTallies(h.layout);
  }

  /** In the topmost class, `HighestEquivalent` falls short of an equivalent value. */
  lemma HighestEquivalentFallsShort(g: Layout)
    requires g.Valid()
    ensures g.Equivalent(U64_MAX - 1, U64_MAX)
    ensures g.HighestEquivalent(U64_MAX - 1) < U64_MAX
  {
    hide Layout.IndexFor, Layout.Start, Layout.Width, Layout.LowestEquivalent, Layout.EquivalentRange;
    TopClass(g);
    IndexUnique(g, g.IndexFor(U64_MAX), U64_MAX - 1);
    ValueOfIndexFor(g, U64_MAX - 1);
    ValueOfIndexFor(g, U64_MAX);
  }

  /** With the widest step, the level behind the first stop overflows, whatever the histogram holds. */
  lemma WidestStepOverflows(x: Source)
    requires x.Valid()
    ensures !LevelsFit(x, U64_MAX)
    ensures Level(U64_MAX, 1) <= U64_MAX < Level(U64_MAX, 2)
  {
    hide Layout.IndexFor, Layout.ValueFor, Layout.NumBins, FirstPast, EndOfStop, StopReaching, NoneAfter;
    LevelMonotone(U64_MAX, 2, FirstPast(x, U64_MAX) + 1);
  }
}
