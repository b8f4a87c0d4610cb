/**
  What a histogram promises about the samples it was given: the bucketed counts answer rank
  and range queries like the plain collection of samples does, up to the width of one class.
 */
module Accuracy {
  import opened Bits
  import opened Layouts
  import opened Counts
  import opened Stats
  import opened Ranges
  import opened RoundTrips
  import opened Omission
  import opened Config
  import opened Histograms
  import opened Wrappers

  /** Samples that belong at index `j`. */
  ghost function Tally(g: Layout, samples: seq<U64>, j: nat): nat
    requires g.Valid()
  {
    if samples == [] then 0
    else Tally(g, samples[..|samples| - 1], j) + (if g.IndexFor(samples[|samples| - 1]) == j then 1 else 0)
  }

  /** Samples that belong below index `n`. */
  ghost function TallyBelow(g: Layout, samples: seq<U64>, n: nat): (t: nat)
    requires g.Valid()
    ensures t <= |samples|
  {
    if samples == [] then 0
    else TallyBelow(g, samples[..|samples| - 1], n) + (if g.IndexFor(samples[|samples| - 1]) < n then 1 else 0)
  }

  /** The counts array is the exact bucketed form of the samples. */
  ghost predicate Tallies(g: Layout, c: seq<nat>, samples: seq<U64>)
    requires g.Valid()
  {
    && (forall j :: 0 <= j < |c| ==> c[j] == Tally(g, samples, j))
    && (forall k :: 0 <= k < |samples| ==> g.IndexFor(samples[k]) < |c|)
  }

  ghost predicate Sorted(s: seq<U64>) {
    forall a, b :: 0 <= a < b < |s| ==> s[a] <= s[b]
  }

  lemma {:induction false} TallyBelowNext(g: Layout, samples: seq<U64>, n: nat)
    requires g.Valid()
    ensures TallyBelow(g, samples, n + 1) == TallyBelow(g, samples, n) + Tally(g, samples, n)
    ensures TallyBelow(g, samples, 0) == 0
  {
    hide Layout.IndexFor;
    if samples != [] {
      TallyBelowNext(g, samples[..|samples| - 1], n);
    }
  }

  /** Prefix sums of the counts are numbers of samples. */
  lemma {:induction false} PrefixIsTally(g: Layout, c: seq<nat>, samples: seq<U64>, n: nat)
    requires g.Valid()
    requires Tallies(g, c, samples)
    requires n <= |c|
    ensures Prefix(c, n) == TallyBelow(g, samples, n)
  {
    hide Layout.IndexFor, Tally, TallyBelow;
    if n == 0 {
      TallyBelowNext(g, samples, 0);
    } else {
      PrefixIsTally(g, c, samples, n - 1);
      TallyBelowNext(g, samples, n - 1);
    }
  }

  lemma {:induction false} TallyBelowAll(g: Layout, samples: seq<U64>, n: nat)
    requires g.Valid()
    requires forall k :: 0 <= k < |samples| ==> g.IndexFor(samples[k]) < n
    ensures TallyBelow(g, samples, n) == |samples|
  {
    hide Layout.IndexFor;
    if samples != [] {
      TallyBelowAll(g, samples[..|samples| - 1], n);
    }
  }

  lemma SumIsLength(g: Layout, c: seq<nat>, samples: seq<U64>)
    requires g.Valid()
    requires Tallies(g, c, samples)
    ensures Sum(c) == |samples|
  {
    hide Layout.IndexFor, Tally, TallyBelow;
    PrefixIsTally(g, c, samples, |c|);
    TallyBelowAll(g, samples, |c|);
  }

  // ---- the order of the samples does not matter ----

  /** Taking out one sample, wherever it is. */
  lemma {:induction false} TallyWithout(g: Layout, samples: seq<U64>, m: nat, j: nat)
    requires g.Valid()
    requires m < |samples|
    ensures Tally(g, samples, j) ==
      Tally(g, samples[..m] + samples[m + 1..], j) + (if g.IndexFor(samples[m]) == j then 1 else 0)
    decreases |samples|
  {
    hide Layout.IndexFor;
    var last := |samples| - 1;
    var rest := samples[..m] + samples[m + 1..];
    if m == last {
      assert rest == samples[..last];
    } else {
      TallyWithout(g, samples[..last], m, j);
      assert rest[..|rest| - 1] == samples[..last][..m] + samples[..last][m + 1..];
      assert rest[|rest| - 1] == samples[last];
    }
  }

  lemma WithoutOne(s: seq<U64>, m: nat)
    requires m < |s|
    ensures multiset(s) == multiset(s[..m] + s[m + 1..]) + multiset{s[m]}
  {
    assert s == s[..m] + ([s[m]] + s[m + 1..]);
  }

  lemma SameWithoutOne(a: multiset<U64>, b: multiset<U64>, x: U64)
    requires a + multiset{x} == b + multiset{x}
    ensures a == b
  {
    forall y: U64 ensures a[y] == b[y] {
      assert (a + multiset{x})[y] == (b + multiset{x})[y];
    }
  }

  /** The last element of `a` occurs in every arrangement of `a`. */
  lemma FindLast(a: seq<U64>, b: seq<U64>) returns (m: nat)
    requires multiset(a) == multiset(b)
    requires a != []
    ensures m < |b| && b[m] == a[|a| - 1]
    ensures multiset(a[..|a| - 1]) == multiset(b[..m] + b[m + 1..])
  {
    var last := |a| - 1;
    assert a[last] in multiset(b);
    m :| 0 <= m < |b| && b[m] == a[last];
    WithoutOne(a, last);
    WithoutOne(b, m);
    assert a[..last] + a[last + 1..] == a[..last];
    SameWithoutOne(multiset(a[..last]), multiset(b[..m] + b[m + 1..]), a[last]);
  }

  lemma {:induction false} TallyOfPermutation(g: Layout, a: seq<U64>, b: seq<U64>, j: nat)
    requires g.Valid()
    requires multiset(a) == multiset(b)
    ensures Tally(g, a, j) == Tally(g, b, j)
    decreases |a|
  {
    hide Layout.IndexFor;
    if a == [] {
      assert |b| == |multiset(b)| == 0;
    } else {
      var m := FindLast(a, b);
      TallyOfPermutation(g, a[..|a| - 1], b[..m] + b[m + 1..], j);
      TallyWithout(g, b, m, j);
    }
  }

  lemma TalliesPermuted(g: Layout, c: seq<nat>, a: seq<U64>, b: seq<U64>)
    requires g.Valid()
    requires Tallies(g, c, a)
    requires multiset(a) == multiset(b)
    ensures Tallies(g, c, b)
  {
    hide Layout.IndexFor, Tally;
    forall j | 0 <= j < |c| ensures c[j] == Tally(g, b, j) {
      TallyOfPermutation(g, a, b, j);
    }
    forall k | 0 <= k < |b| ensures g.IndexFor(b[k]) < |c| {
      assert b[k] in multiset(a);
    }
  }

  // ---- rank queries ----

  /** In a sorted sequence, the samples below an index come first. */
  lemma {:induction false} SortedSplit(g: Layout, s: seq<U64>, k: nat, n: nat)
    requires g.Valid()
    requires Sorted(s)
    requires k < |s|
    ensures g.IndexFor(s[k]) < n <==> k < TallyBelow(g, s, n)
    decreases |s|
  {
    hide Layout.IndexFor;
    var last := |s| - 1;
    var front := s[..last];
    if g.IndexFor(s[last]) < n {
      forall i | 0 <= i < |s| ensures g.IndexFor(s[i]) < n {
        IndexMonotone(g, s[i], s[last]);
      }
      TallyBelowAll(g, s, n);
    } else if k < last {
      SortedSplit(g, front, k, n);
    }
  }

  /** The count that holds rank `k` is the one of the k-th smallest sample. */
  lemma RankFindsSample(g: Layout, c: seq<nat>, samples: seq<U64>, sorted: seq<U64>, k: nat, i: nat)
    requires g.Valid()
    requires Tallies(g, c, samples)
    requires Sorted(sorted) && multiset(sorted) == multiset(samples)
    requires 1 <= k <= |sorted|
    requires AtRank(c, k, i)
    ensures g.IndexFor(sorted[k - 1]) == i
  {
    hide Layout.IndexFor, Tally, TallyBelow, Tallies;
    TalliesPermuted(g, c, samples, sorted);
    PrefixIsTally(g, c, sorted, i);
    PrefixIsTally(g, c, sorted, i + 1);
    SortedSplit(g, sorted, k - 1, i);
    SortedSplit(g, sorted, k - 1, i + 1);
  }

  /** Both ends of a class are closer to each of its values than the class is wide. */
  lemma ClassDistance(g: Layout, buckets: nat, i: nat, v: U64)
    requires g.Valid()
    requires 1 <= buckets <= MaxBuckets(g)
    requires i < g.NumBins(buckets)
    requires g.IndexFor(v) == i
    ensures
      var hi, lo := g.HighestEquivalent(g.ValueFor(i)), g.LowestEquivalent(g.ValueFor(i));
      && lo <= v < lo + g.EquivalentRange(v)
      && v - g.EquivalentRange(v) < hi < v + g.EquivalentRange(v)
      && (v != U64_MAX ==> v <= hi)
  {
    hide Layout.IndexFor, Layout.ValueFor, Layout.NumBins, Layout.LowestEquivalent, Layout.HighestEquivalent;
    hide Layout.EquivalentRange;
    hide Layout.Start, Layout.Width;
    IndexOfValueFor(g, buckets, i);
    ValueOfIndexFor(g, v);
    ValueOfIndexFor(g, g.ValueFor(i));
    HighestEquivalentInClass(g, g.ValueFor(i));
    TopClass(g);
    if v != U64_MAX {
      BelowHighestEquivalent(g, v, g.ValueFor(i));
    }
  }

  /**
    The accuracy of rank queries, from the counts array alone: the value reported for the k-th
    smallest of the samples is off by less than the unit asked for at construction, or by less
    than one part in 10^sigfig of the sample.
   */
  lemma RankIsAccurate(low: nat, sigfig: nat, g: Layout, buckets: nat, c: seq<nat>,
                       samples: seq<U64>, sorted: seq<U64>, k: nat, i: nat)
    requires Configured(low, sigfig, g)
    requires 1 <= buckets <= MaxBuckets(g)
    requires |c| == g.NumBins(buckets)
    requires Tallies(g, c, samples)
    requires Sorted(sorted) && multiset(sorted) == multiset(samples)
    requires 1 <= k <= |sorted|
    requires AtRank(c, k, i)
    ensures
      var v := sorted[k - 1];
      var hi, lo := g.HighestEquivalent(g.ValueFor(i)), g.LowestEquivalent(g.ValueFor(i));
      && g.IndexFor(v) == i
      && v - g.EquivalentRange(v) < hi < v + g.EquivalentRange(v)
      && lo <= v < lo + g.EquivalentRange(v)
      && g.EquivalentRange(v) <= Max(low, v / Pow10(sigfig))
  {
    hide Layout.IndexFor, Layout.ValueFor, Layout.NumBins, Layout.LowestEquivalent, Layout.HighestEquivalent;
    hide Layout.EquivalentRange;
    hide Tallies, AtRank, Sorted, LayoutFor, Pow10;
    RankFindsSample(g, c, samples, sorted, k, i);
    AtRankInRange(c, k, i);
    ClassDistance(g, buckets, i, sorted[k - 1]);
    RangeIsPrecise(low, sigfig, g, sorted[k - 1]);
  }

  lemma AtRankInRange(c: seq<nat>, k: nat, i: nat)
    requires AtRank(c, k, i)
    ensures i < |c|
  {
  }

  /** Range queries count the samples of all classes from the one of `lo` to the one of `hi`. */
  lemma SpanIsTally(g: Layout, c: seq<nat>, samples: seq<U64>, lo: nat, hi: nat)
    requires g.Valid()
    requires Tallies(g, c, samples)
    requires lo <= hi < |c|
    ensures Span(c, lo, hi) == TallyBelow(g, samples, hi + 1) - TallyBelow(g, samples, lo)
  {
    hide Layout.IndexFor, Tally, TallyBelow, Tallies;
    PrefixIsTally(g, c, samples, lo);
    PrefixIsTally(g, c, samples, hi + 1);
  }

  // ---- runs of records ----

  /** One more sample, and room for all indexes of a longer array. */
  lemma TalliesRecord(g: Layout, c: seq<nat>, samples: seq<U64>, v: U64, n: nat, cap: nat)
    requires g.Valid()
    requires Tallies(g, c, samples)
    requires |c| <= n
    requires g.IndexFor(v) < n
    requires Tally(g, samples + [v], g.IndexFor(v)) <= cap
    ensures Tallies(g, Bump(Resized(c, n), g.IndexFor(v), 1, cap), samples + [v])
  {
    hide Layout.IndexFor;
    var c' := Bump(Resized(c, n), g.IndexFor(v), 1, cap);
    assert (samples + [v])[..|samples|] == samples;
    forall j | 0 <= j < n ensures c'[j] == Tally(g, samples + [v], j) {
      if j >= |c| {
        NothingBeyond(g, samples, |c|, j);
      }
    }
  }

  lemma {:induction false} NothingBeyond(g: Layout, samples: seq<U64>, n: nat, j: nat)
    requires g.Valid()
    requires forall k :: 0 <= k < |samples| ==> g.IndexFor(samples[k]) < n
    requires n <= j
    ensures Tally(g, samples, j) == 0
  {
    hide Layout.IndexFor;
    if samples != [] {
      NothingBeyond(g, samples[..|samples| - 1], n, j);
    }
  }

  lemma {:induction false} TallyMonotone(g: Layout, samples: seq<U64>, k: nat, j: nat)
    requires g.Valid()
    requires k <= |samples|
    ensures Tally(g, samples[..k], j) <= Tally(g, samples, j)
    decreases |samples|
  {
    hide Layout.IndexFor;
    if k < |samples| {
      TallyMonotone(g, samples[..|samples| - 1], k, j);
      assert samples[..|samples| - 1][..k] == samples[..k];
    } else {
      assert samples[..k] == samples;
    }
  }

  /** No counter saturates while these samples are recorded into an empty histogram. */
  ghost predicate Unsaturated(g: Layout, samples: seq<U64>, cap: nat)
    requires g.Valid()
  {
    forall j :: Tally(g, samples, j) <= cap
  }

  lemma NextSample(g: Layout, c: seq<nat>, samples: seq<U64>, k: nat, n: nat, cap: nat)
    requires g.Valid()
    requires k < |samples|
    requires Unsaturated(g, samples, cap)
    requires Tallies(g, c, samples[..k])
    requires |c| <= n
    requires g.IndexFor(samples[k]) < n
    ensures Tallies(g, Bump(Resized(c, n), g.IndexFor(samples[k]), 1, cap), samples[..k + 1])
  {
    hide Layout.IndexFor, Tally, Tallies, Bump;
    assert samples[..k] + [samples[k]] == samples[..k + 1];
    var i := g.IndexFor(samples[k]);
    TallyMonotone(g, samples, k + 1, i);
    assert Tally(g, samples, i) <= cap;
    TalliesRecord(g, c, samples[..k], samples[k], n, cap);
  }

  lemma TalliesNothing(g: Layout, c: seq<nat>)
    requires g.Valid()
    requires c == Zeros(|c|)
    ensures Tallies(g, c, [])
  {
    hide Layout.IndexFor;
  }

  /** Records samples one after the other; with auto-resize, or if all are in range, none is refused. */
  method RecordAll(h: Histogram, samples: seq<U64>) returns (ok: bool)
    requires h.Valid()
    requires h.counts == Zeros(|h.counts|) && h.total == 0
    requires h.layout.Valid() && Unsaturated(h.layout, samples, h.counterMax)
    modifies h
    ensures h.Valid()
    ensures ok ==> h.layout.Valid() && Tallies(h.layout, h.counts, samples)
    ensures ok ==> h.total == Min(U64_MAX, |samples|)
    ensures old(h.autoResize) ==> ok
    ensures (forall k :: 0 <= k < |samples| ==> old(h.HasSlot(samples[k]))) ==>
      ok && |h.counts| == |old(h.counts)| && h.high == old(h.high)
    ensures old(h.Exact()) ==> h.Exact()
    ensures old(h.MinKnown()) ==> h.MinKnown()
  {
    hide Layout.IndexFor, Layout.NumBins, Layout.BucketFor, LayoutFor, ExactStats, ExactMinNonZero, Tallies;
    hide Unsaturated, Bump;
    hide Resized, Prefix, NoneAfter, AllAtMost;
    TalliesNothing(h.layout, h.counts);
    assert samples[..0] == [];
    for k := 0 to |samples|
      invariant h.Valid()
      invariant Tallies(h.layout, h.counts, samples[..k])
      invariant h.total == Min(U64_MAX, k)
      invariant |old(h.counts)| <= |h.counts|
      invariant (forall j :: 0 <= j < |samples| ==> old(h.HasSlot(samples[j]))) ==>
        |h.counts| == |old(h.counts)| && h.high == old(h.high)
      invariant h.autoResize == old(h.autoResize)
      invariant old(h.Exact()) ==> h.Exact()
      invariant old(h.MinKnown()) ==> h.MinKnown()
    {
      label before:
      var r := h.RecordN(samples[k], 1);
      if r.Fail? {
        assert !old(h.HasSlot(samples[k]));
        return false;
      }
      NextSample(h.layout, old@before(h.counts), samples, k, |h.counts|, h.counterMax);
    }
    assert samples[..|samples|] == samples;
    ok := true;
  }

  /** Values of the same class have the same highest equivalent value, but for the largest word. */
  lemma SameHighest(g: Layout, v: U64, w: U64)
    requires g.Valid()
    requires g.IndexFor(v) == g.IndexFor(w)
    ensures g.LowestEquivalent(v) == g.LowestEquivalent(w)
    ensures v != U64_MAX && w != U64_MAX ==> g.HighestEquivalent(v) == g.HighestEquivalent(w)
  {
    hide Layout.IndexFor, Layout.LowestEquivalent, Layout.EquivalentRange, Layout.HighestEquivalent, Layout.Start;
    ValueOfIndexFor(g, v);
    ValueOfIndexFor(g, w);
    HighestEquivalentInClass(g, v);
    HighestEquivalentInClass(g, w);
    IndexMonotone(g, v, U64_MAX);
  }

  /** What the value at an index says about a sample of its class. */
  lemma RepresentsSample(g: Layout, buckets: nat, i: nat, v: U64)
    requires g.Valid()
    requires 1 <= buckets <= MaxBuckets(g)
    requires i < g.NumBins(buckets)
    requires g.IndexFor(v) == i
    ensures g.LowestEquivalent(g.ValueFor(i)) == g.LowestEquivalent(v)
    ensures v != U64_MAX ==> g.HighestEquivalent(g.ValueFor(i)) == g.HighestEquivalent(v)
  {
    hide Layout.IndexFor, Layout.LowestEquivalent, Layout.HighestEquivalent, Layout.NumBins, Layout.ValueFor;
    hide Layout.Start;
    IndexOfValueFor(g, buckets, i);
    SameHighest(g, g.ValueFor(i), v);
    ValueForNotMax(g, i);
  }

  /** The k-th smallest of the samples that a histogram holds, to within its precision. */
  method KthSmallest(h: Histogram, k: U64, ghost samples: seq<U64>, ghost sorted: seq<U64>) returns (value: U64)
    requires h.Valid() && h.layout.Valid()
    requires Tallies(h.layout, h.counts, samples)
    requires Sorted(sorted) && multiset(sorted) == multiset(samples)
    requires 1 <= k <= |samples| <= U64_MAX
    ensures |sorted| == |samples|
    ensures var v := sorted[k - 1];
      && v - h.layout.EquivalentRange(v) < value < v + h.layout.EquivalentRange(v)
      && h.layout.EquivalentRange(v) <= Max(h.low, v / Pow10(h.sigfig))
      && (v != U64_MAX ==> value == h.layout.HighestEquivalent(v))
  {
    hide Layout.IndexFor, Layout.NumBins, Layout.BucketFor, Layout.ValueFor, Layout.EquivalentRange;
    hide Layout.HighestEquivalent, Layout.LowestEquivalent;
    hide LayoutFor, Tallies, Prefix, NoneAfter, AllAtMost, Sorted, Pow10, AtRank;
    assert |sorted| == |multiset(sorted)| == |multiset(samples)| == |samples|;
    SumIsLength(h.layout, h.counts, samples);
    BucketCount(h.layout, h.high);
    value := h.ValueAtRank(k, false);
    ghost var i :| AtRank(h.counts, k, i) && value == h.layout.HighestEquivalent(h.layout.ValueFor(i));
    RankIsAccurate(h.low, h.sigfig, h.layout, h.bucketCount, h.counts, samples, sorted, k, i);
    AtRankInRange(h.counts, k, i);
    RepresentsSample(h.layout, h.bucketCount, i, sorted[k - 1]);
  }

  /** The value at a quantile of the samples that a histogram holds, with exact arithmetic for the rank. */
  method Quantile(h: Histogram, quantile: real, ghost samples: seq<U64>, ghost sorted: seq<U64>) returns (value: U64)
    requires h.Valid() && h.layout.Valid()
    requires Tallies(h.layout, h.counts, samples)
    requires Sorted(sorted) && multiset(sorted) == multiset(samples)
    requires h.total == |samples| > 0
    ensures 1 <= QuantileRank(quantile, |samples|) <= |samples| == |sorted|
    ensures var v := sorted[QuantileRank(quantile, |samples|) - 1];
      && v - h.layout.EquivalentRange(v) < value < v + h.layout.EquivalentRange(v)
      && h.layout.EquivalentRange(v) <= Max(h.low, v / Pow10(h.sigfig))
      && (quantile == 0.0 ==> value == h.layout.LowestEquivalent(v))
      && (quantile != 0.0 && v != U64_MAX ==> value == h.layout.HighestEquivalent(v))
  {
    hide Layout.IndexFor, Layout.NumBins, Layout.BucketFor, Layout.ValueFor, Layout.EquivalentRange;
    hide Layout.HighestEquivalent, Layout.LowestEquivalent;
    hide LayoutFor, Tallies, Prefix, NoneAfter, AllAtMost, Sorted, Pow10, AtRank, QuantileRank;
    assert |sorted| == |multiset(sorted)| == |multiset(samples)| == |samples|;
    SumIsLength(h.layout, h.counts, samples);
    BucketCount(h.layout, h.high);
    QuantileRankInRange(quantile, |samples|);
    value := h.ValueAtQuantile(quantile);
    ghost var k := QuantileRank(quantile, |samples|);
    ghost var i :| AtRank(h.counts, k, i)
      && value == (if quantile == 0.0 then h.layout.LowestEquivalent(h.layout.ValueFor(i))
                   else h.layout.HighestEquivalent(h.layout.ValueFor(i)));
    RankIsAccurate(h.low, h.sigfig, h.layout, h.bucketCount, h.counts, samples, sorted, k, i);
    AtRankInRange(h.counts, k, i);
    RepresentsSample(h.layout, h.bucketCount, i, sorted[k - 1]);
  }

  // ---- adding histograms ----

  /** The samples of another histogram as an addition sees them: each as the lowest value of its class. */
  ghost function Lowered(src: Layout, samples: seq<U64>): (s: seq<U64>)
    requires src.Valid()
    ensures |s| == |samples|
  {
    seq(|samples|, k requires 0 <= k < |samples| => src.LowestEquivalent(samples[k]))
  }

  lemma ConvOfSample(src: Layout, dst: Layout, v: U64)
    requires src.Valid() && dst.Valid()
    ensures Conv(src, dst, src.IndexFor(v)) == dst.IndexFor(src.LowestEquivalent(v))
  {
    hide Layout.IndexFor, Layout.ValueFor, Layout.LowestEquivalent, Layout.Start;
    ValueOfIndexFor(src, v);
  }

  /** One more sample in the source is one more at the index where its class belongs. */
  lemma {:induction false} ImageUpdate(src: Layout, dst: Layout, c: seq<nat>, i: nat, x: nat, n: nat, j: nat)
    requires dst.Valid()
    requires i < |c| && n <= |c|
    ensures Image(src, dst, c[i := x], n, j) ==
      Image(src, dst, c, n, j) + if i < n && Conv(src, dst, i) == j then x - c[i] else 0
  {
    hide Conv;
    if n > 0 {
      ImageUpdate(src, dst, c, i, x, n - 1, j);
    }
  }

  lemma {:induction false} ImageIsTally(src: Layout, dst: Layout, c: seq<nat>, samples: seq<U64>, j: nat)
    requires src.Valid() && dst.Valid()
    requires Tallies(src, c, samples)
    ensures Image(src, dst, c, |c|, j) == Tally(dst, Lowered(src, samples), j)
    decreases |samples|
  {
    hide Layout.IndexFor, Layout.LowestEquivalent, Conv, Image;
    if samples == [] {
      ImageZeros(src, dst, c, 0, |c|, j);
      NoImage(src, dst, c, j);
    } else {
      var last := |samples| - 1;
      var i := src.IndexFor(samples[last]);
      var c' := c[i := c[i] - 1];
      ImageIsTally(src, dst, c', samples[..last], j);
      ImageUpdate(src, dst, c, i, c[i] - 1, |c|, j);
      ConvOfSample(src, dst, samples[last]);
      assert Lowered(src, samples)[..last] == Lowered(src, samples[..last]);
    }
  }

  lemma NoImage(src: Layout, dst: Layout, c: seq<nat>, j: nat)
    requires dst.Valid()
    ensures Image(src, dst, c, 0, j) == 0
  {
  }

  /**
    What a successful addition means for the samples, for any two precisions and units: every
    sample of the source is recorded as the lowest value of its class there.
   */
  lemma MergedTallies(dst: Layout, base: seq<nat>, samples: seq<U64>,
                      src: Layout, c: seq<nat>, others: seq<U64>, cap: nat)
    requires src.Valid() && dst.Valid()
    requires Tallies(dst, base, samples)
    requires Tallies(src, c, others)
    requires forall k :: 0 <= k < |others| ==> dst.IndexFor(src.LowestEquivalent(others[k])) < |base|
    requires Unsaturated(dst, samples + Lowered(src, others), cap)
    ensures Tallies(dst, Merged(base, src, dst, c, |c|, cap), samples + Lowered(src, others))
  {
    hide Layout.IndexFor, Layout.LowestEquivalent, Conv, Image, Tally;
    var all := samples + Lowered(src, others);
    forall j | 0 <= j < |base| ensures Merged(base, src, dst, c, |c|, cap)[j] == Tally(dst, all, j) {
      ImageIsTally(src, dst, c, others, j);
      TallyAppend(dst, samples, Lowered(src, others), j);
      assert Tally(dst, all, j) <= cap;
    }
  }

  lemma TalliesPadded(g: Layout, c: seq<nat>, samples: seq<U64>, n: nat)
    requires g.Valid()
    requires Tallies(g, c, samples)
    requires |c| <= n
    ensures Tallies(g, Resized(c, n), samples)
  {
    hide Layout.IndexFor, Tally;
    forall j | |c| <= j < n ensures Tally(g, samples, j) == 0 {
      NothingBeyond(g, samples, |c|, j);
    }
  }

  /** The samples of a histogram that fits another have counters there. */
  lemma LoweredInRange(h: Histogram, s: Histogram, others: seq<U64>)
    requires h.Valid() && s.Valid() && h.layout.Valid() && s.layout.Valid()
    requires h.HasSlot(s.MaxRecorded())
    requires Tallies(s.layout, s.counts, others)
    ensures forall k :: 0 <= k < |others| ==> h.layout.IndexFor(s.layout.LowestEquivalent(others[k])) < |h.counts|
  {
    hide Layout.IndexFor, Layout.ValueFor, Layout.NumBins, Layout.BucketFor, LayoutFor, ReportedMax, Conv, Prefix;
    hide AllAtMost, Tally, Layout.LowestEquivalent;
    BucketCount(h.layout, h.high);
    BucketCount(s.layout, s.high);
    LandsAnywhere(h.layout, h.bucketCount, s.layout, s.bucketCount, s.counts, s.maxValue);
    forall k | 0 <= k < |others| ensures h.layout.IndexFor(s.layout.LowestEquivalent(others[k])) < |h.counts| {
      TallyPositive(s.layout, others, s.layout.IndexFor(others[k]));
      ConvOfSample(s.layout, h.layout, others[k]);
    }
  }

  /** Adds a histogram; what is held afterwards are the samples of both, those of the source lowered. */
  method AddHolding(h: Histogram, s: Histogram, ghost samples: seq<U64>, ghost others: seq<U64>)
    returns (r: Outcome<AdditionError>)
    requires h.Valid() && s.Valid() && s != h && h.layout.Valid() && s.layout.Valid()
    requires h.counterMax == s.counterMax
    requires Tallies(h.layout, h.counts, samples) && Tallies(s.layout, s.counts, others)
    requires Unsaturated(h.layout, samples + Lowered(s.layout, others), h.counterMax)
    modifies h
    ensures h.Valid()
    ensures r.Pass? ==> Tallies(h.layout, h.counts, samples + Lowered(s.layout, others))
  {
    hide Layout.IndexFor, Layout.ValueFor, Layout.NumBins, Layout.BucketFor, LayoutFor, ReportedMax, Conv, Prefix, Top;
    hide AllAtMost, NoneAfter, Tallies, Unsaturated, Layout.LowestEquivalent, Lowered, Merged, Resized;
    hide ExactStats, ExactMinNonZero;
    r := h.Add(s);
    if r.Pass? {
      LoweredInRange(h, s, others);
      TalliesPadded(h.layout, old(h.counts), samples, |h.counts|);
      MergedTallies(h.layout, Resized(old(h.counts), |h.counts|), samples, s.layout, s.counts, others, h.counterMax);
    }
  }

  // ---- correction for coordinated omission ----

  lemma {:induction false} BumpFirstAt(g: Layout, c: seq<nat>, values: seq<U64>, k: nat, n: nat, cap: nat, j: nat)
    requires g.Valid()
    requires k <= |values|
    requires AllHaveSlots(g, values, |c|)
    requires j < |c| && c[j] <= cap
    ensures BumpFirst(g, c, values, k, n, cap)[j] == Min(cap, c[j] + Groups(n, Tally(g, values[..k], j)))
  {
    hide Layout.IndexFor, Groups;
    GroupsNone(n);
    if k > 0 {
      BumpFirstAt(g, c, values, k - 1, n, cap, j);
      GroupsNext(n, Tally(g, values[..k - 1], j));
      assert values[..k][..k - 1] == values[..k - 1];
      assert g.IndexFor(values[k - 1]) < |c|;
    }
  }

  /** Recording several values adds to each counter as often as values belong there. */
  lemma BumpAllAt(g: Layout, c: seq<nat>, values: seq<U64>, n: nat, cap: nat, j: nat)
    requires g.Valid()
    requires AllHaveSlots(g, values, |c|)
    requires j < |c| && c[j] <= cap
    ensures BumpAll(g, c, values, n, cap)[j] == Min(cap, c[j] + Groups(n, Tally(g, values, j)))
  {
    hide BumpFirst, AllHaveSlots, Tally, Groups;
    BumpFirstAt(g, c, values, |values|, n, cap, j);
    assert values[..|values|] == values;
  }

  lemma TalliesCorrected(g: Layout, c: seq<nat>, samples: seq<U64>, values: seq<U64>, cap: nat)
    requires g.Valid()
    requires Tallies(g, c, samples)
    requires AllHaveSlots(g, values, |c|)
    requires Unsaturated(g, samples + values, cap)
    ensures Tallies(g, BumpAll(g, c, values, 1, cap), samples + values)
  {
    hide Layout.IndexFor, BumpAll, Tally;
    var t := BumpAll(g, c, values, 1, cap);
    forall j | 0 <= j < |c| ensures t[j] == Tally(g, samples + values, j) {
      TallyAppend(g, samples, values, j);
      assert Tally(g, samples + values, j) <= cap;
      BumpAllAt(g, c, values, 1, cap, j);
    }
    forall k | 0 <= k < |samples + values| ensures g.IndexFor((samples + values)[k]) < |c| {
      if k >= |samples| {
        assert (samples + values)[k] == values[k - |samples|];
      }
    }
  }

  /** Records a sample with correction; what is held afterwards are also the samples that were kept from being taken. */
  method RecordCorrectHolding(h: Histogram, value: U64, interval: U64, ghost samples: seq<U64>)
    returns (r: Outcome<RecordError>)
    requires h.Valid() && h.layout.Valid()
    requires Tallies(h.layout, h.counts, samples)
    requires Unsaturated(h.layout, samples + CorrectedValues(value, interval), h.counterMax)
    modifies h
    ensures h.Valid()
    ensures r.Fail? <==> !old(h.autoResize) && !old(h.HasSlot(value))
    ensures Tallies(h.layout, h.counts, if r.Pass? then samples + CorrectedValues(value, interval) else samples)
  {
    hide Layout.IndexFor, Layout.NumBins, Layout.BucketFor, LayoutFor, Prefix, Ranges.Top, Groups, CorrectedValues;
    hide AllAtMost, NoneAfter, Tallies, Unsaturated, Resized, ExactStats, ExactMinNonZero, BumpAll, AllHaveSlots;
    r := h.RecordNCorrect(value, 1, interval);
    if r.Pass? {
      var values := CorrectedValues(value, interval);
      TalliesPadded(h.layout, old(h.counts), samples, |h.counts|);
      TalliesCorrected(h.layout, Resized(old(h.counts), |h.counts|), samples, values, h.counterMax);
    }
  }

  // ---- range queries ----

  /** Samples whose index lies between two indexes, both included. */
  ghost function SamplesIn(g: Layout, samples: seq<U64>, lo: nat, hi: nat): nat
    requires g.Valid()
  {
    if samples == [] then 0
    else
      var i := g.IndexFor(samples[|samples| - 1]);
      SamplesIn(g, samples[..|samples| - 1], lo, hi) + (if lo <= i <= hi then 1 else 0)
  }

  lemma {:induction false} SamplesInIsTally(g: Layout, samples: seq<U64>, lo: nat, hi: nat)
    requires g.Valid()
    ensures SamplesIn(g, samples, lo, hi) ==
      if lo <= hi then TallyBelow(g, samples, hi + 1) - TallyBelow(g, samples, lo) else 0
  {
    hide Layout.IndexFor;
    if samples != [] {
      SamplesInIsTally(g, samples[..|samples| - 1], lo, hi);
    }
  }

  /** Samples from the lowest value equivalent to `low` to the last one equivalent to `high`. */
  ghost function SamplesBetween(g: Layout, samples: seq<U64>, low: U64, high: U64): nat
    requires g.Valid()
  {
    if samples == [] then 0
    else
      SamplesBetween(g, samples[..|samples| - 1], low, high)
      + (if Between(g, samples[|samples| - 1], low, high) then 1 else 0)
  }

  predicate Between(g: Layout, v: U64, low: U64, high: U64)
    requires g.Valid()
  {
    g.LowestEquivalent(low) <= v < g.LowestEquivalent(high) + g.EquivalentRange(high)
  }

  lemma BetweenIsIndexes(g: Layout, v: U64, low: U64, high: U64)
    requires g.Valid()
    ensures Between(g, v, low, high) <==> g.IndexFor(low) <= g.IndexFor(v) <= g.IndexFor(high)
  {
    hide Layout.IndexFor, Layout.Start, Layout.Width, Layout.LowestEquivalent, Layout.EquivalentRange;
    ValueOfIndexFor(g, low);
    ValueOfIndexFor(g, high);
    IndexGalois(g, g.IndexFor(low), v);
    IndexGalois(g, g.IndexFor(high) + 1, v);
    StartOfNext(g, g.IndexFor(high));
  }

  /** Apart from the largest word, these are the values up to `highest_equivalent`. */
  lemma BetweenUpToHighest(g: Layout, v: U64, low: U64, high: U64)
    requires g.Valid()
    requires v != U64_MAX
    ensures Between(g, v, low, high) <==> g.LowestEquivalent(low) <= v <= g.HighestEquivalent(high)
  {
    hide Layout.IndexFor, Layout.LowestEquivalent, Layout.EquivalentRange, Layout.HighestEquivalent;
    HighestEquivalentInClass(g, high);
    BetweenIsIndexes(g, v, high, high);
    BetweenIsIndexes(g, v, low, high);
    BetweenIsIndexes(g, v, v, high);
    ValueOfIndexFor(g, v);
    if g.IndexFor(v) <= g.IndexFor(high) {
      BelowHighestEquivalent(g, v, high);
    }
  }

  lemma {:induction false} SamplesBetweenIsIndexes(g: Layout, samples: seq<U64>, low: U64, high: U64)
    requires g.Valid()
    ensures SamplesBetween(g, samples, low, high) == SamplesIn(g, samples, g.IndexFor(low), g.IndexFor(high))
  {
    hide Layout.IndexFor, Between;
    if samples != [] {
      BetweenIsIndexes(g, samples[|samples| - 1], low, high);
      SamplesBetweenIsIndexes(g, samples[..|samples| - 1], low, high);
    }
  }

  lemma LastOfRange(h: Histogram)
    requires h.Valid()
    ensures h.layout.Valid() && |h.counts| > 0
    ensures h.layout.IndexFor(h.layout.ValueFor(|h.counts| - 1)) == |h.counts| - 1
  {
    hide Layout.IndexFor, Layout.NumBins, Layout.BucketFor, Layout.ValueFor, LayoutFor, Prefix, AllAtMost, NoneAfter;
    BucketCount(h.layout, h.high);
    IndexOfValueFor(h.layout, h.bucketCount, |h.counts| - 1);
  }

  /** A value beyond the range stands for the last one in it. */
  ghost function Clamped(h: Histogram, value: U64): (v: U64)
    requires h.Valid()
    reads h
    ensures h.layout.Valid() && |h.counts| > 0 && h.layout.IndexFor(v) == h.IndexForOrLast(value)
  {
    LastOfRange(h);
    if h.HasSlot(value) then value else h.layout.ValueFor(|h.counts| - 1)
  }

  /** How many of the samples lie between two values, both rounded to their classes and clamped to the range. */
  method CountSamples(h: Histogram, low: U64, high: U64, ghost samples: seq<U64>) returns (n: U64)
    requires h.Valid() && h.layout.Valid()
    requires Tallies(h.layout, h.counts, samples)
    ensures n == Min(U64_MAX, SamplesBetween(h.layout, samples, Clamped(h, low), Clamped(h, high)))
    ensures |h.counts| > 0
    ensures h.HasSlot(low) && h.HasSlot(high) ==> n == Min(U64_MAX, SamplesBetween(h.layout, samples, low, high))
    ensures h.HasSlot(low) && !h.HasSlot(high) ==>
      n == Min(U64_MAX, SamplesBetween(h.layout, samples, low, h.layout.ValueFor(|h.counts| - 1)))
    ensures !h.HasSlot(low) && !h.HasSlot(high) ==> n == Min(U64_MAX, h.counts[|h.counts| - 1])
  {
    hide Layout.IndexFor, Layout.NumBins, Layout.BucketFor, LayoutFor, Tallies, TallyBelow, SamplesIn, Prefix;
    hide AllAtMost, NoneAfter, SamplesBetween, Clamped;
    n := h.CountBetween(low, high);
    ghost var a, b := Clamped(h, low), Clamped(h, high);
    ghost var lo, hi := h.IndexForOrLast(low), h.IndexForOrLast(high);
    SamplesBetweenIsIndexes(h.layout, samples, a, b);
    SamplesInIsTally(h.layout, samples, lo, hi);
    if lo <= hi {
      SpanIsTally(h.layout, h.counts, samples, lo, hi);
    }
    ClampedCases(h, low);
    ClampedCases(h, high);
    LastSpan(h.counts);
  }

  lemma ClampedCases(h: Histogram, value: U64)
    requires h.Valid()
    ensures h.layout.Valid() && |h.counts| > 0
    ensures h.HasSlot(value) ==> Clamped(h, value) == value
    ensures !h.HasSlot(value) ==>
      && Clamped(h, value) == h.layout.ValueFor(|h.counts| - 1)
      && h.IndexForOrLast(value) == |h.counts| - 1
  {
    hide Layout.IndexFor, Layout.NumBins, Layout.BucketFor, LayoutFor, Prefix, AllAtMost, NoneAfter;
    LastOfRange(h);
  }

  lemma LastSpan(c: seq<nat>)
    ensures c != [] ==> Span(c, |c| - 1, |c| - 1) == c[|c| - 1]
  {
  }

  // ---- runs of groups ----

  /** A value recorded several times at once. */
  datatype Group = Group(value: U64, n: nat)

  ghost function Copies(g: Group): (s: seq<U64>)
    ensures |s| == g.n
    ensures forall k :: 0 <= k < |s| ==> s[k] == g.value
  {
    seq(g.n, _ => g.value)
  }

  /** The samples that a run of groups stands for. */
  ghost function Expanded(groups: seq<Group>): seq<U64> {
    if groups == [] then [] else Expanded(groups[..|groups| - 1]) + Copies(groups[|groups| - 1])
  }

  lemma {:induction false} TallyAppend(g: Layout, a: seq<U64>, b: seq<U64>, j: nat)
    requires g.Valid()
    ensures Tally(g, a + b, j) == Tally(g, a, j) + Tally(g, b, j)
    decreases |b|
  {
    hide Layout.IndexFor;
    if b == [] {
      assert a + b == a;
    } else {
      var last := |b| - 1;
      TallyAppend(g, a, b[..last], j);
      assert (a + b)[..|a| + last] == a + b[..last];
    }
  }

  lemma {:induction false} TallyCopies(g: Layout, v: U64, s: seq<U64>, j: nat)
    requires g.Valid()
    requires forall k :: 0 <= k < |s| ==> s[k] == v
    ensures Tally(g, s, j) == if g.IndexFor(v) == j then |s| else 0
    decreases |s|
  {
    hide Layout.IndexFor;
    if s != [] {
      TallyCopies(g, v, s[..|s| - 1], j);
    }
  }

  lemma {:induction false} TallyExpanded(g: Layout, groups: seq<Group>, k: nat, j: nat)
    requires g.Valid()
    requires k <= |groups|
    ensures Tally(g, Expanded(groups[..k]), j) <= Tally(g, Expanded(groups), j)
    decreases |groups|
  {
    hide Layout.IndexFor, Tally;
    if k < |groups| {
      var last := |groups| - 1;
      TallyExpanded(g, groups[..last], k, j);
      assert groups[..last][..k] == groups[..k];
      TallyAppend(g, Expanded(groups[..last]), Copies(groups[last]), j);
    } else {
      assert groups[..k] == groups;
    }
  }

  /** One more group, which needs room only for its own value. */
  lemma TalliesGroup(g: Layout, c: seq<nat>, samples: seq<U64>, group: Group, n: nat, cap: nat)
    requires g.Valid()
    requires Tallies(g, c, samples)
    requires |c| <= n
    requires g.IndexFor(group.value) < n
    requires Tally(g, samples + Copies(group), g.IndexFor(group.value)) <= cap
    ensures Tallies(g, Bump(Resized(c, n), g.IndexFor(group.value), group.n, cap), samples + Copies(group))
  {
    hide Layout.IndexFor, Tally;
    var i := g.IndexFor(group.value);
    var c' := Bump(Resized(c, n), i, group.n, cap);
    forall j | 0 <= j < n ensures c'[j] == Tally(g, samples + Copies(group), j) {
      TallyAppend(g, samples, Copies(group), j);
      TallyCopies(g, group.value, Copies(group), j);
      if j >= |c| {
        NothingBeyond(g, samples, |c|, j);
      }
    }
  }

  lemma NextGroup(g: Layout, c: seq<nat>, groups: seq<Group>, k: nat, n: nat, cap: nat)
    requires g.Valid()
    requires k < |groups|
    requires Unsaturated(g, Expanded(groups), cap)
    requires Tallies(g, c, Expanded(groups[..k]))
    requires |c| <= n
    requires g.IndexFor(groups[k].value) < n
    ensures Tallies(g, Bump(Resized(c, n), g.IndexFor(groups[k].value), groups[k].n, cap), Expanded(groups[..k + 1]))
    ensures |Expanded(groups[..k + 1])| == |Expanded(groups[..k])| + groups[k].n
  {
    hide Layout.IndexFor, Tally, Tallies, Bump;
    assert groups[..k + 1][..k] == groups[..k];
    var i := g.IndexFor(groups[k].value);
    TallyExpanded(g, groups, k + 1, i);
    assert Tally(g, Expanded(groups), i) <= cap;
    TalliesGroup(g, c, Expanded(groups[..k]), groups[k], n, cap);
  }

  /** Records groups of equal samples one after the other, with the effect of recording each sample. */
  method RecordGroups(h: Histogram, groups: seq<Group>) returns (ok: bool)
    requires h.Valid()
    requires h.counts == Zeros(|h.counts|) && h.total == 0
    requires forall k :: 0 <= k < |groups| ==> groups[k].n <= h.counterMax
    requires h.layout.Valid() && Unsaturated(h.layout, Expanded(groups), h.counterMax)
    modifies h
    ensures h.Valid()
    ensures ok ==> h.layout.Valid() && Tallies(h.layout, h.counts, Expanded(groups))
    ensures ok ==> h.total == Min(U64_MAX, |Expanded(groups)|)
    ensures old(h.autoResize) ==> ok
    ensures (forall k :: 0 <= k < |groups| ==> old(h.HasSlot(groups[k].value))) ==> ok
    ensures old(h.Exact()) && (forall k :: 0 <= k < |groups| ==> groups[k].n > 0) ==> h.Exact()
    ensures old(h.MinKnown()) && (forall k :: 0 <= k < |groups| ==> groups[k].n > 0) ==> h.MinKnown()
  {
    hide Layout.IndexFor, Layout.NumBins, Layout.BucketFor, LayoutFor, ExactStats, ExactMinNonZero, Tallies;
    hide Unsaturated, Bump, Resized;
    hide Prefix, NoneAfter, AllAtMost;
    TalliesNothing(h.layout, h.counts);
    assert groups[..0] == [];
    for k := 0 to |groups|
      invariant h.Valid()
      invariant Tallies(h.layout, h.counts, Expanded(groups[..k]))
      invariant h.total == Min(U64_MAX, |Expanded(groups[..k])|)
      invariant |old(h.counts)| <= |h.counts|
      invariant h.autoResize == old(h.autoResize)
      invariant old(h.Exact()) && (forall j :: 0 <= j < k ==> groups[j].n > 0) ==> h.Exact()
      invariant old(h.MinKnown()) && (forall j :: 0 <= j < k ==> groups[j].n > 0) ==> h.MinKnown()
    {
      label before:
      var r := h.RecordN(groups[k].value, groups[k].n);
      if r.Fail? {
        assert !old(h.HasSlot(groups[k].value));
        return false;
      }
      NextGroup(h.layout, old@before(h.counts), groups, k, |h.counts|, h.counterMax);
      SaturateTwice(|Expanded(groups[..k])|, groups[k].n);
    }
    assert groups[..|groups|] == groups;
    ok := true;
  }

  // ---- extremes ----

  ghost predicate Largest(samples: seq<U64>, v: U64) {
    v in samples && forall k :: 0 <= k < |samples| ==> samples[k] <= v
  }

  ghost predicate Smallest(samples: seq<U64>, v: U64) {
    v in samples && forall k :: 0 <= k < |samples| ==> v <= samples[k]
  }

  /** A count is zero exactly if no sample belongs to it. */
  lemma {:induction false} TallyPositive(g: Layout, samples: seq<U64>, j: nat)
    requires g.Valid()
    ensures Tally(g, samples, j) > 0 <==> exists k :: 0 <= k < |samples| && g.IndexFor(samples[k]) == j
  {
    hide Layout.IndexFor;
    if samples != [] {
      var last := |samples| - 1;
      TallyPositive(g, samples[..last], j);
      if exists k :: 0 <= k < last && g.IndexFor(samples[..last][k]) == j {
        var k :| 0 <= k < last && g.IndexFor(samples[..last][k]) == j;
        assert g.IndexFor(samples[k]) == j;
      }
      if exists k :: 0 <= k < |samples| && g.IndexFor(samples[k]) == j {
        var k :| 0 <= k < |samples| && g.IndexFor(samples[k]) == j;
        assert k < last ==> g.IndexFor(samples[..last][k]) == j;
      }
    }
  }

  /** The largest sample lies at the largest non-zero index. */
  lemma LargestIndex(g: Layout, c: seq<nat>, samples: seq<U64>, v: U64)
    requires g.Valid()
    requires Tallies(g, c, samples)
    requires Largest(samples, v)
    ensures LargestNonZero(c, g.IndexFor(v))
  {
    hide Layout.IndexFor, Tally;
    var k :| 0 <= k < |samples| && samples[k] == v;
    TallyPositive(g, samples, g.IndexFor(v));
    forall j | 0 <= j < |c| && c[j] != 0 ensures j <= g.IndexFor(v) {
      TallyPositive(g, samples, j);
      var i :| 0 <= i < |samples| && g.IndexFor(samples[i]) == j;
      IndexMonotone(g, samples[i], v);
    }
  }

  lemma SmallestIndex(g: Layout, c: seq<nat>, samples: seq<U64>, v: U64)
    requires g.Valid()
    requires Tallies(g, c, samples)
    requires Smallest(samples, v)
    ensures SmallestNonZero(c, g.IndexFor(v))
  {
    hide Layout.IndexFor, Tally;
    var k :| 0 <= k < |samples| && samples[k] == v;
    TallyPositive(g, samples, g.IndexFor(v));
    forall j | 0 <= j < g.IndexFor(v) ensures c[j] == 0 {
      TallyPositive(g, samples, j);
      if c[j] != 0 {
        var i :| 0 <= i < |samples| && g.IndexFor(samples[i]) == j;
        IndexMonotone(g, v, samples[i]);
      }
    }
  }

  /** Outside the first and the topmost class, the reported maximum ends the class of the largest sample. */
  lemma MaxIsOfLargest(h: Histogram, samples: seq<U64>, v: U64)
    requires h.Valid() && h.Exact() && h.layout.Valid()
    requires Tallies(h.layout, h.counts, samples)
    requires Largest(samples, v)
    ensures 0 < h.layout.IndexFor(v) < h.layout.IndexFor(U64_MAX) ==>
      h.MaxRecorded() == h.layout.LowestEquivalent(v) + h.layout.EquivalentRange(v) - 1
    ensures h.layout.IndexFor(v) == 0 ==> h.MaxRecorded() <= h.layout.UnitMask()
    ensures h.layout.IndexFor(v) == h.layout.IndexFor(U64_MAX) ==> h.MaxRecorded() >= U64_MAX - 1
  {
    hide Layout.IndexFor, Layout.NumBins, Layout.BucketFor, LayoutFor, Tallies, Sum, AllAtMost, Largest, Layout.Start;
    hide Layout.LowestEquivalent, Layout.EquivalentRange, Layout.HighestEquivalent, Layout.UnitMask, Pow2;
    var g := h.layout;
    LargestIndex(g, h.counts, samples, v);
    FirstClass(g, h.MaxRecorded());
    FirstClass(g, 0);
    TopIndexPositive(g);
    assert h.MaxIndex() == g.IndexFor(v);
    ReportedMaxIndex(g, h.maxValue);
    if 0 < g.IndexFor(v) {
      HighestEquivalentInClass(g, h.maxValue);
      ValueOfIndexFor(g, h.maxValue);
      ValueOfIndexFor(g, v);
    }
  }

  /**
    The reported minimum is the lowest value equivalent to the smallest sample; only if all samples
    are in the topmost class may it be the largest word, which the program also uses for "none".
   */
  lemma MinIsOfSmallest(h: Histogram, samples: seq<U64>, v: U64)
    requires h.Valid() && h.Exact() && h.layout.Valid() && |h.counts| > 0
    requires Tallies(h.layout, h.counts, samples)
    requires Smallest(samples, v)
    ensures h.layout.IndexFor(v) < h.layout.IndexFor(U64_MAX) ==> h.MinRecorded() == h.layout.LowestEquivalent(v)
    ensures h.MinRecorded() == h.layout.LowestEquivalent(v) || h.MinRecorded() == h.minNonZero == U64_MAX
  {
    hide Layout.IndexFor, Layout.NumBins, Layout.BucketFor, LayoutFor, Tallies, AllAtMost, Smallest, Layout.Start;
    hide Layout.LowestEquivalent, Layout.EquivalentRange, Layout.HighestEquivalent, Layout.ValueFor, Prefix, Pow2;
    var g := h.layout;
    SmallestIndex(g, h.counts, samples, v);
    CountAtMostSum(h.counts, g.IndexFor(v));
    ValueOfIndexFor(g, v);
    ValueForIsStart(g, 0);
    FirstClass(g, 0);
    TopIndexPositive(g);
    if h.counts[0] == 0 {
      assert g.IndexFor(h.minNonZero) == g.IndexFor(v);
      ValueOfIndexFor(g, h.minNonZero);
    }
  }

  /** Past the first class, the least non-zero value is reported exactly, whether or not zero was recorded. */
  lemma MinNonZeroIsOfSmallest(h: Histogram, samples: seq<U64>, v: U64)
    requires h.Valid() && h.layout.Valid()
    requires h.MinKnown()
    requires Tallies(h.layout, h.counts, samples)
    requires v in samples && h.layout.IndexFor(v) > 0
    requires forall k :: 0 <= k < |samples| && h.layout.IndexFor(samples[k]) > 0 ==> v <= samples[k]
    ensures h.layout.IndexFor(v) < h.layout.IndexFor(U64_MAX) ==> h.MinNzRecorded() == h.layout.LowestEquivalent(v)
  {
    hide Layout.IndexFor, Layout.NumBins, Layout.BucketFor, LayoutFor, AllAtMost, Layout.Start, Layout.ValueFor, Tally;
    hide Layout.LowestEquivalent, Layout.EquivalentRange, Layout.HighestEquivalent, Prefix, Pow2;
    var g := h.layout;
    var m :| 0 <= m < |samples| && samples[m] == v;
    TallyPositive(g, samples, g.IndexFor(v));
    var k := g.IndexFor(h.minNonZero);
    assert h.counts[g.IndexFor(v)] != 0;
    TallyPositive(g, samples, k);
    var i :| 0 <= i < |samples| && g.IndexFor(samples[i]) == k;
    IndexMonotone(g, v, samples[i]);
    ValueOfIndexFor(g, v);
    ValueOfIndexFor(g, h.minNonZero);
  }
}
