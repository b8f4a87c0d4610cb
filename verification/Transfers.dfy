/** What moving the counts of one histogram into or out of another does to its state. */
module Transfers {
  import opened Bits
  import opened Layouts
  import opened Counts
  import opened Stats
  import opened Ranges

  /** Every non-zero count of `c` belongs at an index below `bins` of `dst`. */
  ghost predicate Lands(src: Layout, dst: Layout, c: seq<nat>, bins: nat)
    requires dst.Valid()
  {
    forall i :: 0 <= i < |c| && c[i] != 0 ==> Conv(src, dst, i) < bins
  }

  /** A larger index stands for a larger value, which has an index at least as large anywhere else. */
  lemma ConvMonotone(src: Layout, dst: Layout, buckets: nat, i: nat, j: nat)
    requires src.Valid() && dst.Valid()
    requires 1 <= buckets <= MaxBuckets(src)
    requires i <= j < src.NumBins(buckets)
    ensures Conv(src, dst, i) <= Conv(src, dst, j)
  {
    hide Layout.IndexFor, Layout.ValueFor, Layout.NumBins;
    if i < j {
      ValueForIncreasing(src, buckets, i, j);
      IndexMonotone(dst, src.ValueFor(i), src.ValueFor(j));
    }
  }

  /** Counts that end at the index of the tracked maximum land no later than that maximum does. */
  lemma LandsBelowMax(src: Layout, dst: Layout, buckets: nat, c: seq<nat>, m: nat)
    requires src.Valid() && dst.Valid()
    requires 1 <= buckets <= MaxBuckets(src)
    requires m < |c| == src.NumBins(buckets)
    requires NoneAfter(c, m)
    ensures Lands(src, dst, c, Conv(src, dst, m) + 1)
  {
    hide Layout.NumBins, Conv;
    forall i | 0 <= i < |c| && c[i] != 0 ensures Conv(src, dst, i) <= Conv(src, dst, m) {
      ConvMonotone(src, dst, buckets, i, m);
    }
  }

  /** The representative of the maximum's class lands where the maximum itself does, or before. */
  lemma ConvOfMax(src: Layout, dst: Layout, maxValue: U64)
    requires src.Valid() && dst.Valid()
    ensures Conv(src, dst, src.IndexFor(maxValue)) <= dst.IndexFor(ReportedMax(src, maxValue))
    ensures src.ValueFor(src.IndexFor(maxValue)) <= ReportedMax(src, maxValue)
  {
    hide Layout.IndexFor, Layout.ValueFor, ReportedMax, Layout.LowestEquivalent, Layout.Start;
    ReportedMaxIndex(src, maxValue);
    ValueOfIndexFor(src, maxValue);
    IndexMonotone(dst, src.ValueFor(src.IndexFor(maxValue)), ReportedMax(src, maxValue));
  }

  lemma {:induction false} SumMerged(base: seq<nat>, src: Layout, dst: Layout, c: seq<nat>, n: nat, cap: nat)
    requires dst.Valid()
    requires n <= |c|
    requires AllAtMost(base, cap)
    requires Lands(src, dst, c, |base|)
    ensures AllAtMost(Merged(base, src, dst, c, n, cap), cap)
    ensures Sum(Merged(base, src, dst, c, n, cap)) <= Sum(base) + Prefix(c, n)
    ensures (forall j :: 0 <= j < |base| ==> base[j] + Image(src, dst, c, n, j) <= cap) ==>
      Sum(Merged(base, src, dst, c, n, cap)) == Sum(base) + Prefix(c, n)
  {
    hide Conv, Sum;
    if n == 0 {
      MergedNone(base, src, dst, c, cap);
    } else {
      var t := Merged(base, src, dst, c, n - 1, cap);
      MergedStep(base, src, dst, c, n - 1, cap);
      SumMerged(base, src, dst, c, n - 1, cap);
      if c[n - 1] != 0 {
        var k := Conv(src, dst, n - 1);
        SumBump(t, k, c[n - 1], cap);
        if forall j :: 0 <= j < |base| ==> base[j] + Image(src, dst, c, n, j) <= cap {
          forall j | 0 <= j < |base| ensures base[j] + Image(src, dst, c, n - 1, j) <= cap {
            assert base[j] + Image(src, dst, c, n, j) <= cap;
          }
          assert base[k] + Image(src, dst, c, n, k) <= cap;
        }
      }
    }
  }

  lemma {:induction false} SumReduced(base: seq<nat>, src: Layout, dst: Layout, c: seq<nat>, n: nat)
    requires dst.Valid()
    requires n <= |c|
    requires Lands(src, dst, c, |base|)
    requires Fits(base, src, dst, c, n)
    ensures Sum(Reduced(base, src, dst, c, n)) == Sum(base) - Prefix(c, n)
  {
    hide Conv, Sum;
    if n == 0 {
      ReducedNone(base, src, dst, c);
    } else {
      FitsFewer(base, src, dst, c, n - 1, n);
      ReducedStep(base, src, dst, c, n - 1);
      SumReduced(base, src, dst, c, n - 1);
      var t := Reduced(base, src, dst, c, n - 1);
      if c[n - 1] != 0 {
        SumUpdate(t, Conv(src, dst, n - 1), t[Conv(src, dst, n - 1)] - c[n - 1]);
      }
    }
  }

  lemma SumUpdate(s: seq<nat>, i: nat, x: nat)
    requires i < |s|
    ensures Sum(s[i := x]) == Sum(s) - s[i] + x
  {
    PrefixUpdate(s, i, x, |s|);
  }

  /** Adding index by index, between histograms of the same shape. */
  lemma MergedSameStep(base: seq<nat>, g: Layout, buckets: nat, c: seq<nat>, i: nat, cap: nat)
    requires g.Valid()
    requires 1 <= buckets <= MaxBuckets(g)
    requires |base| == |c| == g.NumBins(buckets)
    requires i < |c|
    ensures c[i] == 0 ==> Merged(base, g, g, c, i + 1, cap) == Merged(base, g, g, c, i, cap)
    ensures c[i] != 0 ==> Merged(base, g, g, c, i + 1, cap) == Bump(Merged(base, g, g, c, i, cap), i, c[i], cap)
    ensures Prefix(c, i + 1) == Prefix(c, i) + c[i]
  {
    hide Layout.IndexFor, Layout.ValueFor, Layout.NumBins, Merged;
    IndexOfValueFor(g, buckets, i);
    MergedStep(base, g, g, c, i, cap);
  }

  /** The state after the index-by-index addition. */
  lemma AddedState(g: Layout, buckets: nat, base: seq<nat>, maxValue: U64, minNonZero: U64, total: nat,
                   s: seq<nat>, sMax: U64, sMin: U64, cap: nat, maxValue': U64, minNonZero': U64)
    requires g.Valid()
    requires 1 <= cap
    requires 1 <= buckets <= MaxBuckets(g)
    requires |base| == |s| == g.NumBins(buckets)
    requires AllAtMost(base, cap)
    requires NoneAfter(base, g.IndexFor(maxValue)) && NoneAfter(s, g.IndexFor(sMax))
    requires g.IndexFor(sMax) < |s|
    requires Min(U64_MAX, Sum(base)) <= total
    requires maxValue' == if ReportedMax(g, sMax) > ReportedMax(g, maxValue)
      then RaisedMax(g, maxValue, ReportedMax(g, sMax)) else maxValue
    requires minNonZero' ==
      if ReportedMinNonZero(g, sMin) < ReportedMinNonZero(g, minNonZero)
        then LoweredMin(g, minNonZero, ReportedMinNonZero(g, sMin)) else minNonZero
    ensures
      var c' := Merged(base, g, g, s, |s|, cap);
      && AllAtMost(c', cap)
      && Conv(g, g, g.IndexFor(sMax)) == g.IndexFor(sMax)
      && g.IndexFor(maxValue') == Max(g.IndexFor(maxValue), g.IndexFor(sMax))
      && NoneAfter(c', g.IndexFor(maxValue'))
      && Min(U64_MAX, Sum(c')) <= Min(U64_MAX, total + Sum(s))
      && (ExactStats(g, base, maxValue, minNonZero) && ExactStats(g, s, sMax, sMin) ==>
        ExactStats(g, c', maxValue', minNonZero'))
      && (ExactMinNonZero(g, base, minNonZero) && ExactMinNonZero(g, s, sMin) ==> ExactMinNonZero(g, c', minNonZero'))
  {
    hide Layout.IndexFor, Layout.ValueFor, Layout.NumBins, ReportedMax, ReportedMinNonZero, RaisedMax, LoweredMin;
    hide ExactStats, ExactMinNonZero, Image;
    var c' := Merged(base, g, g, s, |s|, cap);
    AddedMaxIndex(g, maxValue, sMax);
    IndexOfValueFor(g, buckets, g.IndexFor(sMax));
    forall j | 0 <= j < |s| ensures c'[j] == Min(cap, base[j] + s[j]) && Conv(g, g, j) == j {
      ImageSame(g, buckets, s, |s|, j);
      IndexOfValueFor(g, buckets, j);
    }
    SumMerged(base, g, g, s, |s|, cap);
    if ExactStats(g, base, maxValue, minNonZero) && ExactStats(g, s, sMax, sMin) {
      ExactStatsAdd(g, base, maxValue, minNonZero, s, sMax, sMin, c');
    }
    if ExactMinNonZero(g, base, minNonZero) && ExactMinNonZero(g, s, sMin) {
      ExactMinAdd(g, base, minNonZero, s, sMin, c');
    }
  }

  /** Subtraction does not reach an index outside the minuend once its range check has passed. */
  lemma SubtrahendLands(g: Layout, buckets: nat, src: Layout, srcBuckets: nat, c: seq<nat>, srcMax: U64)
    requires g.Valid() && src.Valid()
    requires 1 <= buckets <= MaxBuckets(g)
    requires 1 <= srcBuckets <= MaxBuckets(src)
    requires |c| == src.NumBins(srcBuckets)
    requires src.IndexFor(srcMax) < |c|
    requires NoneAfter(c, src.IndexFor(srcMax))
    requires g.HighestEquivalent(ReportedMax(src, srcMax)) <= Top(g, buckets)
    ensures g.IndexFor(ReportedMax(src, srcMax)) < g.NumBins(buckets)
    ensures Lands(src, g, c, g.NumBins(buckets))
  {
    hide Layout.IndexFor, Layout.ValueFor, Layout.NumBins, ReportedMax, Layout.HighestEquivalent, Top, Conv;
    var x := ReportedMax(src, srcMax);
    HighestEquivalentInClass(g, x);
    TopCovers(g, buckets, x);
    ConvOfMax(src, g, srcMax);
    LandsBelowMax(src, g, srcBuckets, c, src.IndexFor(srcMax));
  }

  /** With the largest word ruled out, a value that has a slot passes the range check of subtraction. */
  lemma RangeCheckPasses(g: Layout, buckets: nat, x: U64)
    requires g.Valid()
    requires 1 <= buckets <= MaxBuckets(g)
    requires g.IndexFor(x) < g.NumBins(buckets)
    ensures g.HighestEquivalent(x) <= Top(g, buckets) <==> x != U64_MAX
  {
    hide Layout.IndexFor, Layout.NumBins, Layout.HighestEquivalent, Top;
    HighestEquivalentInClass(g, x);
    TopCovers(g, buckets, g.HighestEquivalent(x));
    TopOfOthers(g, x);
  }

  lemma TopOfOthers(g: Layout, x: U64)
    requires g.Valid()
    ensures g.HighestEquivalent(x) == U64_MAX <==> x == U64_MAX
  {
    hide Layout.LowestEquivalent, Layout.EquivalentRange;
  }
}
