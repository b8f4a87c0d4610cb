/**
  The summary statistics that a histogram keeps next to its counts: the largest and the
  smallest non-zero recorded value, both known only up to the unit magnitude.
 */
module Stats {
  import opened Bits
  import opened Layouts
  import opened Counts

  // ---- how the statistics are kept up to date ----

  function RaisedMax(g: Layout, current: U64, value: U64): U64
    requires g.Valid()
  {
    UnitEquivalent(g, value);
    var internal := BitOr(value, g.UnitMask());
    if internal > current then internal else current
  }

  function LoweredMin(g: Layout, current: U64, value: U64): U64
    requires g.Valid()
  {
    UnitEquivalent(g, value);
    if value <= g.UnitMask() then current
    else
      var internal := BitAnd(value, BitNot64(g.UnitMask()));
      if internal < current then internal else current
  }

  /** The largest value after one more recorded value. */
  function MaxWith(g: Layout, current: U64, value: U64): U64
    requires g.Valid()
  {
    if value > current then RaisedMax(g, current, value) else current
  }

  /** The smallest non-zero value after one more recorded value. */
  function MinWith(g: Layout, current: U64, value: U64): U64
    requires g.Valid()
  {
    if value < current && value != 0 then LoweredMin(g, current, value) else current
  }

  function ReportedMax(g: Layout, maxValue: U64): U64
    requires g.Valid()
  {
    if maxValue == 0 then 0 else g.HighestEquivalent(maxValue)
  }

  function ReportedMinNonZero(g: Layout, minNonZero: U64): U64
    requires g.Valid()
  {
    if minNonZero == U64_MAX then U64_MAX else g.LowestEquivalent(minNonZero)
  }

  function ReportedMin(g: Layout, counts: seq<nat>, total: nat, minNonZero: U64): U64
    requires g.Valid()
    requires |counts| > 0
  {
    if total == 0 || counts[0] != 0 then 0 else ReportedMinNonZero(g, minNonZero)
  }

  lemma RaisedMaxIndex(g: Layout, current: U64, value: U64)
    requires g.Valid()
    ensures g.IndexFor(RaisedMax(g, current, value)) == Max(g.IndexFor(current), g.IndexFor(value))
    ensures current <= RaisedMax(g, current, value)
  {
    hide Layout.IndexFor, BitOr, Layout.UnitMask;
    UnitEquivalent(g, value);
    if BitOr(value, g.UnitMask()) > current {
      IndexMonotone(g, current, BitOr(value, g.UnitMask()));
    } else {
      IndexMonotone(g, BitOr(value, g.UnitMask()), current);
    }
  }

  lemma MaxWithIndex(g: Layout, current: U64, value: U64)
    requires g.Valid()
    ensures g.IndexFor(MaxWith(g, current, value)) == Max(g.IndexFor(current), g.IndexFor(value))
  {
    hide Layout.IndexFor, RaisedMax;
    RaisedMaxIndex(g, current, value);
    if value <= current {
      IndexMonotone(g, value, current);
    }
  }

  lemma MinWithIndex(g: Layout, current: U64, value: U64)
    requires g.Valid()
    ensures g.IndexFor(value) == 0 ==> MinWith(g, current, value) == current
    ensures g.IndexFor(value) > 0 ==>
      g.IndexFor(MinWith(g, current, value)) == Min(g.IndexFor(current), g.IndexFor(value))
  {
    hide Layout.IndexFor, BitAnd, BitNot64, Layout.UnitMask;
    UnitEquivalent(g, value);
    FirstClass(g, value);
    if value < current {
      IndexMonotone(g, value, current);
    } else {
      IndexMonotone(g, current, value);
    }
  }

  lemma ReportedMaxIndex(g: Layout, maxValue: U64)
    requires g.Valid()
    ensures g.IndexFor(ReportedMax(g, maxValue)) == g.IndexFor(maxValue)
    ensures maxValue <= ReportedMax(g, maxValue)
  {
    hide Layout.IndexFor, Layout.HighestEquivalent;
    HighestEquivalentInClass(g, maxValue);
  }

  lemma ReportedMinNonZeroIndex(g: Layout, minNonZero: U64)
    requires g.Valid()
    ensures g.IndexFor(ReportedMinNonZero(g, minNonZero)) == g.IndexFor(minNonZero)
    ensures ReportedMinNonZero(g, minNonZero) <= minNonZero
    ensures ReportedMinNonZero(g, minNonZero) == U64_MAX <==> minNonZero == U64_MAX
  {
    hide Layout.IndexFor, Layout.LowestEquivalent, Layout.Start, Layout.Width, Layout.EquivalentRange;
    ValueOfIndexFor(g, minNonZero);
    IndexUnique(g, g.IndexFor(minNonZero), g.LowestEquivalent(minNonZero));
  }

  // ---- statistics that are exact ----

  /**
    What recording, adding, subtracting and resetting maintain. The largest non-zero index is
    known exactly. The smallest one is exact only while index 0 is empty; otherwise the tracked
    minimum is a lower bound, since subtraction may then leave it behind.
   */
  ghost predicate ExactStats(g: Layout, c: seq<nat>, maxValue: U64, minNonZero: U64)
    requires g.Valid()
  {
    var m, k := g.IndexFor(maxValue), g.IndexFor(minNonZero);
    && m < |c|
    && NoneAfter(c, m)
    && (m > 0 ==> c[m] != 0)
    && k >= 1
    && (forall i :: 1 <= i < |c| && c[i] != 0 ==> k <= i)
    && (m > 0 && c[0] == 0 ==> k <= m && c[k] != 0)
    && (m == 0 && c[0] == 0 ==> minNonZero == U64_MAX)
  }

  /** The tracked minimum is that of the samples past index 0, whether or not index 0 has any. */
  ghost predicate ExactMinNonZero(g: Layout, c: seq<nat>, minNonZero: U64)
    requires g.Valid()
  {
    var k := g.IndexFor(minNonZero);
    if forall i :: 1 <= i < |c| ==> c[i] == 0 then minNonZero == U64_MAX
    else 1 <= k < |c| && c[k] != 0 && forall i :: 1 <= i < k ==> c[i] == 0
  }

  lemma ExactMinPadded(g: Layout, c: seq<nat>, n: nat, minNonZero: U64)
    requires g.Valid()
    requires ExactMinNonZero(g, c, minNonZero)
    ensures ExactMinNonZero(g, c + Zeros(n), minNonZero)
  {
    hide Layout.IndexFor;
    if i :| 1 <= i < |c| && c[i] != 0 {
      assert (c + Zeros(n))[i] != 0;
    }
  }

  lemma ExactMinRecord(g: Layout, c: seq<nat>, minNonZero: U64, value: U64, n: nat, cap: nat)
    requires g.Valid()
    requires ExactMinNonZero(g, c, minNonZero)
    requires g.IndexFor(value) < |c|
    requires 0 < n && 0 < cap
    ensures ExactMinNonZero(g, Bump(c, g.IndexFor(value), n, cap), MinWith(g, minNonZero, value))
  {
    hide Layout.IndexFor, MinWith;
    MinWithIndex(g, minNonZero, value);
    IndexMonotone(g, value, U64_MAX);
    var i := g.IndexFor(value);
    var c' := Bump(c, i, n, cap);
    assert c'[i] != 0 && forall j :: 0 <= j < |c| && j != i ==> c'[j] == c[j];
  }

  lemma ExactMinAdd(g: Layout, c: seq<nat>, minNonZero: U64, s: seq<nat>, sMin: U64, c': seq<nat>)
    requires g.Valid()
    requires ExactMinNonZero(g, c, minNonZero)
    requires ExactMinNonZero(g, s, sMin)
    requires |c'| == |c| == |s|
    requires forall j :: 0 <= j < |c| ==> (c'[j] == 0 <==> c[j] == 0 && s[j] == 0)
    ensures
      var mn := ReportedMinNonZero(g, sMin);
      ExactMinNonZero(g, c',
        if mn < ReportedMinNonZero(g, minNonZero) then LoweredMin(g, minNonZero, mn) else minNonZero)
  {
    hide Layout.IndexFor, ReportedMinNonZero, LoweredMin;
    AddedMinIndex(g, minNonZero, sMin);
    IndexMonotone(g, minNonZero, U64_MAX);
    IndexMonotone(g, sMin, U64_MAX);
  }

  /** The smallest index past 0 is not emptied, or there is none whose value could be left behind. */
  ghost predicate KeepsSmallest(g: Layout, c: seq<nat>, minNonZero: U64, src: Layout, s: seq<nat>)
    requires g.Valid()
  {
    var k := g.IndexFor(minNonZero);
    minNonZero == U64_MAX || (k < |c| && Image(src, g, s, |s|, k) < c[k])
  }

  /** Taking counts out without a rescan leaves the tracked minimum right exactly if its index is not emptied. */
  lemma ExactMinReduce(g: Layout, c: seq<nat>, minNonZero: U64, src: Layout, s: seq<nat>)
    requires g.Valid()
    requires ExactMinNonZero(g, c, minNonZero)
    requires |c| <= g.IndexFor(U64_MAX) + 1
    requires Fits(c, src, g, s, |s|)
    ensures ExactMinNonZero(g, Reduced(c, src, g, s, |s|), minNonZero) <==> KeepsSmallest(g, c, minNonZero, src, s)
  {
    hide Layout.IndexFor, Image;
    var k, c' := g.IndexFor(minNonZero), Reduced(c, src, g, s, |s|);
    assert forall j :: 0 <= j < |c| ==> c'[j] <= c[j];
    if i :| 1 <= i < |c| && c[i] != 0 {
      assert 1 <= k < |c| && c'[k] == c[k] - Image(src, g, s, |s|, k);
      assert c'[k] != 0 || minNonZero != U64_MAX || forall j :: 1 <= j < |c| ==> c'[j] == 0;
    }
  }

  lemma LastIndexOfWords(g: Layout, buckets: nat)
    requires g.Valid()
    requires 1 <= buckets <= MaxBuckets(g)
    ensures g.NumBins(buckets) <= g.IndexFor(U64_MAX) + 1
  {
    hide Layout.IndexFor, Layout.NumBins, Layout.ValueFor;
    var n := g.NumBins(buckets);
    if n > 0 {
      IndexOfValueFor(g, buckets, n - 1);
      IndexMonotone(g, g.ValueFor(n - 1), U64_MAX);
    }
  }

  ghost predicate LargestNonZero(c: seq<nat>, m: nat) {
    m < |c| && c[m] != 0 && NoneAfter(c, m)
  }

  ghost predicate SmallestNonZero(c: seq<nat>, k: nat) {
    k < |c| && c[k] != 0 && forall i :: 0 <= i < k ==> c[i] == 0
  }

  /** The reported extremes of a histogram with exact statistics are those of its counts. */
  lemma ExactStatsAreExtremes(g: Layout, c: seq<nat>, maxValue: U64, minNonZero: U64, total: nat)
    requires g.Valid()
    requires ExactStats(g, c, maxValue, minNonZero)
    requires total == 0 ==> Sum(c) == 0
    ensures Sum(c) == 0 ==> g.IndexFor(ReportedMax(g, maxValue)) == 0
    ensures total == 0 ==> ReportedMin(g, c, total, minNonZero) == 0
    ensures total != 0 && Sum(c) == 0 ==> ReportedMin(g, c, total, minNonZero) == U64_MAX
    ensures Sum(c) != 0 ==>
      && LargestNonZero(c, g.IndexFor(ReportedMax(g, maxValue)))
      && SmallestNonZero(c, g.IndexFor(ReportedMin(g, c, total, minNonZero)))
  {
    hide Layout.IndexFor, ReportedMax, ReportedMinNonZero, Layout.UnitMask, Layout.Start, Layout.Width, Pow2;
    var m, k := g.IndexFor(maxValue), g.IndexFor(minNonZero);
    ReportedMaxIndex(g, maxValue);
    ReportedMinNonZeroIndex(g, minNonZero);
    FirstClass(g, 0);
    if Sum(c) == 0 {
      SumIsZero(c);
    } else if c[0] == 0 {
      if m == 0 {
        PrefixZeros(c, 0, |c|);
      }
      assert ReportedMin(g, c, total, minNonZero) == ReportedMinNonZero(g, minNonZero);
      assert SmallestNonZero(c, k);
    }
  }

  lemma ExactStatsPadded(g: Layout, c: seq<nat>, n: nat, maxValue: U64, minNonZero: U64)
    requires g.Valid()
    requires ExactStats(g, c, maxValue, minNonZero)
    ensures ExactStats(g, c + Zeros(n), maxValue, minNonZero)
  {
    hide Layout.IndexFor;
  }

  /** Recording at least one sample keeps the statistics exact. */
  lemma ExactStatsRecord(g: Layout, c: seq<nat>, maxValue: U64, minNonZero: U64, value: U64, n: nat, cap: nat)
    requires g.Valid()
    requires ExactStats(g, c, maxValue, minNonZero)
    requires g.IndexFor(value) < |c|
    requires 0 < n && 0 < cap
    ensures
      ExactStats(g, Bump(c, g.IndexFor(value), n, cap), MaxWith(g, maxValue, value), MinWith(g, minNonZero, value))
  {
    hide Layout.IndexFor, MaxWith, MinWith;
    MaxWithIndex(g, maxValue, value);
    MinWithIndex(g, minNonZero, value);
    FirstClass(g, value);
    var i := g.IndexFor(value);
    var c' := Bump(c, i, n, cap);
    assert c'[i] != 0 && forall j :: 0 <= j < |c| && j != i ==> c'[j] == c[j];
    if i > 0 && minNonZero == U64_MAX {
      IndexMonotone(g, value, U64_MAX);
    }
  }

  /**
    Adding the counts of a histogram of the same shape directly keeps the statistics exact,
    although only the reported extremes of the source are looked at.
   */
  lemma ExactStatsAdd(g: Layout, c: seq<nat>, maxValue: U64, minNonZero: U64,
                      s: seq<nat>, sMax: U64, sMin: U64, c': seq<nat>)
    requires g.Valid()
    requires ExactStats(g, c, maxValue, minNonZero)
    requires ExactStats(g, s, sMax, sMin)
    requires |c'| == |c| == |s|
    requires forall j :: 0 <= j < |c| ==> (c'[j] == 0 <==> c[j] == 0 && s[j] == 0)
    ensures
      var mx := ReportedMax(g, sMax);
      var mn := ReportedMinNonZero(g, sMin);
      var maxValue' := if mx > ReportedMax(g, maxValue) then RaisedMax(g, maxValue, mx) else maxValue;
      var minNonZero' := if mn < ReportedMinNonZero(g, minNonZero) then LoweredMin(g, minNonZero, mn) else minNonZero;
      && g.IndexFor(maxValue') == Max(g.IndexFor(maxValue), g.IndexFor(sMax))
      && ExactStats(g, c', maxValue', minNonZero')
  {
    hide Layout.IndexFor, ReportedMax, ReportedMinNonZero, RaisedMax, LoweredMin;
    AddedMaxIndex(g, maxValue, sMax);
    AddedMinIndex(g, minNonZero, sMin);
    IndexMonotone(g, minNonZero, U64_MAX);
    IndexMonotone(g, sMin, U64_MAX);
    var mx := ReportedMax(g, sMax);
    var mn := ReportedMinNonZero(g, sMin);
    var maxValue' := if mx > ReportedMax(g, maxValue) then RaisedMax(g, maxValue, mx) else maxValue;
    var minNonZero' := if mn < ReportedMinNonZero(g, minNonZero) then LoweredMin(g, minNonZero, mn) else minNonZero;
    var m, k := g.IndexFor(maxValue'), g.IndexFor(minNonZero');
    assert m > 0 && c'[0] == 0 ==> k <= m && c'[k] != 0;
  }

  lemma AddedMaxIndex(g: Layout, maxValue: U64, sMax: U64)
    requires g.Valid()
    ensures
      var mx := ReportedMax(g, sMax);
      var maxValue' := if mx > ReportedMax(g, maxValue) then RaisedMax(g, maxValue, mx) else maxValue;
      g.IndexFor(maxValue') == Max(g.IndexFor(maxValue), g.IndexFor(sMax))
  {
    hide Layout.IndexFor, ReportedMax, RaisedMax;
    var mx := ReportedMax(g, sMax);
    ReportedMaxIndex(g, maxValue);
    ReportedMaxIndex(g, sMax);
    RaisedMaxIndex(g, maxValue, mx);
    if mx <= ReportedMax(g, maxValue) {
      IndexMonotone(g, mx, ReportedMax(g, maxValue));
    }
  }

  lemma AddedMinIndex(g: Layout, minNonZero: U64, sMin: U64)
    requires g.Valid()
    ensures
      var mn := ReportedMinNonZero(g, sMin);
      var minNonZero' := if mn < ReportedMinNonZero(g, minNonZero) then LoweredMin(g, minNonZero, mn) else minNonZero;
      && g.IndexFor(minNonZero') ==
           (if g.IndexFor(sMin) == 0 then g.IndexFor(minNonZero) else Min(g.IndexFor(minNonZero), g.IndexFor(sMin)))
      && (minNonZero == U64_MAX && sMin == U64_MAX ==> minNonZero' == U64_MAX)
  {
    hide Layout.IndexFor, ReportedMinNonZero, BitAnd, BitNot64, Layout.UnitMask;
    var mn := ReportedMinNonZero(g, sMin);
    ReportedMinNonZeroIndex(g, minNonZero);
    ReportedMinNonZeroIndex(g, sMin);
    UnitEquivalent(g, mn);
    FirstClass(g, mn);
    if mn < ReportedMinNonZero(g, minNonZero) {
      IndexMonotone(g, mn, ReportedMinNonZero(g, minNonZero));
    } else {
      IndexMonotone(g, ReportedMinNonZero(g, minNonZero), mn);
    }
  }

  /** An index whose samples could be at an extreme of the minuend. */
  ghost predicate TouchesExtreme(g: Layout, c: seq<nat>, total: nat, maxValue: U64, minNonZero: U64, value: U64)
    requires g.Valid()
    requires |c| > 0
  {
    || value <= g.HighestEquivalent(ReportedMin(g, c, total, minNonZero))
    || value >= g.LowestEquivalent(ReportedMax(g, maxValue))
  }

  /** Taking out samples away from the extremes leaves the statistics exact. */
  lemma ExactStatsReduce(g: Layout, c: seq<nat>, total: nat, maxValue: U64, minNonZero: U64, src: Layout, s: seq<nat>)
    requires g.Valid()
    requires src.Valid()
    requires ExactStats(g, c, maxValue, minNonZero)
    requires total == 0 ==> Sum(c) == 0
    requires forall i :: 0 <= i < |s| ==> src.Start(i) <= U64_MAX
    requires Fits(c, src, g, s, |s|)
    requires forall i :: 0 <= i < |s| && s[i] != 0 ==>
      !TouchesExtreme(g, c, total, maxValue, minNonZero, src.ValueFor(i))
    ensures ExactStats(g, Reduced(c, src, g, s, |s|), maxValue, minNonZero)
  {
    hide Layout.IndexFor, Layout.ValueFor, Layout.Start, ReportedMax, ReportedMinNonZero;
    hide Layout.HighestEquivalent, Layout.LowestEquivalent, Image, Layout.UnitMask;
    var m, k := g.IndexFor(maxValue), g.IndexFor(minNonZero);
    ReportedMaxIndex(g, maxValue);
    ReportedMinNonZeroIndex(g, minNonZero);
    FirstClass(g, 0);
    forall i | 0 <= i < |s| && s[i] != 0
      ensures Conv(src, g, i) != m
      ensures Conv(src, g, i) != g.IndexFor(ReportedMin(g, c, total, minNonZero))
    {
      var v := src.ValueFor(i);
      ValueForNotMax(src, i);
      if g.IndexFor(v) == m {
        ValueOfIndexFor(g, v);
        ValueOfIndexFor(g, ReportedMax(g, maxValue));
      }
      if g.IndexFor(v) == g.IndexFor(ReportedMin(g, c, total, minNonZero)) {
        BelowHighestEquivalent(g, v, ReportedMin(g, c, total, minNonZero));
      }
    }
    ImageNone(src, g, s, |s|, m);
    ImageNone(src, g, s, |s|, g.IndexFor(ReportedMin(g, c, total, minNonZero)));
    if Sum(c) == 0 {
      SumIsZero(c);
    }
    var c' := Reduced(c, src, g, s, |s|);
    if m == 0 {
      ReducedNothing(g, c, src, s, maxValue);
    } else {
      CountAtMostSum(c, m);
    }
  }

  /** If the maximum is at index 0, every subtrahend sample would touch it. */
  lemma ReducedNothing(g: Layout, c: seq<nat>, src: Layout, s: seq<nat>, maxValue: U64)
    requires g.Valid()
    requires g.IndexFor(maxValue) == 0
    requires Fits(c, src, g, s, |s|)
    requires forall i :: 0 <= i < |s| && s[i] != 0 ==> src.ValueFor(i) < g.LowestEquivalent(ReportedMax(g, maxValue))
    ensures Reduced(c, src, g, s, |s|) == c
  {
    hide Layout.IndexFor, Layout.ValueFor, Layout.Start, ReportedMax, Layout.LowestEquivalent;
    ReportedMaxIndex(g, maxValue);
    ValueOfIndexFor(g, ReportedMax(g, maxValue));
    FirstClass(g, 0);
    forall j | 0 <= j < |c| ensures Image(src, g, s, |s|, j) == 0 {
      ImageNone(src, g, s, |s|, j);
    }
  }
}
