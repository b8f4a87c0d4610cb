/**
  The histogram itself: a growable array of saturating counters together with a total count
  and the tracked extremes, all updated in place.
 */
module Histograms {
  import opened Bits
  import opened Layouts
  import opened Counts
  import opened Stats
  import opened Ranges
  import opened Omission
  import opened Transfers
  import opened Config
  import opened Wrappers

  datatype RecordError = ValueOutOfRangeResizeDisabled

  datatype AdditionError = OtherAddendValueExceedsRange

  datatype SubtractionError = SubtrahendValueExceedsMinuendRange | SubtrahendCountExceedsMinuendCount

  /** `Vec::resize` with zeros. */
  function Resized(s: seq<nat>, n: nat): (t: seq<nat>)
    ensures |t| == n
  {
    if n <= |s| then s[..n] else s + Zeros(n - |s|)
  }

  lemma ResizedSame(s: seq<nat>)
    ensures Resized(s, |s|) == s
  {
  }

  class Histogram {
    const low: U64
    const sigfig: nat
    const layout: Layout
    const counterMax: nat

    var autoResize: bool
    var high: U64
    var bucketCount: nat
    var maxValue: U64
    var minNonZero: U64
    var total: U64
    var counts: seq<nat>

    ghost predicate WellTyped() {
      && Configured(low, sigfig, layout)
      && 1 <= counterMax <= U64_MAX
    }

    /**
      Holds between any two operations, failed ones included. The counts array has one bin per
      index the buckets cover, nothing is counted past the index of the tracked maximum, and
      the total is never behind the counts.
     */
    ghost predicate Valid()
      reads this
    {
      && WellTyped()
      && 2 * low <= high
      && bucketCount == layout.BucketFor(high) + 1
      && |counts| == layout.NumBins(bucketCount)
      && AllAtMost(counts, counterMax)
      && MaxIndex() < |counts|
      && NoneAfter(counts, MaxIndex())
      && Min(U64_MAX, Sum(counts)) <= total
    }

    /** The tracked extremes agree with the counts. */
    ghost predicate Exact()
      reads this
    {
      layout.Valid() && ExactStats(layout, counts, maxValue, minNonZero)
    }

    /** So does the smallest value past index 0, even while that index is not empty. */
    ghost predicate MinKnown()
      reads this
    {
      layout.Valid() && ExactMinNonZero(layout, counts, minNonZero)
    }

    function MaxIndex(): nat
      requires layout.Valid()
      reads this
    {
      layout.IndexFor(maxValue)
    }

    predicate HasSlot(value: U64)
      requires layout.Valid()
      reads this
    {
      layout.IndexFor(value) < |counts|
    }

    lemma SlotOf(value: U64)
      requires layout.Valid()
      requires layout.IndexFor(value) < |counts|
      ensures HasSlot(value)
    {
    }

    function MaxRecorded(): U64
      requires layout.Valid()
      reads this
    {
      ReportedMax(layout, maxValue)
    }

    function MinNzRecorded(): U64
      requires layout.Valid()
      reads this
    {
      ReportedMinNonZero(layout, minNonZero)
    }

    function MinRecorded(): U64
      requires layout.Valid()
      requires |counts| > 0
      reads this
    {
      ReportedMin(layout, counts, total, minNonZero)
    }

    // ---- construction ----

    constructor Create(low: U64, high: U64, sigfig: nat, layout: Layout, counterMax: nat)
      requires Configured(low, sigfig, layout)
      requires 2 * low <= high
      requires 1 <= counterMax <= U64_MAX
      ensures this.low == low && this.sigfig == sigfig && this.layout == layout && this.counterMax == counterMax
      ensures this.high == high && !autoResize
      ensures Valid() && Exact() && MinKnown()
      ensures counts == Zeros(|counts|) && total == 0
      ensures maxValue == 0 && minNonZero == U64_MAX
    {
      hide Layout.IndexFor, Layout.BucketFor, Layout.NumBins, LayoutFor, ExactStats, ExactMinNonZero;
      this.low, this.sigfig, this.layout, this.counterMax := low, sigfig, layout, counterMax;
      autoResize, this.high, bucketCount := false, high, 0;
      maxValue, minNonZero, total, counts := 0, U64_MAX, 0, [];
      new;
      Resize(high);
      BucketCount(layout, high);
      EmptyStats(layout, counts);
      PrefixZeros(counts, 0, |counts|);
    }

    /** Accepts exactly the bounds that the layout can represent. */
    static method NewWithBounds(low: U64, high: U64, sigfig: nat, counterMax: nat)
      returns (r: Result<Histogram, CreationError>)
      requires 1 <= counterMax <= U64_MAX
      ensures r.Success? <==> CheckBounds(low, high, sigfig).Success?
      ensures r.Failure? ==> r.error == CheckBounds(low, high, sigfig).error
      ensures r.Success? ==>
        && fresh(r.value)
        && r.value.low == low && r.value.high == high && r.value.sigfig == sigfig && r.value.counterMax == counterMax
        && r.value.Valid() && r.value.Exact() && r.value.MinKnown()
        && r.value.counts == Zeros(|r.value.counts|) && r.value.total == 0
        && r.value.maxValue == 0 && r.value.minNonZero == U64_MAX
        && !r.value.autoResize
    {
      var checked := CheckBounds(low, high, sigfig);
      AcceptedBounds(low, high, sigfig);
      if checked.Failure? {
        return Failure(checked.error);
      }
      var h := new Histogram.Create(low, high, sigfig, checked.value, counterMax);
      r := Success(h);
    }

    /** The loop that doubles a bound until it passes the value finds the bucket of the value. */
    method BucketsToCover(value: U64) returns (needed: nat)
      requires layout.Valid()
      ensures needed == layout.BucketFor(value) + 1
    {
      hide Pow2, Shl, Shr;
      Pow2Values();
      Pow2Add(layout.halfMag + 1, layout.unit);
      Pow2Monotone(layout.BaseBits(), 63);
      var smallestUntrackable: nat := Shl(layout.SubBuckets(), layout.unit);
      needed := 1;
      while smallestUntrackable <= value
        invariant 1 <= needed
        invariant layout.BaseBits() + needed - 1 <= 63
        invariant smallestUntrackable == Pow2(layout.BaseBits() + needed - 1) <= U64_MAX
        invariant needed > 1 ==> Pow2(layout.BaseBits() + needed - 2) <= value
        decreases 64 - needed
      {
        if smallestUntrackable > U64_MAX / 2 {
          needed := needed + 1;
          Pow2Monotone(layout.BaseBits() + needed - 2, 63);
          assert layout.BaseBits() + needed - 2 == 63 by {
            Pow2Monotone(Min(layout.BaseBits() + needed - 2, 62), 62);
            Pow2Step(62);
          }
          BucketOfBounds(layout, value, needed - 1);
          return;
        }
        Pow2Step(layout.BaseBits() + needed - 1);
        if layout.BaseBits() + needed - 1 == 63 {
          assert false;
        }
        smallestUntrackable := 2 * smallestUntrackable;
        needed := needed + 1;
      }
      BucketOfBounds(layout, value, needed - 1);
    }

    method Resize(high: U64)
      requires layout.Valid()
      requires high >= 2 * low
      modifies this`bucketCount, this`high, this`counts
      ensures this.high == high
      ensures bucketCount == layout.BucketFor(high) + 1
      ensures counts == Resized(old(counts), layout.NumBins(bucketCount))
    {
      var needed := BucketsToCover(high);
      var len := layout.NumBins(needed);
      bucketCount := needed;
      this.high := high;
      counts := Resized(counts, len);
    }

    // ---- recording ----

    /** The value that is recorded in place of `value`. */
    function Effective(value: U64, clamp: bool): U64
      requires layout.Valid()
      reads this
    {
      if clamp && !HasSlot(value) then high else value
    }

    method RecordNInner(value: U64, n: nat, clamp: bool) returns (r: Outcome<RecordError>)
      requires Valid()
      requires n <= counterMax
      modifies this
      ensures Valid()
      ensures autoResize == old(autoResize)
      ensures r.Fail? <==> !clamp && !autoResize && !old(HasSlot(value))
      ensures r.Fail? ==> unchanged(this)
      ensures r.Pass? ==>
        var v := old(Effective(value, clamp));
        && HasSlot(v)
        && bucketCount == Max(old(bucketCount), layout.BucketFor(v) + 1)
        && high == (if old(HasSlot(v)) then old(high) else Top(layout, bucketCount))
        && |old(counts)| <= |counts|
        && counts == Bump(Resized(old(counts), |counts|), layout.IndexFor(v), n, counterMax)
        && (!old(HasSlot(v)) ==> counts[layout.IndexFor(v)] == n)
        && total == Min(U64_MAX, old(total) + n)
        && maxValue == MaxWith(layout, old(maxValue), v)
        && minNonZero == MinWith(layout, old(minNonZero), v)
        && (old(Exact()) && (n > 0 || v == 0) ==> Exact())
        && (old(MinKnown()) && (n > 0 || v == 0) ==> MinKnown())
      ensures clamp && !old(HasSlot(value)) ==>
        && HasSlot(high) && high == old(high) && bucketCount == old(bucketCount)
        && counts == Bump(old(counts), layout.IndexFor(high), n, counterMax)
        && MaxIndex() == Max(old(MaxIndex()), layout.IndexFor(high))
      ensures !clamp && !old(HasSlot(value)) && r.Pass? ==>
        && HasSlot(value) && high == Top(layout, layout.BucketFor(value) + 1)
      ensures r.Pass? && (old(HasSlot(value)) || !clamp) ==> MaxIndex() == Max(old(MaxIndex()), layout.IndexFor(value))
      ensures old(HasSlot(value)) ==>
        && r.Pass?
        && high == old(high)
        && bucketCount == old(bucketCount)
        && counts == Bump(old(counts), layout.IndexFor(value), n, counterMax)
    {
      hide Layout.IndexFor, Layout.BucketFor, Layout.NumBins, MaxWith, MinWith, Top, Sum, ExactStats;
      hide ExactMinNonZero, NoneAfter;
      hide AllAtMost, LayoutFor;
      var value' := value;
      BucketCount(layout, high);
      if !HasSlot(value') {
        if clamp {
          if value' > high {
            value' := high;
          } else {
            IndexMonotone(layout, value', high);
            assert false;
          }
        } else if !autoResize {
          return Fail(ValueOutOfRangeResizeDisabled);
        } else {
          GrowFor(value');
        }
      }
      BucketsCover(layout, bucketCount, value');
      MaxWithIndex(layout, maxValue, value');
      ResizedSame(counts);
      CountSample(value', n);
      r := Pass;
    }

    /** Adds to the counter of a value that has one, and updates total and extremes. */
    method CountSample(value: U64, n: nat)
      requires Valid()
      requires HasSlot(value)
      modifies this`counts, this`maxValue, this`minNonZero, this`total
      ensures Valid()
      ensures counts == Bump(old(counts), layout.IndexFor(value), n, counterMax)
      ensures total == Min(U64_MAX, old(total) + n)
      ensures maxValue == MaxWith(layout, old(maxValue), value)
      ensures minNonZero == MinWith(layout, old(minNonZero), value)
      ensures old(Exact()) && (n > 0 || value == 0) ==> Exact()
      ensures old(MinKnown()) && (n > 0 || value == 0) ==> MinKnown()
    {
      hide Layout.IndexFor, Layout.BucketFor, Layout.NumBins, MaxWith, MinWith, Prefix, ExactStats, ExactMinNonZero;
      RecordedState(layout, counts, maxValue, minNonZero, total, counterMax, value, n);
      counts := Bump(counts, layout.IndexFor(value), n, counterMax);
      maxValue, minNonZero := MaxWith(layout, maxValue, value), MinWith(layout, minNonZero, value);
      total := Min(U64_MAX, total + n);
    }

    method RecordN(value: U64, n: nat) returns (r: Outcome<RecordError>)
      requires Valid()
      requires n <= counterMax
      modifies this
      ensures Valid()
      ensures autoResize == old(autoResize)
      ensures r.Fail? <==> !autoResize && !old(HasSlot(value))
      ensures r.Fail? ==> unchanged(this)
      ensures r.Pass? ==>
        && HasSlot(value)
        && bucketCount == Max(old(bucketCount), layout.BucketFor(value) + 1)
        && high == (if old(HasSlot(value)) then old(high) else Top(layout, layout.BucketFor(value) + 1))
        && |old(counts)| <= |counts|
        && counts == Bump(Resized(old(counts), |counts|), layout.IndexFor(value), n, counterMax)
        && total == Min(U64_MAX, old(total) + n)
        && MaxIndex() == Max(old(MaxIndex()), layout.IndexFor(value))
        && (old(Exact()) && (n > 0 || value == 0) ==> Exact())
        && (old(MinKnown()) && (n > 0 || value == 0) ==> MinKnown())
      ensures old(HasSlot(value)) ==>
        && r.Pass?
        && bucketCount == old(bucketCount)
        && high == old(high)
        && counts == Bump(old(counts), layout.IndexFor(value), n, counterMax)
    {
      hide Layout.IndexFor, Layout.BucketFor, Layout.NumBins, MaxWith, MinWith, Top, Sum, ExactStats;
      hide ExactMinNonZero, NoneAfter;
      hide AllAtMost, LayoutFor;
      r := RecordNInner(value, n, false);
      MaxWithIndex(layout, old(maxValue), value);
    }

    /** Recording a value that has a counter cannot fail and changes nothing else. */
    method RecordCovered(value: U64, n: nat)
      requires Valid()
      requires n <= counterMax
      requires HasSlot(value)
      modifies this
      ensures Valid()
      ensures autoResize == old(autoResize) && bucketCount == old(bucketCount) && high == old(high)
      ensures counts == Bump(old(counts), layout.IndexFor(value), n, counterMax)
      ensures total == Min(U64_MAX, old(total) + n)
      ensures MaxIndex() == Max(old(MaxIndex()), layout.IndexFor(value))
      ensures old(Exact()) && (n > 0 || value == 0) ==> Exact()
      ensures old(MinKnown()) && (n > 0 || value == 0) ==> MinKnown()
    {
      hide Layout.IndexFor, Layout.BucketFor, Layout.NumBins, Sum, ExactStats, ExactMinNonZero, NoneAfter;
      hide AllAtMost, LayoutFor;
      var r := RecordN(value, n);
    }

    method Record(value: U64) returns (r: Outcome<RecordError>)
      requires Valid()
      modifies this
      ensures Valid()
      ensures autoResize == old(autoResize)
      ensures r.Fail? <==> !old(autoResize) && !old(HasSlot(value))
      ensures r.Fail? ==> unchanged(this)
      ensures r.Pass? ==>
        && HasSlot(value)
        && bucketCount == Max(old(bucketCount), layout.BucketFor(value) + 1)
        && high == (if old(HasSlot(value)) then old(high) else Top(layout, layout.BucketFor(value) + 1))
        && MaxIndex() == Max(old(MaxIndex()), layout.IndexFor(value))
        && |old(counts)| <= |counts|
        && counts == Bump(Resized(old(counts), |counts|), layout.IndexFor(value), 1, counterMax)
        && total == Min(U64_MAX, old(total) + 1)
        && (old(Exact()) ==> Exact())
        && (old(MinKnown()) ==> MinKnown())
    {
      hide Layout.IndexFor, Layout.BucketFor, Layout.NumBins, Top, Sum, ExactStats, ExactMinNonZero;
      hide NoneAfter, AllAtMost, LayoutFor;
      r := RecordN(value, 1);
    }

    /** Values out of range are counted at the highest trackable value; nothing grows, nothing fails. */
    method SaturatingRecordN(value: U64, n: nat)
      requires Valid()
      requires n <= counterMax
      modifies this
      ensures Valid()
      ensures autoResize == old(autoResize) && bucketCount == old(bucketCount) && high == old(high)
      ensures |counts| == |old(counts)|
      ensures old(HasSlot(value)) ==>
        && counts == Bump(old(counts), layout.IndexFor(value), n, counterMax)
        && MaxIndex() == Max(old(MaxIndex()), layout.IndexFor(value))
      ensures !old(HasSlot(value)) ==>
        && HasSlot(high)
        && counts == Bump(old(counts), layout.IndexFor(high), n, counterMax)
        && MaxIndex() == Max(old(MaxIndex()), layout.IndexFor(high))
      ensures total == Min(U64_MAX, old(total) + n)
      ensures old(Exact()) && n > 0 ==> Exact()
      ensures old(MinKnown()) && n > 0 ==> MinKnown()
    {
      hide Layout.IndexFor, Layout.BucketFor, Layout.NumBins, MaxWith, MinWith, Top, Sum, ExactStats;
      hide ExactMinNonZero, NoneAfter;
      hide AllAtMost, LayoutFor;
      BucketCount(layout, high);
      var r := RecordNInner(value, n, true);
      if old(HasSlot(value)) {
        BucketsCover(layout, bucketCount, value);
      }
    }

    /** Makes room for a value that is out of range; old counts keep their indexes. */
    method GrowFor(value: U64)
      requires Valid()
      requires !HasSlot(value)
      modifies this`bucketCount, this`high, this`counts
      ensures Valid()
      ensures HasSlot(value)
      ensures old(bucketCount) < bucketCount == layout.BucketFor(value) + 1
      ensures old(|counts|) < |counts|
      ensures counts == Resized(old(counts), |counts|)
      ensures counts[layout.IndexFor(value)] == 0
      ensures high == Top(layout, bucketCount)
      ensures old(Exact()) ==> Exact()
      ensures old(MinKnown()) ==> MinKnown()
    {
      hide Layout.IndexFor, Layout.BucketFor, Layout.NumBins, Layout.ValueFor, Layout.HighestEquivalent, Sum;
      hide ExactStats, ExactMinNonZero, NoneAfter, AllAtMost, LayoutFor;
      GrowthCovers(layout, high, value);
      BucketCount(layout, value);
      PaddedState(layout, counts, maxValue, minNonZero, layout.NumBins(layout.BucketFor(value) + 1), counterMax);
      Resize(value);
      TopCovers(layout, bucketCount, value);
      high := layout.HighestEquivalent(layout.ValueFor(|counts| - 1));
    }

    /**
      Records a sample together with the samples that coordinated omission kept from being
      taken. Only the first record can fail, since the others are smaller.
     */
    method RecordNCorrect(value: U64, n: nat, interval: U64) returns (r: Outcome<RecordError>)
      requires Valid()
      requires n <= counterMax
      modifies this
      ensures Valid()
      ensures autoResize == old(autoResize)
      ensures old(HasSlot(value)) ==> |counts| == |old(counts)|
      ensures r.Fail? <==> !old(autoResize) && !old(HasSlot(value))
      ensures r.Fail? ==> unchanged(this)
      ensures r.Pass? ==>
        var values := CorrectedValues(value, interval);
        && bucketCount == Max(old(bucketCount), layout.BucketFor(value) + 1)
        && high == (if old(HasSlot(value)) then old(high) else Top(layout, layout.BucketFor(value) + 1))
        && MaxIndex() == Max(old(MaxIndex()), layout.IndexFor(value))
        && |old(counts)| <= |counts|
        && AllHaveSlots(layout, values, |counts|)
        && counts == BumpAll(layout, Resized(old(counts), |counts|), values, n, counterMax)
        && total == Min(U64_MAX, old(total) + Groups(n, |values|))
        && (old(Exact()) && n > 0 ==> Exact())
        && (old(MinKnown()) && n > 0 ==> MinKnown())
    {
      hide Layout.IndexFor, Layout.BucketFor, Layout.NumBins, Top, Sum, ExactStats, ExactMinNonZero;
      hide NoneAfter, AllAtMost, LayoutFor;
      hide Descending, BumpAll, Groups;
      r := RecordN(value, n);
      if r.Fail? {
        return;
      }
      ghost var base := Resized(old(counts), |counts|);
      BumpAllPrepend(layout, base, value, [], n, counterMax);
      GroupsNone(n);
      if interval == 0 {
        return;
      }
      if value > interval {
        IndexMonotone(layout, value - interval, value);
        DescendingInRange(layout, value - interval, interval, |counts|);
        DescendingInRange(layout, value - interval, interval, MaxIndex() + 1);
        RecordMissing(value - interval, n, interval);
        BumpAllPrepend(layout, base, value, Descending(value - interval, interval), n, counterMax);
        GroupsNext(n, |Descending(value - interval, interval)|);
      }
    }

    /** Records a value that has a counter, and all smaller ones at the given interval. */
    method RecordMissing(value: U64, n: nat, interval: U64)
      requires Valid()
      requires n <= counterMax
      requires interval > 0
      requires layout.Valid() && AllHaveSlots(layout, Descending(value, interval), |counts|)
      requires AllHaveSlots(layout, Descending(value, interval), MaxIndex() + 1)
      modifies this
      ensures Valid()
      ensures autoResize == old(autoResize)
      ensures bucketCount == old(bucketCount) && high == old(high) && MaxIndex() == old(MaxIndex())
      ensures |counts| == |old(counts)|
      ensures counts == BumpAll(layout, old(counts), Descending(value, interval), n, counterMax)
      ensures total == Min(U64_MAX, old(total) + Groups(n, |Descending(value, interval)|))
      ensures old(Exact()) && n > 0 ==> Exact()
      ensures old(MinKnown()) && n > 0 ==> MinKnown()
    {
      hide *;
      ghost var values := Descending(value, interval);
      ghost var k := 0;
      var missing := value;
      GroupsNone(n);
      SaturateNone(total);
      BumpFirstSteps(layout, counts, values, n, counterMax);
      while missing >= interval
        invariant 0 <= missing <= value
        invariant Valid()
        invariant autoResize == old(autoResize)
        invariant bucketCount == old(bucketCount) && high == old(high) && MaxIndex() == old(MaxIndex())
        invariant |counts| == |old(counts)|
        invariant k <= |values| && values[k..] == Descending(missing, interval)
        invariant counts == BumpFirst(layout, old(counts), values, k, n, counterMax)
        invariant total == Min(U64_MAX, old(total) + Groups(n, k))
        invariant old(Exact()) && n > 0 ==> Exact()
        invariant old(MinKnown()) && n > 0 ==> MinKnown()
      {
        DescendingNext(value, k, missing, interval);
        GroupsNext(n, k);
        SaturateTwice(old(total) + Groups(n, k), n);
        SlotOf(values[k]);
        SlotAt(layout, values, k, MaxIndex() + 1);
        RecordCovered(missing, n);
        MaxAbsorbs(old(MaxIndex()), layout.IndexFor(missing));
        k, missing := k + 1, missing - interval;
      }
      DescendingEnd(missing, interval);
    }

    /** Sets the length of the counts array; a length it already has changes nothing. */
    method ResizeCounts(n: nat)
      modifies this`counts
      ensures counts == Resized(old(counts), n)
      ensures n == |old(counts)| ==> counts == old(counts)
    {
      ResizedSame(counts);
      counts := Resized(counts, n);
    }

    /** Whether values out of range make the histogram grow. */
    method Auto(enabled: bool)
      requires Valid()
      modifies this`autoResize
      ensures Valid() && autoResize == enabled
      ensures old(Exact()) ==> Exact()
      ensures old(MinKnown()) ==> MinKnown()
    {
      autoResize := enabled;
    }

    // ---- clearing and recomputing ----

    /** Drops all counts but keeps the tracked extremes. */
    method Clear()
      requires Valid()
      modifies this`counts, this`total
      ensures Valid()
      ensures counts == Zeros(|old(counts)|) && total == 0
    {
      counts := Zeros(|counts|);
      total := 0;
      PrefixZeros(counts, 0, |counts|);
    }

    /** Drops all counts and the tracked extremes. */
    method Reset()
      requires Valid()
      modifies this`counts, this`total, this`maxValue, this`minNonZero
      ensures Valid() && Exact() && MinKnown()
      ensures counts == Zeros(|old(counts)|) && total == 0
      ensures MaxIndex() == 0 && minNonZero == U64_MAX
    {
      hide Layout.IndexFor, Layout.BucketFor, Layout.NumBins, LayoutFor;
      Clear();
      ResetExtremes();
      ResetStats(layout, counts);
    }

    method ResetExtremes()
      requires layout.Valid()
      modifies this`maxValue, this`minNonZero
      ensures maxValue == ResetMaxValue(layout) == layout.UnitMask() && minNonZero == U64_MAX
    {
      maxValue, minNonZero := ResetMaxValue(layout), U64_MAX;
    }

    /** Recomputes total and extremes from the counts below `lengthToScan`. */
    method Restat(lengthToScan: nat)
      requires WellTyped()
      requires 1 <= bucketCount <= MaxBuckets(layout)
      requires |counts| == layout.NumBins(bucketCount)
      requires lengthToScan <= |counts|
      modifies this`total, this`maxValue, this`minNonZero
      ensures 0 < lengthToScan ==> ExactStats(layout, counts[..lengthToScan], maxValue, minNonZero)
      ensures lengthToScan == 0 ==> MaxIndex() == 0 && minNonZero == U64_MAX
      ensures ExactMinNonZero(layout, counts[..lengthToScan], minNonZero)
      ensures lengthToScan == |counts| ==> Exact() && MinKnown()
      ensures total == Min(U64_MAX, Prefix(counts, lengthToScan))
    {
      hide Layout.IndexFor, Layout.BucketFor, Layout.NumBins, LayoutFor, ExactStats, ExactMinNonZero, Prefix;
      hide RestatState.Covers;
      NumBinsIncreasing(layout, bucketCount - 1, bucketCount);
      ResetExtremes();
      ResetIndex(layout);
      var state := new RestatState();
      ghost var c := counts[..lengthToScan];
      PrefixTaken(counts, lengthToScan);
      for i := 0 to lengthToScan
        invariant fresh(state)
        invariant state.Covers(c, i)
        invariant maxValue == ResetMaxValue(layout) && minNonZero == U64_MAX
      {
        var count := counts[i];
        if count != 0 {
          state.OnNonZeroCount(c, i, count);
        } else {
          state.SkipZeros(c, i, i + 1);
        }
      }
      state.UpdateHistogram(this, c);
    }

    // ---- adding and subtracting histograms ----

    /** What an addition that fits does, however it is carried out. */
    twostate predicate Absorbed(s: Histogram)
      requires WellTyped()
      reads this, s
    {
      && autoResize == old(autoResize) && high == old(high) && bucketCount == old(bucketCount)
      && counts == Merged(old(counts), s.layout, layout, s.counts, |s.counts|, counterMax)
      && total == Min(U64_MAX, old(total) + Sum(s.counts))
      && (s.layout.Valid() ==> MaxIndex() == Max(old(MaxIndex()), Conv(s.layout, layout, s.MaxIndex())))
      && (old(Exact()) && s.Exact() ==> Exact())
      && (old(MinKnown()) && s.MinKnown() && s.Exact() ==> MinKnown())
    }

    /** Counts arrays of the same length and meaning are added index by index. */
    method AddSameShape(s: Histogram)
      requires Valid() && s.Valid() && s != this
      requires counterMax == s.counterMax
      requires bucketCount == s.bucketCount && layout == s.layout
      modifies this`counts, this`total, this`maxValue, this`minNonZero
      ensures Valid()
      ensures Absorbed(s)
    {
      hide Layout.IndexFor, Layout.BucketFor, Layout.NumBins, Layout.ValueFor, LayoutFor, ExactStats;
      hide ExactMinNonZero, Sum;
      hide ReportedMax, ReportedMinNonZero, RaisedMax, LoweredMin, Merged, Conv, AllAtMost, NoneAfter;
      BucketCount(layout, high);
      var observed := AddCounts(s);
      total := Min(U64_MAX, total + observed);
      SaturateTwice(old(total), Sum(s.counts));
      var mx := s.MaxRecorded();
      if mx > MaxRecorded() {
        maxValue := RaisedMax(layout, maxValue, mx);
      }
      var mn := s.MinNzRecorded();
      if mn < MinNzRecorded() {
        minNonZero := LoweredMin(layout, minNonZero, mn);
      }
      AddedState(layout, bucketCount, old(counts), old(maxValue), old(minNonZero), old(total),
                 s.counts, s.maxValue, s.minNonZero, counterMax, maxValue, minNonZero);
    }

    method AddCounts(s: Histogram) returns (observed: U64)
      requires layout.Valid() && s != this
      requires 1 <= bucketCount <= MaxBuckets(layout)
      requires |counts| == |s.counts| == layout.NumBins(bucketCount)
      requires AllAtMost(counts, counterMax)
      modifies this`counts
      ensures counts == Merged(old(counts), layout, layout, s.counts, |s.counts|, counterMax)
      ensures observed == Min(U64_MAX, Sum(s.counts))
    {
      hide Layout.IndexFor, Layout.NumBins, Merged, Conv;
      observed := 0;
      MergedNone(counts, layout, layout, s.counts, counterMax);
      for i := 0 to |s.counts|
        invariant |counts| == |old(counts)|
        invariant counts == Merged(old(counts), layout, layout, s.counts, i, counterMax)
        invariant observed == Min(U64_MAX, Prefix(s.counts, i))
      {
        MergedSameStep(old(counts), layout, bucketCount, s.counts, i, counterMax);
        var otherCount := s.counts[i];
        if otherCount != 0 {
          counts := Bump(counts, i, otherCount, counterMax);
          observed := Min(U64_MAX, observed + otherCount);
        }
      }
    }

    /** Otherwise every count is recorded at the value it stands for, the largest value first. */
    method AddByValue(s: Histogram)
      requires Valid() && s.Valid() && s != this
      requires counterMax == s.counterMax
      requires HasSlot(s.MaxRecorded())
      modifies this
      ensures Valid()
      ensures Absorbed(s)
    {
      hide Layout.IndexFor, Layout.BucketFor, Layout.NumBins, Layout.ValueFor, LayoutFor, ReportedMax, Sum, AllAtMost;
      hide NoneAfter, Merged, Bump, ExactStats, ExactMinNonZero;
      ByValuePlan(s, layout, counts, counterMax);
      ByValueResult(s, layout, counts, counterMax, total);
      var otherMaxIndex := s.layout.IndexFor(s.MaxRecorded());
      var otherCount := s.counts[otherMaxIndex];
      RecordCovered(s.layout.ValueFor(otherMaxIndex), otherCount);
      AddBelow(s.layout, s.counts, otherMaxIndex, Conv(s.layout, layout, otherMaxIndex));
    }

    /** Records the first `m` counts of another histogram, none of which belongs past index `top`. */
    method AddBelow(src: Layout, c: seq<nat>, m: nat, ghost top: nat)
      requires Valid() && layout.Valid()
      requires AllAtMost(counts, counterMax)
      requires m < |c| && AllAtMost(c, counterMax)
      requires top < |counts| && MaxIndex() >= top
      requires Lands(src, layout, c, top + 1)
      modifies this
      ensures Valid()
      ensures autoResize == old(autoResize) && high == old(high) && bucketCount == old(bucketCount)
      ensures counts == Merged(old(counts), src, layout, c, m, counterMax)
      ensures total == Min(U64_MAX, old(total) + Prefix(c, m))
      ensures MaxIndex() == old(MaxIndex())
      ensures old(Exact()) ==> Exact()
      ensures old(MinKnown()) ==> MinKnown()
    {
      hide *;
      MergedStart(counts, src, layout, c, total, counterMax);
      for i := 0 to m
        invariant Valid()
        invariant |counts| == |old(counts)|
        invariant autoResize == old(autoResize) && high == old(high) && bucketCount == old(bucketCount)
        invariant counts == Merged(old(counts), src, layout, c, i, counterMax)
        invariant total == Min(U64_MAX, old(total) + Prefix(c, i))
        invariant MaxIndex() == old(MaxIndex())
        invariant old(Exact()) ==> Exact()
        invariant old(MinKnown()) ==> MinKnown()
      {
        var otherCount := c[i];
        MergedNext(old(counts), src, layout, c, i, counterMax, top);
        SaturateTwice(old(total) + Prefix(c, i), otherCount);
        if otherCount != 0 {
          SlotOf(src.ValueFor(i));
          RecordCovered(src.ValueFor(i), otherCount);
          MaxAbsorbs(old(MaxIndex()), layout.IndexFor(src.ValueFor(i)));
        }
      }
    }

    /** Makes room for the largest value of an addend; the bound asked for becomes the new bound. */
    method GrowForAddend(value: U64)
      requires Valid()
      requires Top(layout, bucketCount) < value
      modifies this`bucketCount, this`high, this`counts
      ensures Valid()
      ensures HasSlot(value)
      ensures old(bucketCount) <= bucketCount == layout.BucketFor(value) + 1
      ensures old(|counts|) <= |counts|
      ensures counts == Resized(old(counts), |counts|)
      ensures high == value
      ensures old(Exact()) ==> Exact()
      ensures old(MinKnown()) ==> MinKnown()
    {
      hide Layout.IndexFor, Layout.BucketFor, Layout.NumBins, Top, Sum, ExactStats, ExactMinNonZero;
      hide NoneAfter, AllAtMost, LayoutFor;
      BucketCount(layout, high);
      BucketCount(layout, value);
      TopCovers(layout, bucketCount, high);
      TopCovers(layout, bucketCount, U64_MAX - 1);
      IndexMonotone(layout, U64_MAX - 1, U64_MAX);
      TopBelow(layout, bucketCount, value);
      PaddedState(layout, counts, maxValue, minNonZero, layout.NumBins(layout.BucketFor(value) + 1), counterMax);
      Resize(value);
    }

    /**
      Adds another histogram, which may have another precision, unit and range. It fails only
      if a value does not fit and growing is disabled, and then nothing changes.
     */
    method Add(s: Histogram) returns (r: Outcome<AdditionError>)
      requires Valid() && s.Valid() && s != this
      requires counterMax == s.counterMax
      modifies this
      ensures Valid()
      ensures autoResize == old(autoResize)
      ensures r.Fail? <==> !old(autoResize) && old(Top(layout, bucketCount)) < s.MaxRecorded()
      ensures r.Fail? <==> !old(autoResize) && (s.MaxRecorded() == U64_MAX || !old(HasSlot(s.MaxRecorded())))
      ensures r.Fail? ==> unchanged(this)
      ensures r.Pass? ==>
        && HasSlot(s.MaxRecorded())
        && bucketCount == (if old(Top(layout, bucketCount)) < s.MaxRecorded()
          then layout.BucketFor(s.MaxRecorded()) + 1 else old(bucketCount))
        && high == (if old(Top(layout, bucketCount)) < s.MaxRecorded() then s.MaxRecorded() else old(high))
        && |old(counts)| <= |counts|
        && counts == Merged(Resized(old(counts), |counts|), s.layout, layout, s.counts, |s.counts|, counterMax)
        && total == Min(U64_MAX, old(total) + Sum(s.counts))
        && MaxIndex() == Max(old(MaxIndex()), Conv(s.layout, layout, s.MaxIndex()))
        && (old(Exact()) && s.Exact() ==> Exact())
        && (old(MinKnown()) && s.MinKnown() && s.Exact() ==> MinKnown())
    {
      hide Layout.IndexFor, Layout.BucketFor, Layout.NumBins, Layout.ValueFor, Layout.HighestEquivalent, LayoutFor;
      hide ExactStats, ExactMinNonZero, Sum;
      hide ReportedMax, Merged, Conv, AllAtMost, NoneAfter;
      BucketCount(layout, high);
      ResizedSame(counts);
      TopCovers(layout, bucketCount, s.MaxRecorded());
      var top := layout.HighestEquivalent(layout.ValueFor(|counts| - 1));
      if top < s.MaxRecorded() {
        if !autoResize {
          return Fail(OtherAddendValueExceedsRange);
        }
        GrowForAddend(s.MaxRecorded());
      }
      if bucketCount == s.bucketCount && layout == s.layout {
        AddSameShape(s);
      } else {
        AddByValue(s);
      }
      r := Pass;
    }

    /** Subtracting `s` may have removed an extreme, or the total may have saturated before. */
    ghost predicate NeedsRestat(s: Histogram)
      requires layout.Valid()
      requires |counts| > 0
      reads this, s
    {
      || total == U64_MAX
      || Touched(s.layout, s.counts, |s.counts|,
                 layout.HighestEquivalent(MinRecorded()), layout.LowestEquivalent(MaxRecorded()))
    }

    /** The first `n` counts of `s` stand for values strictly between the classes of the extremes. */
    ghost predicate Between(s: Histogram, n: nat)
      requires layout.Valid()
      requires |counts| > 0
      requires n <= |s.counts|
      reads this, s
    {
      forall i :: 0 <= i < n && s.counts[i] != 0 ==>
        layout.HighestEquivalent(MinRecorded()) < s.layout.ValueFor(i) < layout.LowestEquivalent(MaxRecorded())
    }

    lemma UntouchedBetween(s: Histogram)
      requires layout.Valid()
      requires |counts| > 0
      ensures forall n :: 0 <= n <= |s.counts| ==>
        (Between(s, n) <==>
          !Touched(s.layout, s.counts, n,
                   layout.HighestEquivalent(MinRecorded()), layout.LowestEquivalent(MaxRecorded())))
    {
      hide Layout.ValueFor, Layout.HighestEquivalent, Layout.LowestEquivalent, ReportedMax, ReportedMin;
      hide Layout.IndexFor;
    }

    /** Takes counts out one by one until one is too large, and the total with them while it can be trusted. */
    method TakeCounts(src: Layout, c: seq<nat>, minTop: U64, maxBottom: U64)
      returns (ok: bool, needsRestat: bool, ghost taken: nat)
      requires layout.Valid()
      requires Lands(src, layout, c, |counts|)
      requires Min(U64_MAX, Sum(counts)) <= total
      modifies this`counts, this`total
      ensures taken <= |c|
      ensures Fits(old(counts), src, layout, c, taken)
      ensures counts == Reduced(old(counts), src, layout, c, taken)
      ensures if ok then taken == |c| else taken < |c| && !Fits(old(counts), src, layout, c, taken + 1)
      ensures needsRestat <==> old(total) == U64_MAX || Touched(src, c, taken, minTop, maxBottom)
      ensures !needsRestat ==> total == old(total) - Prefix(c, taken)
      ensures Min(U64_MAX, Sum(counts)) <= total
    {
      hide Layout.IndexFor, Layout.ValueFor, Fits, Reduced, Prefix, Sum, Touched;
      needsRestat := total == U64_MAX;
      taken := 0;
      TakeNone(counts, src, layout, c, minTop, maxBottom);
      for i := 0 to |c|
        invariant taken == i
        invariant |counts| == |old(counts)|
        invariant Fits(old(counts), src, layout, c, i)
        invariant counts == Reduced(old(counts), src, layout, c, i)
        invariant needsRestat <==> old(total) == U64_MAX || Touched(src, c, i, minTop, maxBottom)
        invariant !needsRestat ==> total == old(total) - Prefix(c, i)
        invariant Sum(counts) == Sum(old(counts)) - Prefix(c, i)
        invariant Min(U64_MAX, Sum(counts)) <= total
      {
        TakeOne(old(counts), src, layout, c, i, minTop, maxBottom);
        var otherCount := c[i];
        if otherCount != 0 {
          var otherValue := src.ValueFor(i);
          var k := layout.IndexFor(otherValue);
          if counts[k] < otherCount {
            ok := false;
            return;
          }
          counts := counts[k := counts[k] - otherCount];
          if otherValue <= minTop || otherValue >= maxBottom {
            needsRestat := true;
          }
          if !needsRestat {
            total := total - otherCount;
          }
        }
        taken := taken + 1;
      }
      ok := true;
    }

    /**
      Subtracts another histogram. It succeeds if and only if the subtrahend is in range and no
      count is larger than what it is taken from. When a count is too large, the counts before
      it have already been taken out.
     */
    method Subtract(s: Histogram) returns (r: Outcome<SubtractionError>, ghost taken: nat)
      requires Valid() && s.Valid() && s != this
      modifies this`counts, this`total, this`maxValue, this`minNonZero
      ensures Valid()
      ensures r == Fail(SubtrahendValueExceedsMinuendRange) <==>
        old(Top(layout, bucketCount)) < layout.HighestEquivalent(s.MaxRecorded())
      ensures r == Fail(SubtrahendValueExceedsMinuendRange) ==> unchanged(this)
      ensures r == Fail(SubtrahendCountExceedsMinuendCount) ==>
        && taken < |s.counts|
        && Fits(old(counts), s.layout, layout, s.counts, taken)
        && !Fits(old(counts), s.layout, layout, s.counts, taken + 1)
        && counts == Reduced(old(counts), s.layout, layout, s.counts, taken)
        && maxValue == old(maxValue) && minNonZero == old(minNonZero)
        && (old(total) != U64_MAX && old(Between(s, taken)) ==> total == old(total) - Prefix(s.counts, taken))
      ensures r.Pass? <==>
        && layout.HighestEquivalent(s.MaxRecorded()) <= old(Top(layout, bucketCount))
        && Fits(old(counts), s.layout, layout, s.counts, |s.counts|)
      ensures r.Pass? ==>
        && counts == Reduced(old(counts), s.layout, layout, s.counts, |s.counts|)
        && total == (if old(NeedsRestat(s)) then Min(U64_MAX, Sum(counts)) else old(total) - Sum(s.counts))
        && (old(NeedsRestat(s)) ==> Exact() && MinKnown())
        && (old(total) != U64_MAX && old(Between(s, |s.counts|)) ==>
              && total == old(total) - Sum(s.counts)
              && maxValue == old(maxValue) && minNonZero == old(minNonZero))
        && (old(Exact()) ==> Exact())
        && (old(MinKnown()) ==>
              (MinKnown() <==>
                || old(NeedsRestat(s))
                || KeepsSmallest(layout, old(counts), old(minNonZero), s.layout, s.counts)))
    {
      hide Layout.IndexFor, Layout.ValueFor, Layout.BucketFor, Layout.NumBins, Layout.HighestEquivalent;
      hide Layout.LowestEquivalent;
      hide LayoutFor, ReportedMax, ReportedMin, Fits, Reduced, Prefix, Touched, Between, ExactStats, ExactMinNonZero;
      hide KeepsSmallest;
      taken := 0;
      BucketCount(layout, high);
      BucketCount(s.layout, s.high);
      var top := layout.HighestEquivalent(layout.ValueFor(|counts| - 1));
      if top < layout.HighestEquivalent(s.MaxRecorded()) {
        return Fail(SubtrahendValueExceedsMinuendRange), 0;
      }
      SubtrahendLands(layout, bucketCount, s.layout, s.bucketCount, s.counts, s.maxValue);
      var minTop := layout.HighestEquivalent(MinRecorded());
      var maxBottom := layout.LowestEquivalent(MaxRecorded());
      ReducedState(layout, counts, total, maxValue, minNonZero, s.layout, s.bucketCount, s.counts, counterMax);
      FitsPrefixes(counts, s.layout, layout, s.counts);
      UntouchedBetween(s);
      ghost var known := MinKnown();
      var ok, needsRestat;
      ok, needsRestat, taken := TakeCounts(s.layout, s.counts, minTop, maxBottom);
      if !ok {
        return Fail(SubtrahendCountExceedsMinuendCount), taken;
      }
      if needsRestat {
        Restat(|counts|);
        ExactBound(layout, counts, maxValue, minNonZero);
      } else if known {
        LastIndexOfWords(layout, bucketCount);
        ExactMinReduce(layout, old(counts), minNonZero, s.layout, s.counts);
      }
      r := Pass;
    }

    method SetCountAtIndex(index: nat, count: nat) returns (ok: bool)
      modifies this`counts
      ensures ok <==> index < |old(counts)|
      ensures counts == if ok then old(counts)[index := count] else old(counts)
    {
      ok := index < |counts|;
      if ok {
        counts := counts[index := count];
      }
    }

    // ---- queries ----

    function LastIndex(): nat
      requires |counts| > 0
      reads this
    {
      |counts| - 1
    }

    function IndexForOrLast(value: U64): (i: nat)
      requires layout.Valid()
      requires |counts| > 0
      reads this
      ensures i < |counts|
    {
      Min(layout.IndexFor(value), LastIndex())
    }

    /** Samples counted between two values, both rounded to whole classes and capped at the range. */
    method CountBetween(low: U64, high: U64) returns (n: U64)
      requires Valid()
      ensures n == Min(U64_MAX, Span(counts, IndexForOrLast(low), IndexForOrLast(high)))
    {
      hide Layout.IndexFor, Layout.BucketFor, Layout.NumBins, LayoutFor, Sum, NoneAfter, AllAtMost;
      var lo, hi := IndexForOrLast(low), IndexForOrLast(high);
      n := 0;
      var i := lo;
      while i < hi + 1
        invariant lo <= i <= Max(lo, hi + 1)
        invariant Prefix(counts, lo) <= Prefix(counts, i)
        invariant n == Min(U64_MAX, Prefix(counts, i) - Prefix(counts, lo))
      {
        SaturateTwice(Prefix(counts, i) - Prefix(counts, lo), counts[i]);
        n := Min(U64_MAX, n + counts[i]);
        i := i + 1;
      }
    }

    /**
      The scan behind the quantile query, with the rank given as an integer. The running total
      is a 64-bit word, so the result is meaningful only while the counts add up to one.
     */
    method ValueAtRank(rank: U64, lowest: bool) returns (value: U64)
      requires Valid()
      requires rank >= 1
      ensures Sum(counts) <= U64_MAX && rank <= Sum(counts) ==>
        exists i :: AtRank(counts, rank, i)
          && value == (if lowest
            then layout.LowestEquivalent(layout.ValueFor(i)) else layout.HighestEquivalent(layout.ValueFor(i)))
      ensures Sum(counts) <= U64_MAX && Sum(counts) < rank ==> value == 0
    {
      hide Layout.IndexFor, Layout.BucketFor, Layout.NumBins, Layout.ValueFor, LayoutFor;
      hide Layout.LowestEquivalent, Layout.HighestEquivalent, NoneAfter, AllAtMost;
      var totalToCurrent: U64 := 0;
      for i := 0 to |counts|
        invariant Sum(counts) <= U64_MAX ==> totalToCurrent == Prefix(counts, i) < rank
      {
        PrefixMonotone(counts, i + 1, |counts|);
        totalToCurrent := (totalToCurrent + counts[i]) % 0x1_0000_0000_0000_0000;
        if totalToCurrent >= rank {
          assert Sum(counts) <= U64_MAX ==> AtRank(counts, rank, i);
          var v := layout.ValueFor(i);
          return if lowest then layout.LowestEquivalent(v) else layout.HighestEquivalent(v);
        }
      }
      value := 0;
    }

    /** The value at a quantile, with exact arithmetic for the rank; quantile zero asks for the low end of its class. */
    method ValueAtQuantile(quantile: real) returns (value: U64)
      requires Valid()
      ensures
        var rank := QuantileRank(quantile, total);
        var lowest := quantile == 0.0;
        && (Sum(counts) <= U64_MAX && rank <= Sum(counts) ==>
              exists i :: AtRank(counts, rank, i)
                && value == (if lowest then layout.LowestEquivalent(layout.ValueFor(i))
                             else layout.HighestEquivalent(layout.ValueFor(i))))
        && (Sum(counts) <= U64_MAX && Sum(counts) < rank ==> value == 0)
    {
      hide Histogram.Valid, Layout.ValueFor, Layout.LowestEquivalent, Layout.HighestEquivalent, Sum, AtRank;
      QuantileRankInRange(quantile, total);
      var rank := QuantileRank(quantile, total);
      value := ValueAtRank(rank, quantile == 0.0);
    }
  }

  lemma SlotAt(g: Layout, values: seq<U64>, k: nat, bins: nat)
    requires g.Valid()
    requires AllHaveSlots(g, values, bins)
    requires k < |values|
    ensures g.IndexFor(values[k]) < bins
  {
  }

  function Ceiling(x: real): (n: int)
    ensures (n - 1) as real < x <= n as real
  {
    if x == x.Floor as real then x.Floor else x.Floor + 1
  }

  /** The fraction of the total that a quantile asks for; quantiles are capped at one. */
  function Fraction(quantile: real, total: nat): real {
    (if quantile > 1.0 then 1.0 else quantile) * total as real
  }

  lemma FractionBounds(quantile: real, total: nat)
    ensures Fraction(quantile, total) <= total as real
    ensures quantile >= 1.0 ==> Fraction(quantile, total) == total as real
    ensures quantile <= 0.0 ==> Fraction(quantile, total) <= 0.0
    ensures quantile <= 1.0 ==> Fraction(quantile, total) == quantile * total as real
  {
    var q, t := if quantile > 1.0 then 1.0 else quantile, total as real;
    ProductSign(q, t);
    assert Fraction(quantile, total) == q * t;
  }

  lemma ProductSign(x: real, t: real)
    requires t >= 0.0 && x <= 1.0
    ensures x <= 0.0 ==> x * t <= 0.0
    ensures x * t <= t
    ensures x == 1.0 ==> x * t == t
  {
    assert (1.0 - x) * t >= 0.0;
    assert x <= 0.0 ==> (-x) * t >= 0.0;
  }

  /** The least rank that reaches a fraction, and at least the first. */
  function RankReaching(fraction: real): (rank: int)
    ensures rank >= 1
  {
    if fraction <= 0.0 then 1 else Ceiling(fraction)
  }

  lemma RankReachingBounds(fraction: real, total: nat)
    requires fraction <= total as real
    ensures fraction <= RankReaching(fraction) as real
    ensures RankReaching(fraction) > 1 ==> (RankReaching(fraction) - 1) as real < fraction
    ensures RankReaching(fraction) <= Max(1, total)
    ensures fraction == total as real ==> RankReaching(fraction) == Max(1, total)
    ensures fraction <= 0.0 ==> RankReaching(fraction) == 1
  {
  }

  /** The rank that a quantile asks for. */
  function QuantileRank(quantile: real, total: nat): (rank: int)
    ensures rank >= 1
  {
    RankReaching(Fraction(quantile, total))
  }

  /** It is a rank of the samples if there are any, and is reached by no smaller part of them. */
  lemma QuantileRankInRange(quantile: real, total: nat)
    ensures QuantileRank(quantile, total) <= Max(1, total)
    ensures quantile > 1.0 ==> QuantileRank(quantile, total) == QuantileRank(1.0, total)
    ensures quantile >= 1.0 ==> QuantileRank(quantile, total) == Max(1, total)
    ensures quantile <= 0.0 ==> QuantileRank(quantile, total) == 1
    ensures quantile <= 1.0 ==> quantile * total as real <= QuantileRank(quantile, total) as real
    ensures 0.0 <= quantile <= 1.0 && QuantileRank(quantile, total) > 1 ==>
      (QuantileRank(quantile, total) - 1) as real < quantile * total as real
  {
    hide Fraction, RankReaching;
    FractionBounds(quantile, total);
    FractionBounds(1.0, total);
    RankReachingBounds(Fraction(quantile, total), total);
  }

  /** Collects the extremes and the total while counts are scanned in order. */
  class RestatState {
    var maxIndex: Option<nat>
    var minIndex: Option<nat>
    var total: U64

    /** The first `n` counts have been taken in. */
    ghost predicate Covers(c: seq<nat>, n: nat)
      reads this
    {
      && n <= |c|
      && total == Min(U64_MAX, Prefix(c, n))
      && (maxIndex.None? ==> forall i :: 0 <= i < n ==> c[i] == 0)
      && (maxIndex.Some? ==>
            && maxIndex.value < n && c[maxIndex.value] != 0
            && forall i :: maxIndex.value < i < n ==> c[i] == 0)
      && (minIndex.None? ==> forall i :: 1 <= i < n ==> c[i] == 0)
      && (minIndex.Some? ==>
            && 1 <= minIndex.value < n && c[minIndex.value] != 0
            && forall i :: 1 <= i < minIndex.value ==> c[i] == 0)
    }

    constructor ()
      ensures forall c :: Covers(c, 0)
    {
      maxIndex, minIndex, total := None, None, 0;
    }

    method OnNonZeroCount(ghost c: seq<nat>, index: nat, count: nat)
      requires index < |c| && c[index] == count != 0
      requires Covers(c, index)
      modifies this
      ensures Covers(c, index + 1)
    {
      total := Min(U64_MAX, total + count);
      maxIndex := Some(index);
      if minIndex.None? && index != 0 {
        minIndex := Some(index);
      }
    }

    lemma SkipZeros(c: seq<nat>, m: nat, n: nat)
      requires m <= n <= |c|
      requires forall i :: m <= i < n ==> c[i] == 0
      requires Covers(c, m)
      ensures Covers(c, n)
    {
      PrefixZeros(c, m, n);
    }

    /** Writes what was found into a histogram whose tracked extremes are reset. */
    method UpdateHistogram(h: Histogram, ghost c: seq<nat>)
      requires h.WellTyped()
      requires 1 <= h.bucketCount <= MaxBuckets(h.layout)
      requires |c| <= h.layout.NumBins(h.bucketCount)
      requires h.MaxIndex() == 0 && h.minNonZero == U64_MAX
      requires Covers(c, |c|)
      modifies h`total, h`maxValue, h`minNonZero
      ensures if c == [] then h.maxValue == old(h.maxValue) && h.minNonZero == U64_MAX
        else ExactStats(h.layout, c, h.maxValue, h.minNonZero)
      ensures ExactMinNonZero(h.layout, c, h.minNonZero)
      ensures h.total == Min(U64_MAX, Sum(c))
    {
      hide Layout.IndexFor, Layout.NumBins, Layout.ValueFor, Layout.HighestEquivalent, RaisedMax, LoweredMin, LayoutFor;
      TopIndexPositive(h.layout);
      if maxIndex.Some? {
        var max := h.layout.HighestEquivalent(h.layout.ValueFor(maxIndex.value));
        IndexOfValueFor(h.layout, h.bucketCount, maxIndex.value);
        HighestEquivalentInClass(h.layout, h.layout.ValueFor(maxIndex.value));
        RaisedMaxIndex(h.layout, h.maxValue, max);
        h.maxValue := RaisedMax(h.layout, h.maxValue, max);
      }
      if minIndex.Some? {
        var min := h.layout.ValueFor(minIndex.value);
        IndexOfValueFor(h.layout, h.bucketCount, minIndex.value);
        LoweredFromTop(h.layout, min);
        h.minNonZero := LoweredMin(h.layout, h.minNonZero, min);
      }
      h.total := total;
    }
  }

  /** Prefix sums do not look further than they reach. */
  lemma PrefixTaken(c: seq<nat>, n: nat)
    requires n <= |c|
    ensures Sum(c[..n]) == Prefix(c, n)
    ensures n == |c| ==> c[..n] == c
  {
    PrefixExtend(c[..n], c[n..], n);
    assert c[..n] + c[n..] == c;
  }

  /** What `reset_max` leaves: the largest value equivalent to zero. */
  function ResetMaxValue(g: Layout): U64
    requires g.Valid()
  {
    UnitEquivalent(g, 0);
    BitOr(0, g.UnitMask())
  }

  lemma ResetIndex(g: Layout)
    requires g.Valid()
    ensures g.IndexFor(ResetMaxValue(g)) == 0
  {
    hide Layout.IndexFor, BitOr, Layout.UnitMask;
    UnitEquivalent(g, 0);
    FirstClass(g, 0);
  }

  lemma ResetStats(g: Layout, c: seq<nat>)
    requires g.Valid()
    requires |c| > 0
    requires forall i :: 0 <= i < |c| ==> c[i] == 0
    ensures g.IndexFor(ResetMaxValue(g)) == 0
    ensures ExactStats(g, c, ResetMaxValue(g), U64_MAX)
  {
    hide Layout.IndexFor, ResetMaxValue;
    ResetIndex(g);
    TopIndexPositive(g);
  }

  lemma LoweredFromTop(g: Layout, value: U64)
    requires g.Valid()
    requires g.IndexFor(value) >= 1
    ensures g.IndexFor(LoweredMin(g, U64_MAX, value)) == g.IndexFor(value)
  {
    hide Layout.IndexFor, BitAnd, BitNot64, Layout.UnitMask;
    UnitEquivalent(g, value);
    FirstClass(g, value);
  }

  /** Saturating additions one after the other are one saturating addition of the sum. */
  lemma SaturateTwice(a: nat, b: nat)
    ensures Min(U64_MAX, Min(U64_MAX, a) + b) == Min(U64_MAX, a + b)
    ensures Min(U64_MAX, a + Min(U64_MAX, b)) == Min(U64_MAX, a + b)
  {
  }

  lemma SaturateNone(a: U64)
    ensures Min(U64_MAX, a) == a
  {
  }

  lemma MaxAbsorbs(a: nat, b: nat)
    requires b <= a
    ensures Max(a, b) == a
  {
  }

  /** A value above the top of the range needs at least as many buckets. */
  lemma TopBelow(g: Layout, buckets: nat, value: U64)
    requires g.Valid()
    requires 1 <= buckets <= MaxBuckets(g)
    requires Top(g, buckets) < value
    ensures buckets <= g.BucketFor(value) + 1
    ensures g.NumBins(buckets) <= g.NumBins(g.BucketFor(value) + 1)
  {
    hide Layout.IndexFor, Layout.BucketFor, Layout.NumBins, Top;
    TopCovers(g, buckets, value);
    BucketCount(g, value);
    var b := g.BucketFor(value) + 1;
    if b < buckets {
      BucketsCover(g, b, value);
      IndexMonotone(g, Top(g, buckets), value);
      BucketsCover(g, b, Top(g, buckets));
    } else if buckets < b {
      NumBinsIncreasing(g, buckets, b);
    }
  }

  /** Where the addition by value starts: the largest value first, at an index that exists. */
  lemma ByValuePlan(s: Histogram, g: Layout, c: seq<nat>, cap: nat)
    requires s.Valid() && g.Valid()
    requires g.IndexFor(s.MaxRecorded()) < |c|
    ensures s.layout.IndexFor(s.MaxRecorded()) == s.MaxIndex() < |s.counts|
    ensures Conv(s.layout, g, s.MaxIndex()) < |c|
    ensures Lands(s.layout, g, s.counts, Conv(s.layout, g, s.MaxIndex()) + 1)
    ensures s.Exact() ==> s.counts[s.MaxIndex()] > 0 || s.layout.ValueFor(s.MaxIndex()) == 0
  {
    hide Layout.IndexFor, Layout.BucketFor, Layout.NumBins, Layout.ValueFor, LayoutFor, ReportedMax, Sum, AllAtMost;
    BucketCount(s.layout, s.high);
    ReportedMaxIndex(s.layout, s.maxValue);
    ConvOfMax(s.layout, g, s.maxValue);
    LandsBelowMax(s.layout, g, s.bucketCount, s.counts, s.MaxIndex());
    FirstClass(s.layout, 0);
    ValueForIsStart(s.layout, 0);
  }

  /** Recording the largest count first and then the others adds up to merging all counts. */
  lemma ByValueResult(s: Histogram, g: Layout, c: seq<nat>, cap: nat, total: nat)
    requires s.Valid() && g.Valid()
    requires Conv(s.layout, g, s.MaxIndex()) < |c|
    ensures
      var m, top := s.MaxIndex(), Conv(s.layout, g, s.MaxIndex());
      && s.counts[m] <= s.counterMax
      && Merged(Bump(c, top, s.counts[m], cap), s.layout, g, s.counts, m, cap) ==
        Merged(c, s.layout, g, s.counts, |s.counts|, cap)
      && Min(U64_MAX, Min(U64_MAX, total + s.counts[m]) + Prefix(s.counts, m)) == Min(U64_MAX, total + Sum(s.counts))
  {
    hide Layout.IndexFor, Layout.BucketFor, Layout.NumBins, Layout.ValueFor, LayoutFor, Merged, Bump, Conv;
    var m := s.MaxIndex();
    MergedLastFirst(c, s.layout, g, s.counts, m, cap);
    MergedTail(c, s.layout, g, s.counts, m, cap);
    PrefixZeros(s.counts, m + 1, |s.counts|);
    SaturateTwice(total + s.counts[m], Prefix(s.counts, m));
  }

  lemma MergedStart(base: seq<nat>, src: Layout, dst: Layout, c: seq<nat>, total: U64, cap: nat)
    requires dst.Valid()
    requires AllAtMost(base, cap)
    ensures Merged(base, src, dst, c, 0, cap) == base
    ensures Min(U64_MAX, total + Prefix(c, 0)) == total
  {
  }

  lemma MergedNext(base: seq<nat>, src: Layout, dst: Layout, c: seq<nat>, i: nat, cap: nat, top: nat)
    requires dst.Valid()
    requires i < |c|
    requires top < |base|
    requires AllAtMost(c, cap)
    requires Lands(src, dst, c, top + 1)
    ensures Prefix(c, i + 1) == Prefix(c, i) + c[i]
    ensures c[i] <= cap
    ensures c[i] == 0 ==> Merged(base, src, dst, c, i + 1, cap) == Merged(base, src, dst, c, i, cap)
    ensures c[i] != 0 ==>
      && dst.IndexFor(src.ValueFor(i)) <= top
      && Merged(base, src, dst, c, i + 1, cap) ==
        Bump(Merged(base, src, dst, c, i, cap), dst.IndexFor(src.ValueFor(i)), c[i], cap)
  {
    hide Layout.IndexFor, Layout.ValueFor, Merged;
    assert c[i] != 0 ==> Conv(src, dst, i) <= top;
    MergedStep(base, src, dst, c, i, cap);
  }

  /** One of the first `n` counts is at or beyond an extreme of the minuend. */
  ghost predicate Touched(src: Layout, c: seq<nat>, n: nat, minTop: U64, maxBottom: U64)
    requires n <= |c|
  {
    exists i :: 0 <= i < n && c[i] != 0 && (src.ValueFor(i) <= minTop || src.ValueFor(i) >= maxBottom)
  }

  lemma TakeNone(base: seq<nat>, src: Layout, dst: Layout, c: seq<nat>, minTop: U64, maxBottom: U64)
    requires dst.Valid()
    ensures Fits(base, src, dst, c, 0) && Reduced(base, src, dst, c, 0) == base
    ensures !Touched(src, c, 0, minTop, maxBottom)
    ensures Prefix(c, 0) == 0
  {
    ReducedNone(base, src, dst, c);
  }

  /** One step of the subtraction, on values. */
  lemma TakeOne(base: seq<nat>, src: Layout, dst: Layout, c: seq<nat>, i: nat, minTop: U64, maxBottom: U64)
    requires dst.Valid()
    requires i < |c|
    requires Lands(src, dst, c, |base|)
    requires Fits(base, src, dst, c, i)
    ensures Prefix(c, i + 1) == Prefix(c, i) + c[i]
    ensures Touched(src, c, i + 1, minTop, maxBottom) <==>
      || Touched(src, c, i, minTop, maxBottom)
      || (c[i] != 0 && (src.ValueFor(i) <= minTop || src.ValueFor(i) >= maxBottom))
    ensures c[i] == 0 ==>
      && Fits(base, src, dst, c, i + 1)
      && Reduced(base, src, dst, c, i + 1) == Reduced(base, src, dst, c, i)
    ensures c[i] != 0 ==>
      var k := dst.IndexFor(src.ValueFor(i));
      var left := Reduced(base, src, dst, c, i);
      && k < |base|
      && left[k] <= Sum(left)
      && (Fits(base, src, dst, c, i + 1) <==> c[i] <= left[k])
      && (c[i] <= left[k] ==>
            && Reduced(base, src, dst, c, i + 1) == left[k := left[k] - c[i]]
            && Sum(left[k := left[k] - c[i]]) == Sum(left) - c[i])
  {
    hide Layout.IndexFor, Layout.ValueFor, Fits, Reduced, Sum;
    assert c[i] != 0 ==> Conv(src, dst, i) < |base|;
    ReducedStep(base, src, dst, c, i);
    if c[i] != 0 {
      var k := Conv(src, dst, i);
      var left := Reduced(base, src, dst, c, i);
      CountAtMostSum(left, k);
      if c[i] <= left[k] {
        SumUpdate(left, k, left[k] - c[i]);
      }
    }
  }

  /** Shorter prefixes of what fits fit as well, so a failing prefix rules out the whole. */
  lemma FitsPrefixes(base: seq<nat>, src: Layout, dst: Layout, c: seq<nat>)
    requires dst.Valid()
    ensures Fits(base, src, dst, c, |c|) ==> forall n :: 0 <= n <= |c| ==> Fits(base, src, dst, c, n)
  {
    hide Fits;
    if Fits(base, src, dst, c, |c|) {
      forall n | 0 <= n <= |c| ensures Fits(base, src, dst, c, n) {
        FitsFewer(base, src, dst, c, n, |c|);
      }
    }
  }

  /** What stays true of the minuend, whether all or only some of the subtrahend has been taken out. */
  lemma ReducedState(g: Layout, c: seq<nat>, total: nat, maxValue: U64, minNonZero: U64,
                     src: Layout, srcBuckets: nat, s: seq<nat>, cap: nat)
    requires g.Valid() && src.Valid()
    requires |c| > 0
    requires 1 <= srcBuckets <= MaxBuckets(src)
    requires |s| == src.NumBins(srcBuckets)
    requires AllAtMost(c, cap)
    requires NoneAfter(c, g.IndexFor(maxValue))
    requires Min(U64_MAX, Sum(c)) <= total
    ensures forall n :: 0 <= n <= |s| && Fits(c, src, g, s, n) ==>
      && AllAtMost(Reduced(c, src, g, s, n), cap)
      && NoneAfter(Reduced(c, src, g, s, n), g.IndexFor(maxValue))
    ensures
      && ExactStats(g, c, maxValue, minNonZero)
      && Fits(c, src, g, s, |s|)
      && !Touched(src, s, |s|, g.HighestEquivalent(ReportedMin(g, c, total, minNonZero)),
        g.LowestEquivalent(ReportedMax(g, maxValue)))
      ==> ExactStats(g, Reduced(c, src, g, s, |s|), maxValue, minNonZero)
  {
    hide Layout.IndexFor, Layout.ValueFor, Layout.NumBins, Layout.HighestEquivalent, Layout.LowestEquivalent;
    hide ReportedMax, ReportedMin, Image, ExactStats, ExactMinNonZero, Prefix;
    if ExactStats(g, c, maxValue, minNonZero) && Fits(c, src, g, s, |s|)
       && !Touched(src, s, |s|, g.HighestEquivalent(ReportedMin(g, c, total, minNonZero)),
         g.LowestEquivalent(ReportedMax(g, maxValue))) {
      StartsFit(src, srcBuckets);
      ExactStatsReduce(g, c, total, maxValue, minNonZero, src, s);
    }
  }

  lemma StartsFit(g: Layout, buckets: nat)
    requires g.Valid()
    requires 1 <= buckets <= MaxBuckets(g)
    ensures forall i :: 0 <= i < g.NumBins(buckets) ==> g.Start(i) <= U64_MAX
  {
    hide Layout.NumBins, Layout.Start, Layout.Width;
    BinsFitInWord(g, buckets);
    forall i | 0 <= i < g.NumBins(buckets) ensures g.Start(i) <= U64_MAX {
      StartMonotone(g, i, g.NumBins(buckets));
    }
  }

  lemma ExactBound(g: Layout, c: seq<nat>, maxValue: U64, minNonZero: U64)
    requires g.Valid()
    requires ExactStats(g, c, maxValue, minNonZero)
    ensures g.IndexFor(maxValue) < |c| && NoneAfter(c, g.IndexFor(maxValue))
  {
  }

  lemma BucketOfBounds(g: Layout, value: U64, b: nat)
    requires g.Valid()
    requires value < Pow2(g.BaseBits() + b)
    requires b > 0 ==> Pow2(g.BaseBits() + b - 1) <= value
    ensures g.BucketFor(value) == b
  {
    hide Layout.BucketFor, Pow2;
    var c := g.BucketFor(value);
    if b < c {
      Pow2Monotone(g.BaseBits() + b, g.BaseBits() + c - 1);
    } else if c < b {
      Pow2Monotone(g.BaseBits() + c, g.BaseBits() + b - 1);
    }
  }

  lemma EmptyStats(g: Layout, c: seq<nat>)
    requires g.Valid()
    requires |c| > 0
    requires forall i :: 0 <= i < |c| ==> c[i] == 0
    ensures g.IndexFor(0) == 0
    ensures ExactStats(g, c, 0, U64_MAX) && ExactMinNonZero(g, c, U64_MAX)
  {
    hide Layout.IndexFor, Layout.UnitMask, Pow2;
    FirstClass(g, 0);
    TopIndexPositive(g);
  }

  lemma TopIndexPositive(g: Layout)
    requires g.Valid()
    ensures g.IndexFor(U64_MAX) >= 1
  {
    hide Layout.IndexFor, Pow2;
    FirstClass(g, U64_MAX);
    Pow2Monotone(g.unit, 63);
    Pow2Values();
  }

  /** Growing the array changes neither its sum nor its extremes. */
  lemma PaddedState(g: Layout, c: seq<nat>, maxValue: U64, minNonZero: U64, n: nat, cap: nat)
    requires g.Valid()
    requires |c| <= n
    requires AllAtMost(c, cap)
    requires NoneAfter(c, g.IndexFor(maxValue))
    ensures AllAtMost(Resized(c, n), cap)
    ensures NoneAfter(Resized(c, n), g.IndexFor(maxValue))
    ensures Sum(Resized(c, n)) == Sum(c)
    ensures ExactStats(g, c, maxValue, minNonZero) ==> ExactStats(g, Resized(c, n), maxValue, minNonZero)
    ensures ExactMinNonZero(g, c, minNonZero) ==> ExactMinNonZero(g, Resized(c, n), minNonZero)
  {
    hide Layout.IndexFor;
    SumPadded(c, n - |c|);
    assert Resized(c, n) == c + Zeros(n - |c|);
    if ExactStats(g, c, maxValue, minNonZero) {
      ExactStatsPadded(g, c, n - |c|, maxValue, minNonZero);
    }
    if ExactMinNonZero(g, c, minNonZero) {
      ExactMinPadded(g, c, n - |c|, minNonZero);
    }
  }

  /** Recording a value that has a slot keeps what `Valid` says about counts, total and extremes. */
  lemma RecordedState(g: Layout, c: seq<nat>, maxValue: U64, minNonZero: U64, total: nat, cap: nat, value: U64, n: nat)
    requires g.Valid()
    requires g.IndexFor(maxValue) < |c|
    requires g.IndexFor(value) < |c|
    requires 1 <= cap
    requires AllAtMost(c, cap)
    requires NoneAfter(c, g.IndexFor(maxValue))
    requires Min(U64_MAX, Sum(c)) <= total
    ensures
      var c' := Bump(c, g.IndexFor(value), n, cap);
      var m := g.IndexFor(MaxWith(g, maxValue, value));
      && AllAtMost(c', cap)
      && m < |c|
      && NoneAfter(c', m)
      && Min(U64_MAX, Sum(c')) <= Min(U64_MAX, total + n)
      && (ExactStats(g, c, maxValue, minNonZero) && (n > 0 || value == 0) ==>
            ExactStats(g, c', MaxWith(g, maxValue, value), MinWith(g, minNonZero, value)))
      && (ExactMinNonZero(g, c, minNonZero) && (n > 0 || value == 0) ==>
            ExactMinNonZero(g, c', MinWith(g, minNonZero, value)))
  {
    hide Layout.IndexFor, ExactMinNonZero;
    var i := g.IndexFor(value);
    SumBump(c, i, n, cap);
    MaxWithIndex(g, maxValue, value);
    if ExactStats(g, c, maxValue, minNonZero) {
      if n > 0 {
        ExactStatsRecord(g, c, maxValue, minNonZero, value, n, cap);
      } else if value == 0 {
        assert Bump(c, i, n, cap) == c;
      }
    }
    if ExactMinNonZero(g, c, minNonZero) {
      if n > 0 {
        ExactMinRecord(g, c, minNonZero, value, n, cap);
      } else if value == 0 {
        assert Bump(c, i, n, cap) == c;
      }
    }
  }
}
