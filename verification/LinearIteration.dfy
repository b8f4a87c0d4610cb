/** Iteration in steps of a fixed number of value units. */
module LinearIteration {
  import opened Bits
  import opened Layouts
  import opened Counts
  import opened Iteration
  import opened Wrappers

  /** The value reported by stop number `k`, counting from 1: the last one of the first `k` steps. */
  function Level(m: nat, k: nat): (v: int)
    ensures v >= -1
    ensures k > 0 && m > 0 ==> v >= 0
  {
    if k == 0 then -1 else Level(m, k - 1) + m
  }

  lemma {:induction false} LevelIsProduct(m: nat, k: nat)
    ensures Level(m, k) == k * m - 1
  {
    if k > 0 {
      LevelIsProduct(m, k - 1);
      assert k * m == (k - 1) * m + m;
    }
  }

  lemma {:induction false} LevelMonotone(m: nat, j: nat, k: nat)
    requires j <= k
    ensures Level(m, j) <= Level(m, k)
    ensures m > 0 ==> Level(m, j) + (k - j) <= Level(m, k)
    decreases k
  {
    if j < k {
      LevelMonotone(m, j, k - 1);
    }
  }

  function LinearPicker(g: Layout, m: U64, k: nat): Picker
    requires g.Valid()
    requires 1 <= m && k > 0
    requires Level(m, k) <= U64_MAX
  {
    Linear(m, Level(m, k), g.LowestEquivalent(Level(m, k)))
  }

  /** The index of stop number `k`: that of its level, or the last one. */
  function StopIndex(x: Source, m: U64, k: nat): (i: nat)
    requires x.layout.Valid()
    requires |x.counts| > 0
    requires 1 <= m && k > 0
    requires Level(m, k) <= U64_MAX
    ensures i < |x.counts|
  {
    Min(x.layout.IndexFor(Level(m, k)), |x.counts| - 1)
  }

  /** Samples at or below the level of stop number `k`. */
  function Passed(x: Source, m: U64, k: nat): nat
    requires x.layout.Valid()
    requires |x.counts| > 0
    requires 1 <= m
    requires Level(m, k) <= U64_MAX
  {
    if k == 0 then 0 else Prefix(x.counts, StopIndex(x, m, k) + 1)
  }

  /** That is the count between zero and the level. */
  lemma PassedIsCountBetween(x: Source, m: U64, k: nat)
    requires x.Valid()
    requires 1 <= m && k > 0
    requires Level(m, k) <= U64_MAX
    ensures
      var last := |x.counts| - 1;
      Passed(x, m, k) == Span(x.counts, Min(x.layout.IndexFor(0), last), Min(x.layout.IndexFor(Level(m, k)), last))
  {
    hide Layout.IndexFor, Layout.NumBins, NoneAfter, Pow2, Level;
    FirstClass(x.layout, 0);
  }

  lemma StopsMonotone(x: Source, m: U64, k: nat)
    requires x.Valid()
    requires 1 <= m && k > 0
    requires Level(m, k + 1) <= U64_MAX
    ensures Level(m, k) <= Level(m, k + 1)
    ensures StopIndex(x, m, k) <= StopIndex(x, m, k + 1)
    ensures Passed(x, m, k) <= Passed(x, m, k + 1)
  {
    hide Layout.IndexFor, Layout.NumBins, NoneAfter, Prefix;
    LevelMonotone(m, k, k + 1);
    IndexMonotone(x.layout, Level(m, k), Level(m, k + 1));
    PrefixMonotone(x.counts, StopIndex(x, m, k) + 1, StopIndex(x, m, k + 1) + 1);
  }

  /** The picker stops from its stop index on. */
  lemma PicksFromStop(x: Source, m: U64, k: nat, i: nat)
    requires x.Valid()
    requires 1 <= m && k > 0
    requires Level(m, k) <= U64_MAX
    requires i < |x.counts|
    ensures
      (x.layout.ValueFor(i) >= x.layout.LowestEquivalent(Level(m, k)) || i == |x.counts| - 1)
      <==> StopIndex(x, m, k) <= i
  {
    hide Layout.IndexFor, Layout.ValueFor, Layout.LowestEquivalent, Layout.NumBins, Layout.Start, Layout.Width, Level;
    hide NoneAfter;
    var v := Level(m, k);
    IndexOfValueFor(x.layout, x.buckets, i);
    ValueOfIndexFor(x.layout, v);
    if x.layout.IndexFor(v) <= i {
      StartMonotone(x.layout, x.layout.IndexFor(v), i);
    } else {
      StartMonotone(x.layout, i, x.layout.IndexFor(v));
    }
  }

  lemma PickLinear(x: Source, m: U64, k: nat, i: nat, countAt: nat)
    requires x.Valid()
    requires 1 <= m && k > 0
    requires Level(m, k + 1) <= U64_MAX
    requires i < |x.counts|
    ensures Level(m, k) <= U64_MAX
    ensures Pick(x, LinearPicker(x.layout, m, k), i, countAt) ==
      if StopIndex(x, m, k) <= i then Yield(LinearPicker(x.layout, m, k + 1), Some(Level(m, k))) else Skip
  {
    hide Layout.IndexFor, Layout.ValueFor, Layout.LowestEquivalent, Layout.NumBins, StopIndex, NoneAfter;
    LevelMonotone(m, k, k + 1);
    PicksFromStop(x, m, k, i);
  }

  // ---- one call ----

  function LinearEmission(x: Source, m: U64, k: nat): Emission
    requires x.Valid()
    requires 1 <= m && k > 0
    requires Level(m, k) <= U64_MAX
  {
    LevelMonotone(m, k - 1, k);
    if k > 1 then
      StopsMonotone(x, m, k - 1);
      Emission(Level(m, k), x.counts[StopIndex(x, m, k)], Passed(x, m, k) - Passed(x, m, k - 1))
    else Emission(Level(m, k), x.counts[StopIndex(x, m, k)], Passed(x, m, k))
  }

  /** The state right after stop number `k`. */
  ghost predicate LinearStopped(x: Source, m: U64, s: State, k: nat)
    requires x.Valid()
    requires 1 <= m && k > 0
    requires Level(m, k + 1) <= U64_MAX
  {
    LevelMonotone(m, k, k + 1);
    && s.current == s.lastPicked == StopIndex(x, m, k)
    && s.since == 0 && s.total == Passed(x, m, k)
    && !s.isFresh && !s.ended
    && s.picker == LinearPicker(x.layout, m, k + 1)
  }

  /** On the way to stop number `k`; the counts before `current` have been passed. */
  ghost predicate LinearScanning(x: Source, m: U64, s: State, k: nat)
    requires x.Valid()
    requires 1 <= m && k > 0
    requires Level(m, k) <= U64_MAX
  {
    LevelMonotone(m, k - 1, k);
    && s.current <= StopIndex(x, m, k)
    && s.total == Prefix(x.counts, s.current)
    && s.since == s.total - Passed(x, m, k - 1)
    && s.isFresh && !s.ended
    && s.lastPicked < x.maxIndex
    && s.picker == LinearPicker(x.layout, m, k)
  }

  lemma {:induction false} ScanLinear(x: Source, m: U64, s: State, k: nat)
    requires x.Valid()
    requires Sum(x.counts) <= U64_MAX
    requires 1 <= m && k > 0
    requires Level(m, k + 1) <= U64_MAX
    requires Level(m, k) <= Level(m, k + 1)
    requires LinearScanning(x, m, s, k)
    ensures LinearStopped(x, m, Next(x, s).0, k)
    ensures Next(x, s).1 == Some(LinearEmission(x, m, k))
    decreases |x.counts| - s.current
  {
    hide Layout.IndexFor, Layout.ValueFor, Layout.LowestEquivalent, Layout.HighestEquivalent, Layout.NumBins;
    hide NoneAfter, StopIndex, Pick, LinearPicker, Level;
    var t := Counted(x, s);
    PrefixMonotone(x.counts, s.current + 1, |x.counts|);
    PickLinear(x, m, k, s.current, t.countAt);
    if s.current < StopIndex(x, m, k) {
      ScanLinear(x, m, t.(current := t.current + 1, isFresh := true), k);
    }
  }

  /** Stop number `k` is the last one: it reaches the end of the last class with samples. */
  predicate LastStop(x: Source, m: U64, k: nat)
    requires x.layout.Valid()
    requires |x.counts| > 0
    requires 1 <= m && k > 0
    requires Level(m, k) <= U64_MAX
  {
    var i := StopIndex(x, m, k);
    i >= x.maxIndex && x.layout.ValueFor(i + 1) <= Level(m, k + 1)
  }

  /** Past the last sample, the picker goes on only within the class it is in. */
  lemma MoreStays(x: Source, m: U64, k: nat)
    requires x.Valid()
    requires 1 <= m && k > 0
    requires Level(m, k) <= Level(m, k + 1) <= U64_MAX
    requires Level(m, k + 1) < x.layout.ValueFor(StopIndex(x, m, k) + 1)
    ensures StopIndex(x, m, k + 1) == StopIndex(x, m, k)
  {
    hide Layout.IndexFor, Layout.ValueFor, Layout.NumBins, Layout.Start, NoneAfter, Level;
    StopsMonotone(x, m, k);
    var i := StopIndex(x, m, k);
    if i + 1 < |x.counts| {
      IndexOfValueFor(x.layout, x.buckets, i + 1);
      IndexGalois(x.layout, i + 1, Level(m, k + 1));
    }
  }

  lemma StepLinear(x: Source, m: U64, s: State, k: nat)
    requires x.Valid()
    requires Sum(x.counts) <= U64_MAX
    requires 1 <= m && k > 0
    requires Level(m, k) <= Level(m, k + 1) <= Level(m, k + 2)
    requires Level(m, k + 1) <= U64_MAX
    requires LinearStopped(x, m, s, k)
    ensures LastStop(x, m, k) ==> Next(x, s).0.ended && Next(x, s).1 == None
    ensures !LastStop(x, m, k) && Level(m, k + 2) <= U64_MAX ==>
      && LinearStopped(x, m, Next(x, s).0, k + 1)
      && Next(x, s).1 == Some(LinearEmission(x, m, k + 1))
  {
    hide Layout.IndexFor, Layout.ValueFor, Layout.LowestEquivalent, Layout.HighestEquivalent, Layout.NumBins;
    hide NoneAfter, StopIndex, Pick, Level, Prefix;
    if !LastStop(x, m, k) && Level(m, k + 2) <= U64_MAX {
      StopsMonotone(x, m, k);
      PickLinear(x, m, k + 1, s.current, s.countAt);
      if s.lastPicked >= x.maxIndex {
        MoreStays(x, m, k);
      } else if s.current < StopIndex(x, m, k + 1) {
        ScanLinear(x, m, s.(current := s.current + 1, isFresh := true), k + 1);
      }
    }
  }

  // ---- a whole iteration ----

  /** None of the first `k` stops is the last one. */
  ghost predicate NotYetDone(x: Source, m: U64, k: nat)
    requires x.layout.Valid()
    requires |x.counts| > 0
    requires 1 <= m
    requires Level(m, k) <= U64_MAX
  {
    forall j :: 1 <= j < k ==> (LevelMonotone(m, j, k); !LastStop(x, m, j))
  }

  lemma {:induction false} LinearRun(x: Source, m: U64, k: nat)
    requires x.Valid()
    requires Sum(x.counts) <= U64_MAX
    requires x.maxIndex > 0
    requires 1 <= m && k > 0
    requires Level(m, k) <= Level(m, k + 1) <= U64_MAX
    requires 0 <= Level(m, 1) <= U64_MAX
    requires NotYetDone(x, m, k)
    ensures LinearStopped(x, m, After(x, LinearPicker(x.layout, m, 1), k), k)
    ensures Yielded(x, LinearPicker(x.layout, m, 1), k - 1) == Some(LinearEmission(x, m, k))
  {
    hide Layout.IndexFor, Layout.ValueFor, Layout.NumBins, NoneAfter, StopIndex, Next, LinearPicker, Level, LastStop;
    hide LinearStopped;
    var p := LinearPicker(x.layout, m, 1);
    if k == 1 {
      ScanLinear(x, m, Start(p), 1);
    } else {
      LevelMonotone(m, k - 1, k);
      LinearRun(x, m, k - 1);
      StepLinear(x, m, After(x, p, k - 1), k - 1);
    }
  }

  /** Samples reported by the first `k` results. */
  ghost function TotalSince(x: Source, p: Picker, k: nat): nat
    requires x.layout.Valid()
  {
    if k == 0 then 0
    else
      var r := Yielded(x, p, k - 1);
      TotalSince(x, p, k - 1) + (if r.Some? then r.value.countSince else 0)
  }

  lemma {:induction false} TotalIsPassed(x: Source, m: U64, k: nat)
    requires x.Valid()
    requires Sum(x.counts) <= U64_MAX
    requires x.maxIndex > 0
    requires 1 <= m && k > 0
    requires Level(m, k) <= Level(m, k + 1) <= U64_MAX
    requires 0 <= Level(m, 1) <= U64_MAX
    requires NotYetDone(x, m, k)
    ensures TotalSince(x, LinearPicker(x.layout, m, 1), k) == Passed(x, m, k)
  {
    hide Layout.IndexFor, Layout.ValueFor, Layout.NumBins, NoneAfter, Yielded, LinearPicker, Level, LastStop;
    hide LinearStopped, StopIndex;
    LinearRun(x, m, k);
    if k > 1 {
      LevelMonotone(m, k - 1, k);
      TotalIsPassed(x, m, k - 1);
    }
  }

  /** After its last stop the iterator has reported every sample and yields nothing any more. */
  lemma LinearEnds(x: Source, m: U64, k: nat, n: nat)
    requires x.Valid()
    requires Sum(x.counts) <= U64_MAX
    requires x.maxIndex > 0
    requires 1 <= m && k > 0
    requires Level(m, k) <= Level(m, k + 1) <= U64_MAX
    requires 0 <= Level(m, 1) <= U64_MAX
    requires NotYetDone(x, m, k) && LastStop(x, m, k)
    requires k <= n
    ensures TotalSince(x, LinearPicker(x.layout, m, 1), k) == Sum(x.counts)
    ensures Yielded(x, LinearPicker(x.layout, m, 1), n) == None
  {
    hide Layout.IndexFor, Layout.ValueFor, Layout.NumBins, Next, LinearPicker, Level, LinearStopped, StopIndex;
    hide NotYetDone;
    var p := LinearPicker(x.layout, m, 1);
    LinearRun(x, m, k);
    TotalIsPassed(x, m, k);
    PrefixZeros(x.counts, StopIndex(x, m, k) + 1, |x.counts|);
    LevelMonotone(m, k + 1, k + 2);
    StepLinear(x, m, After(x, p, k), k);
    if n > k {
      EndedForGood(x, p, k + 1, n);
    }
  }

  // ---- when it ends ----

  /** The first stop whose level reaches a value. */
  function StopReaching(m: nat, v: nat): (k: nat)
    requires m >= 1
    ensures k >= 1
  {
    v / m + 1
  }

  lemma LevelReaches(m: nat, v: nat, k: nat)
    requires m >= 1
    ensures v <= Level(m, k) <==> StopReaching(m, v) <= k
  {
    hide Level;
    LevelIsProduct(m, k);
    QuotientBelow(v, m, k);
  }

  lemma QuotientBelow(v: nat, m: nat, k: nat)
    requires m >= 1
    ensures v < k * m <==> v / m < k
  {
    var q := v / m;
    if q < k {
      assert (q + 1) * m <= k * m;
    } else {
      assert k * m <= q * m;
    }
  }

  /** The first stop at or past the last sample. */
  function FirstPast(x: Source, m: U64): (k: nat)
    requires m >= 1
    ensures k >= 1
  {
    StopReaching(m, x.layout.ValueFor(x.maxIndex))
  }

  /** Where the class of that stop ends; past the last word this wraps to zero. */
  function EndOfStop(x: Source, m: U64): U64
    requires x.layout.Valid()
    requires |x.counts| > 0
    requires m >= 1
    requires Level(m, FirstPast(x, m)) <= U64_MAX
  {
    x.layout.ValueFor(StopIndex(x, m, FirstPast(x, m)) + 1)
  }

  /**
    The levels that the program computes are words: those of the first stop at or past the last
    sample and of the stop after it, and the first one to leave the class of that stop.
   */
  predicate LevelsFit(x: Source, m: U64)
    requires x.layout.Valid()
    requires |x.counts| > 0
    requires m >= 1
  {
    && Level(m, FirstPast(x, m) + 1) <= U64_MAX
    && Level(m, StopReaching(m, EndOfStop(x, m))) <= U64_MAX
  }

  /** The number of stops. */
  function LastStopNumber(x: Source, m: U64): (k: nat)
    requires x.layout.Valid()
    requires |x.counts| > 0
    requires m >= 1
    requires Level(m, FirstPast(x, m)) <= U64_MAX
    ensures k >= FirstPast(x, m)
  {
    Max(FirstPast(x, m), StopReaching(m, EndOfStop(x, m)) - 1)
  }

  /** Stop number `last` is the first that can be the last one, and all levels computed up to it are words. */
  ghost predicate EndsWith(x: Source, m: U64, last: nat)
    requires x.Valid()
  {
    && 1 <= m && 1 <= last
    && Level(m, last) <= Level(m, last + 1) <= U64_MAX
    && 0 <= Level(m, 1) <= U64_MAX
    && NotYetDone(x, m, last)
    && LastStop(x, m, last)
  }

  /** A stop is at or past the last sample exactly from `FirstPast` on. */
  lemma PastFrom(x: Source, m: U64, k: nat)
    requires x.Valid()
    requires m >= 1 && k >= 1
    requires Level(m, k) <= U64_MAX
    ensures StopIndex(x, m, k) >= x.maxIndex <==> FirstPast(x, m) <= k
  {
    hide Layout.IndexFor, Layout.ValueFor, Layout.NumBins, Layout.Start, Level, StopReaching, NoneAfter;
    IndexOfValueFor(x.layout, x.buckets, x.maxIndex);
    IndexGalois(x.layout, x.maxIndex, Level(m, k));
    LevelReaches(m, x.layout.ValueFor(x.maxIndex), k);
  }

  /** Until the levels leave its class, the stops stay at the first index at or past the last sample. */
  lemma {:induction false} StaysUntilEnd(x: Source, m: U64, k: nat)
    requires x.Valid()
    requires m >= 1
    requires FirstPast(x, m) <= k
    requires Level(m, FirstPast(x, m)) <= Level(m, k) <= U64_MAX
    requires k == FirstPast(x, m) || Level(m, k) < EndOfStop(x, m)
    ensures StopIndex(x, m, k) == StopIndex(x, m, FirstPast(x, m))
  {
    hide Layout.IndexFor, Layout.ValueFor, Layout.NumBins, Level, FirstPast, NoneAfter;
    if k > FirstPast(x, m) {
      LevelMonotone(m, FirstPast(x, m), k - 1);
      LevelMonotone(m, k - 1, k);
      StaysUntilEnd(x, m, k - 1);
      MoreStays(x, m, k - 1);
    }
  }

  /** A stop on the way is the last one exactly if it is the one numbered by the closed form. */
  lemma LastStopIs(x: Source, m: U64, k: nat)
    requires x.Valid()
    requires m >= 1 && k >= 1
    requires 0 <= Level(m, k) <= U64_MAX
    requires Level(m, FirstPast(x, m)) <= U64_MAX
    requires k <= LastStopNumber(x, m)
    ensures LastStop(x, m, k) <==> k == LastStopNumber(x, m)
  {
    hide Layout.IndexFor, Layout.ValueFor, Layout.NumBins, Level, FirstPast, StopReaching, StopIndex, NoneAfter;
    PastFrom(x, m, k);
    if FirstPast(x, m) <= k {
      var end := EndOfStop(x, m);
      LevelReaches(m, end, k);
      LevelReaches(m, end, k + 1);
      LevelMonotone(m, FirstPast(x, m), k);
      StaysUntilEnd(x, m, k);
    }
  }

  /** While no stop has been the last one, the closed form has not been reached. */
  lemma {:induction false} NotYetPassed(x: Source, m: U64, k: nat)
    requires x.Valid()
    requires m >= 1 && k >= 1
    requires 0 <= Level(m, 1) <= U64_MAX
    requires Level(m, k) <= U64_MAX
    requires Level(m, FirstPast(x, m)) <= U64_MAX
    ensures NotYetDone(x, m, k) <==> k <= LastStopNumber(x, m)
  {
    hide Layout.IndexFor, Layout.ValueFor, Layout.NumBins, Level, FirstPast, LastStop, NoneAfter, LastStopNumber;
    var last := LastStopNumber(x, m);
    if k <= last {
      forall j | 1 <= j < k ensures Level(m, j) <= U64_MAX && !LastStop(x, m, j) {
        LevelMonotone(m, 1, j);
        LevelMonotone(m, j, k);
        LastStopIs(x, m, j);
      }
    } else {
      LevelMonotone(m, 1, last);
      LevelMonotone(m, last, k);
      LastStopIs(x, m, last);
    }
  }

  /**
    The iteration ends without a level overflowing if and only if the levels fit, and then its
    last stop is the one numbered by the closed form.
   */
  lemma LinearEndsIff(x: Source, m: U64, last: nat)
    requires x.Valid()
    requires m >= 1
    ensures EndsWith(x, m, last) <==> LevelsFit(x, m) && last == LastStopNumber(x, m)
  {
    hide Layout.IndexFor, Layout.ValueFor, Layout.NumBins, FirstPast, EndOfStop, StopReaching, NoneAfter;
    hide NotYetDone, LastStop;
    var first := FirstPast(x, m);
    LevelMonotone(m, 0, 1);
    if EndsWith(x, m, last) {
      PastFrom(x, m, last);
      LastStopPast(x, m, last);
      LevelMonotone(m, first, last);
      NotYetPassed(x, m, last);
      LastStopIs(x, m, last);
      LevelMonotone(m, StopReaching(m, EndOfStop(x, m)), last + 1);
    }
    if LevelsFit(x, m) && last == LastStopNumber(x, m) {
      LevelMonotone(m, first, last);
      LevelMonotone(m, 1, last);
      NotYetPassed(x, m, last);
      LastStopIs(x, m, last);
    }
    LevelMonotone(m, first + 1, Max(first, last) + 1);
  }

  lemma LastStopPast(x: Source, m: U64, k: nat)
    requires x.Valid()
    requires m >= 1 && k >= 1
    requires Level(m, k) <= U64_MAX
    requires LastStop(x, m, k)
    ensures StopIndex(x, m, k) >= x.maxIndex
  {
    hide StopIndex, Layout.ValueFor, Layout.NumBins, Level;
  }

  /** If the levels do not fit, none of the stops before the first overflow is the last one. */
  lemma LinearOverflows(x: Source, m: U64) returns (k: nat)
    requires x.Valid()
    requires m >= 1
    requires !LevelsFit(x, m)
    ensures k >= 1
    ensures Level(m, k) <= U64_MAX < Level(m, k + 1)
    ensures NotYetDone(x, m, k)
    ensures k > 1 && x.maxIndex > 0 && Sum(x.counts) <= U64_MAX ==>
      && 0 <= Level(m, 1) <= U64_MAX && Level(m, k - 1) <= Level(m, k)
      && LinearStopped(x, m, After(x, LinearPicker(x.layout, m, 1), k - 1), k - 1)
      && !LastStop(x, m, k - 1)
  {
    hide Layout.IndexFor, Layout.ValueFor, Layout.NumBins, LevelsFit, LastStop, NoneAfter, StopReaching;
    hide LinearStopped, LinearPicker, Prefix;
    k := StopReaching(m, U64_MAX + 1) - 1;
    LevelReaches(m, U64_MAX + 1, 1);
    LevelReaches(m, U64_MAX + 1, k);
    LevelReaches(m, U64_MAX + 1, k + 1);
    NeverDone(x, m, k);
    if k > 1 && x.maxIndex > 0 && Sum(x.counts) <= U64_MAX {
      LevelMonotone(m, 1, k - 1);
      LevelMonotone(m, k - 1, k);
      NeverDone(x, m, k - 1);
      LinearRun(x, m, k - 1);
    }
  }

  lemma {:induction false} NeverDone(x: Source, m: U64, k: nat)
    requires x.Valid()
    requires m >= 1 && k >= 1
    requires !LevelsFit(x, m)
    requires Level(m, k) <= U64_MAX
    ensures NotYetDone(x, m, k)
  {
    hide Layout.IndexFor, Layout.ValueFor, Layout.NumBins, LevelsFit, LastStop, NoneAfter, LastStopNumber;
    if k > 1 {
      NeverDone(x, m, k - 1);
      LevelMonotone(m, 1, k - 1);
      LevelMonotone(m, k - 1, k);
      LinearEndsIff(x, m, k - 1);
    }
  }

  // ---- when the maximum is at index 0 ----

  /** The state after stop number `k` when nothing is counted. */
  function ZeroState(x: Source, m: U64, k: nat): State
    requires x.layout.Valid()
    requires 1 <= m
    requires Level(m, k + 1) <= U64_MAX
  {
    State(0, 0, 0, 0, 0, true, false, LinearPicker(x.layout, m, k + 1))
  }

  lemma FirstValues(x: Source)
    requires x.Valid()
    ensures |x.counts| >= 2
    ensures x.layout.ValueFor(0) == 0
    ensures x.layout.ValueFor(1) == x.layout.Start(1) <= 0x4000_0000_0000_0000
  {
    hide Layout.IndexFor, Layout.ValueFor, Layout.NumBins, Layout.Start, Layout.Width, Pow2, NoneAfter;
    FirstClass(x.layout, 0);
    TwoBins(x.layout, x.buckets);
    IndexOfValueFor(x.layout, x.buckets, 0);
    IndexOfValueFor(x.layout, x.buckets, 1);
    StartOfNext(x.layout, 0);
    UnitAtMost(x.layout.unit);
  }

  lemma UnitAtMost(unit: nat)
    requires unit <= 62
    ensures Pow2(unit) <= 0x4000_0000_0000_0000
  {
    hide Pow2;
    Pow2Monotone(unit, 62);
    Pow2Step(62);
    Pow2Values();
  }

  /** A level within the class of zero has zero as its lowest equivalent value. */
  lemma LowestIsZero(g: Layout, v: U64)
    requires g.Valid()
    requires v < g.Start(1)
    ensures g.LowestEquivalent(v) == 0
  {
    hide Layout.IndexFor, Layout.ValueFor, Layout.Start, Layout.Width, Layout.LowestEquivalent, Pow2;
    FirstClass(g, 0);
    ValueOfIndexFor(g, v);
    IndexGalois(g, 1, v);
  }

  lemma TwoBins(g: Layout, buckets: nat)
    requires buckets >= 1
    ensures g.NumBins(buckets) >= 2
  {
  }

  /** The levels within the class of zero never overflow. */
  lemma ZeroLevelsFit(x: Source, m: U64)
    requires x.Valid()
    requires m >= 1
    ensures Level(m, StopReaching(m, x.layout.ValueFor(1))) <= U64_MAX
  {
    hide Layout.IndexFor, Layout.ValueFor, Layout.NumBins, Level, NoneAfter, Layout.Start, StopReaching;
    FirstValues(x);
    var v := x.layout.ValueFor(1);
    var k := StopReaching(m, v);
    LevelReaches(m, v, k - 1);
    if k == 1 {
      LevelIsProduct(m, 1);
    } else {
      LevelMonotone(m, 1, k - 1);
      LevelIsProduct(m, 1);
      LevelStep(m, k - 1);
    }
  }

  lemma LevelStep(m: nat, k: nat)
    ensures Level(m, k + 1) == Level(m, k) + m
    ensures Level(m, 0) == -1
  {
  }

  /** One call from such a state: a stop within the class of zero, or the end. */
  lemma ZeroStep(x: Source, m: U64, k: nat)
    requires x.Valid()
    requires x.maxIndex == 0
    requires 1 <= m
    requires 0 <= Level(m, k + 1) <= U64_MAX
    ensures x.layout.ValueFor(1) <= Level(m, k + 1) ==>
      Next(x, ZeroState(x, m, k)).0.ended && Next(x, ZeroState(x, m, k)).1 == None
    ensures Level(m, k + 1) < x.layout.ValueFor(1) && Level(m, k + 2) <= U64_MAX ==>
      Next(x, ZeroState(x, m, k)) == (ZeroState(x, m, k + 1), Some(Emission(Level(m, k + 1), x.counts[0], 0)))
  {
    hide Layout.IndexFor, Layout.ValueFor, Layout.NumBins, Level, NoneAfter, Layout.LowestEquivalent, Layout.Start;
    FirstValues(x);
    LevelStep(m, k + 1);
    if Level(m, k + 1) < x.layout.Start(1) {
      LowestIsZero(x.layout, Level(m, k + 1));
    }
  }

  /** All calls when the maximum is at index 0: the levels within the class of zero, and nothing counted. */
  lemma {:induction false} LinearAtZero(x: Source, m: U64, k: nat)
    requires x.Valid()
    requires x.maxIndex == 0
    requires 1 <= m
    requires 0 <= Level(m, 1) <= U64_MAX
    ensures var stops := StopReaching(m, x.layout.ValueFor(1)) - 1;
      && (k <= stops ==> Level(m, k + 1) <= U64_MAX && After(x, LinearPicker(x.layout, m, 1), k) == ZeroState(x, m, k))
      && (k > stops ==> After(x, LinearPicker(x.layout, m, 1), k).ended)
      && (k < stops ==> Yielded(x, LinearPicker(x.layout, m, 1), k) == Some(Emission(Level(m, k + 1), x.counts[0], 0)))
      && (k >= stops ==> Yielded(x, LinearPicker(x.layout, m, 1), k) == None)
  {
    hide Layout.IndexFor, Layout.ValueFor, Layout.NumBins, Level, NoneAfter, Next, StopReaching, LinearPicker;
    var v := x.layout.ValueFor(1);
    var stops := StopReaching(m, v) - 1;
    ZeroLevelsFit(x, m);
    if k <= stops {
      LevelMonotone(m, 1, k + 1);
      LevelMonotone(m, k + 1, stops + 1);
      LevelReaches(m, v, k + 1);
      if k < stops {
        LevelMonotone(m, k + 2, stops + 1);
      }
      ZeroStep(x, m, k);
    }
    if k > 0 {
      LinearAtZero(x, m, k - 1);
      if k <= stops {
        LevelReaches(m, v, k);
        LevelMonotone(m, 1, k);
        ZeroStep(x, m, k - 1);
      } else if k == stops + 1 {
        LevelReaches(m, v, k);
        LevelMonotone(m, 1, k);
        ZeroStep(x, m, stops);
      } else {
        EndedStays(x, LinearPicker(x.layout, m, 1), k);
      }
      if k > stops {
        EndedStays(x, LinearPicker(x.layout, m, 1), k + 1);
      }
    }
  }

  lemma EndedStays(x: Source, p: Picker, k: nat)
    requires x.layout.Valid()
    requires k > 0
    requires After(x, p, k - 1).ended
    ensures After(x, p, k).ended && Yielded(x, p, k - 1) == None
  {
  }

  // ---- all calls, for every histogram ----

  lemma {:induction false} NothingReported(x: Source, p: Picker, k: nat)
    requires x.layout.Valid()
    requires x.maxIndex == 0
    ensures TotalSince(x, p, k) == 0
  {
    hide Yielded, After;
    if k > 0 {
      NothingReported(x, p, k - 1);
      NothingCounted(x, p, k - 1);
    }
  }

  /**
    Stop number `k` reports the value k·step−1, and the counts reported up to it add up to the
    number of samples between zero and that value; or to nothing, if the maximum is at index 0.
   */
  lemma LinearStopMeaning(x: Source, m: U64, k: nat)
    requires x.Valid()
    requires Sum(x.counts) <= U64_MAX
    requires 1 <= m && k > 0
    requires Level(m, k) <= Level(m, k + 1) <= U64_MAX
    requires 0 <= Level(m, 1) <= U64_MAX
    requires if x.maxIndex > 0 then NotYetDone(x, m, k) else Level(m, k) < x.layout.ValueFor(1)
    ensures
      var p, last := LinearPicker(x.layout, m, 1), |x.counts| - 1;
      && Yielded(x, p, k - 1).Some?
      && Yielded(x, p, k - 1).value.value == k * m - 1
      && TotalSince(x, p, k) ==
         if x.maxIndex == 0 then 0
         else Span(x.counts, Min(x.layout.IndexFor(0), last), Min(x.layout.IndexFor(k * m - 1), last))
  {
    hide Layout.IndexFor, Layout.ValueFor, Layout.NumBins, NoneAfter, Yielded, LinearPicker, Level, LastStop;
    hide LinearStopped, Span, TotalSince, NotYetDone, Prefix;
    LevelIsProduct(m, k);
    if x.maxIndex > 0 {
      PassedIsCountBetween(x, m, k);
      LinearRun(x, m, k);
      TotalIsPassed(x, m, k);
    } else {
      LevelReaches(m, x.layout.ValueFor(1), k);
      LinearAtZero(x, m, k - 1);
      NothingReported(x, LinearPicker(x.layout, m, 1), k);
    }
  }

  /** Samples from zero up to a value, which counts as the last one of its class; none below zero. */
  function UpTo(x: Source, v: int): nat
    requires x.layout.Valid()
    requires |x.counts| > 0
    requires v <= U64_MAX
  {
    if v < 0 then 0 else Prefix(x.counts, Min(x.layout.IndexFor(v), |x.counts| - 1) + 1)
  }

  /**
    What is reported for stop number `k`: the last value of its step, the count of that value's
    class, and the samples since the step before, none if the maximum is at index 0.
   */
  ghost predicate Reports(x: Source, m: U64, k: nat, e: Emission)
    requires x.layout.Valid()
    requires |x.counts| > 0
  {
    && 0 <= k * m - 1 <= U64_MAX && -1 <= (k - 1) * m - 1 <= U64_MAX
    && e.value == k * m - 1
    && e.countAtValue == x.counts[Min(x.layout.IndexFor(k * m - 1), |x.counts| - 1)]
    && e.countSince == if x.maxIndex > 0 then UpTo(x, k * m - 1) - UpTo(x, (k - 1) * m - 1) else 0
  }

  lemma EmissionMeaning(x: Source, m: U64, k: nat)
    requires x.Valid()
    requires 1 <= m && k > 0
    requires Level(m, k) <= U64_MAX
    requires x.maxIndex > 0
    ensures Reports(x, m, k, LinearEmission(x, m, k))
  {
    hide Layout.IndexFor, Layout.NumBins, Level, Prefix, NoneAfter;
    LevelIsProduct(m, k);
    LevelIsProduct(m, k - 1);
    LevelMonotone(m, k - 1, k);
    LevelMonotone(m, 0, k - 1);
    if k > 1 {
      LevelMonotone(m, 1, k - 1);
    }
  }

  /** The number of stops of a whole iteration. */
  function Stops(x: Source, m: U64): nat
    requires x.layout.Valid()
    requires |x.counts| > 0
    requires m >= 1
    requires x.maxIndex > 0 ==> LevelsFit(x, m)
  {
    LevelStep(m, FirstPast(x, m));
    if x.maxIndex > 0 then LastStopNumber(x, m) else StopReaching(m, x.layout.ValueFor(1)) - 1
  }

  /**
    A whole iteration: as many stops as the closed form says, with their values, and then nothing
    for good. It has reported all samples unless the maximum is at index 0, and none if it is.
   */
  lemma LinearCalls(x: Source, m: U64, k: nat)
    requires x.Valid()
    requires Sum(x.counts) <= U64_MAX
    requires |x.counts| > 0 && m >= 1
    requires x.maxIndex > 0 ==> LevelsFit(x, m)
    requires 0 <= Level(m, 1) <= U64_MAX
    ensures
      var p := LinearPicker(x.layout, m, 1);
      && (k < Stops(x, m) ==> Yielded(x, p, k).Some? && Reports(x, m, k + 1, Yielded(x, p, k).value))
      && (k >= Stops(x, m) ==> Yielded(x, p, k) == None)
      && TotalSince(x, p, Stops(x, m)) == if x.maxIndex > 0 then Sum(x.counts) else 0
  {
    hide Layout.IndexFor, Layout.ValueFor, Layout.NumBins, NoneAfter, Yielded, LinearPicker, Level, LastStop, Prefix;
    hide LinearStopped, NotYetDone, LevelsFit, LastStopNumber, StopReaching, TotalSince, After;
    LevelIsProduct(m, k + 1);
    if x.maxIndex > 0 {
      var last := Stops(x, m);
      LinearEndsIff(x, m, last);
      LinearEnds(x, m, last, Max(last, k));
      if k < last {
        LevelMonotone(m, k + 1, last);
        LevelMonotone(m, k + 1, k + 2);
        LevelMonotone(m, k + 2, last + 1);
        FewerStops(x, m, k + 1, last);
        LinearRun(x, m, k + 1);
        EmissionMeaning(x, m, k + 1);
      }
    } else {
      LinearAtZero(x, m, k);
      ZeroLevels(x, m, k);
      NothingReported(x, LinearPicker(x.layout, m, 1), Stops(x, m));
    }
  }

  /** The levels reported when the maximum is at index 0 are those within the class of zero. */
  lemma ZeroLevels(x: Source, m: U64, k: nat)
    requires x.Valid()
    requires m >= 1
    requires x.maxIndex == 0
    ensures k < StopReaching(m, x.layout.ValueFor(1)) - 1 ==>
      Level(m, k + 1) <= U64_MAX && Reports(x, m, k + 1, Emission(Level(m, k + 1), x.counts[0], 0))
  {
    hide Layout.IndexFor, Layout.ValueFor, Layout.NumBins, Level, NoneAfter, StopReaching, Layout.Start;
    FirstValues(x);
    LevelReaches(m, x.layout.ValueFor(1), k + 1);
    LevelIsProduct(m, k + 1);
    LevelIsProduct(m, k);
    LevelStep(m, k);
    LevelMonotone(m, 0, k);
    LevelMonotone(m, k, k + 1);
    if k < StopReaching(m, x.layout.ValueFor(1)) - 1 {
      LevelMonotone(m, 0, k + 1);
      IndexGalois(x.layout, 1, (k + 1) * m - 1);
    }
  }

  lemma FewerStops(x: Source, m: U64, j: nat, k: nat)
    requires x.layout.Valid()
    requires |x.counts| > 0
    requires 1 <= m
    requires j <= k
    requires Level(m, j) <= Level(m, k) <= U64_MAX
    requires NotYetDone(x, m, k)
    ensures NotYetDone(x, m, j)
  {
    hide LastStop, Level;
  }

  /** All samples are reported if and only if there are some past index 0, or none at index 0. */
  lemma LinearReportsAll(x: Source, m: U64)
    requires x.Valid()
    requires Sum(x.counts) <= U64_MAX
    requires |x.counts| > 0 && m >= 1
    requires x.maxIndex > 0 ==> LevelsFit(x, m)
    requires 0 <= Level(m, 1) <= U64_MAX
    ensures
      TotalSince(x, LinearPicker(x.layout, m, 1), Stops(x, m)) == Sum(x.counts)
      <==> x.maxIndex > 0 || x.counts[0] == 0
  {
    hide Layout.IndexFor, Layout.ValueFor, Layout.NumBins, Yielded, LinearPicker, Level, TotalSince, Stops;
    LinearCalls(x, m, 0);
    CountAtMostSum(x.counts, 0);
    if x.maxIndex == 0 && x.counts[0] == 0 {
      PrefixZeros(x.counts, 0, |x.counts|);
    }
  }
}
