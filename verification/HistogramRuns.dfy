/** Arbitrary sequences of operations on one histogram. */
module HistogramRuns {
  import opened Bits
  import opened Layouts
  import opened Counts
  import opened Omission
  import opened Histograms

  datatype Step =
    | Record(value: U64, n: nat)
    | SaturatingRecord(value: U64, n: nat)
    | RecordCorrect(value: U64, n: nat, interval: U64)
    | Add(s: Histogram)
    | Subtract(s: Histogram)
    | Clear
    | Reset
    | Auto(enabled: bool)

  /** What the types of the program demand: counts fit the counter type, and operands share it. */
  ghost predicate Callable(h: Histogram, step: Step)
    reads if step.Add? || step.Subtract? then {step.s} else {}
  {
    match step
    case Record(_, n) => n <= h.counterMax
    case SaturatingRecord(_, n) => n <= h.counterMax
    case RecordCorrect(_, n, _) => n <= h.counterMax
    case Add(s) => s != h && s.Valid() && s.counterMax == h.counterMax
    case Subtract(s) => s != h && s.Valid() && s.counterMax == h.counterMax
    case Clear => true
    case Reset => true
    case Auto(_) => true
  }

  /** Steps that keep the statistics exact, unless they are a subtraction that stops midway. */
  ghost predicate Tracked(step: Step)
    reads if step.Add? then {step.s} else {}
  {
    match step
    case Record(value, n) => n > 0 || value == 0
    case SaturatingRecord(_, n) => n > 0
    case RecordCorrect(_, n, _) => n > 0
    case Add(s) => s.Exact()
    case Subtract(_) => true
    case Clear => false
    case Reset => true
    case Auto(_) => true
  }

  /** Steps after which the smallest value past index 0 is still known. */
  ghost predicate MinTracked(step: Step)
    reads if step.Add? then {step.s} else {}
  {
    Tracked(step) && !step.Subtract? && (step.Add? ==> step.s.MinKnown())
  }

  method PerformRecord(h: Histogram, step: Step)
    requires h.Valid() && Callable(h, step)
    requires step.Record? || step.SaturatingRecord? || step.RecordCorrect?
    modifies h
    ensures h.Valid()
    ensures old(h.Exact()) && Tracked(step) ==> h.Exact()
    ensures old(h.MinKnown()) && Tracked(step) ==> h.MinKnown()
  {
    hide Histogram.Valid, Histogram.Exact, Histogram.MinKnown, Histogram.HasSlot, Histogram.MaxIndex;
    hide Histogram.Effective;
    hide Layout.IndexFor, Layout.BucketFor, Layout.NumBins;
    hide Bump, Resized, CorrectedValues, AllHaveSlots, BumpAll, Groups, Sum;
    match step
    case Record(value, n) =>
      var r := h.RecordN(value, n);
    case SaturatingRecord(value, n) =>
      h.SaturatingRecordN(value, n);
    case RecordCorrect(value, n, interval) =>
      var r := h.RecordNCorrect(value, n, interval);
  }

  method PerformSubtract(h: Histogram, s: Histogram) returns (torn: bool)
    requires h.Valid() && s.Valid() && s != h
    modifies h
    ensures h.Valid()
    ensures old(h.Exact()) && !torn ==> h.Exact()
  {
    hide Histogram.Valid, Histogram.Exact, Histogram.MinKnown, Histogram.NeedsRestat, Histogram.MaxRecorded;
    hide Layout.HighestEquivalent;
    hide Fits, Reduced, Sum, Ranges.Top;
    var r, taken := h.Subtract(s);
    torn := r.Fail? && r.error.SubtrahendCountExceedsMinuendCount?;
  }

  method PerformAdd(h: Histogram, s: Histogram)
    requires h.Valid() && s.Valid() && s != h
    requires s.counterMax == h.counterMax
    modifies h
    ensures h.Valid()
    ensures old(h.Exact()) && s.Exact() ==> h.Exact()
    ensures old(h.MinKnown()) && s.MinKnown() && s.Exact() ==> h.MinKnown()
  {
    hide Histogram.Valid, Histogram.Exact, Histogram.MinKnown, Histogram.MaxRecorded, Histogram.MaxIndex;
    hide Histogram.HasSlot, Merged;
    hide Resized, Conv, Sum, Ranges.Top;
    var r := h.Add(s);
  }

  /** One operation; `torn` tells of a subtraction that took out some counts and then failed. */
  method Perform(h: Histogram, step: Step) returns (torn: bool)
    requires h.Valid() && Callable(h, step)
    modifies h
    ensures h.Valid()
    ensures old(h.Exact()) && old(Tracked(step)) && !torn ==> h.Exact()
    ensures old(h.MinKnown()) && old(MinTracked(step)) ==> h.MinKnown()
    ensures torn ==> step.Subtract?
  {
    hide Histogram.Valid, Histogram.Exact, Histogram.MinKnown;
    torn := false;
    match step
    case Add(s) =>
      PerformAdd(h, s);
    case Subtract(s) =>
      torn := PerformSubtract(h, s);
    case Clear =>
      h.Clear();
    case Reset =>
      h.Reset();
    case Auto(enabled) =>
      h.Auto(enabled);
    case _ =>
      PerformRecord(h, step);
  }

  /**
    Every state that a histogram can reach is valid, whether operations succeed or fail. The
    reported extremes are those of the counts as long as no step gave that up.
   */
  method RunAll(h: Histogram, steps: seq<Step>) returns (torn: bool)
    requires h.Valid()
    requires forall k :: 0 <= k < |steps| ==> Callable(h, steps[k])
    modifies h
    ensures h.Valid()
    ensures old(h.Exact()) && (forall k :: 0 <= k < |steps| ==> old(Tracked(steps[k]))) && !torn ==> h.Exact()
    ensures old(h.MinKnown()) && (forall k :: 0 <= k < |steps| ==> old(MinTracked(steps[k]))) ==> h.MinKnown()
  {
    hide Histogram.Valid, Histogram.Exact, Histogram.MinKnown;
    torn := false;
    for k := 0 to |steps|
      invariant h.Valid()
      invariant forall j :: 0 <= j < |steps| ==> Callable(h, steps[j])
      invariant forall j :: 0 <= j < |steps| ==> (old(Tracked(steps[j])) <==> Tracked(steps[j]))
      invariant forall j :: 0 <= j < |steps| ==> (old(MinTracked(steps[j])) <==> MinTracked(steps[j]))
      invariant old(h.MinKnown()) && (forall j :: 0 <= j < k ==> old(MinTracked(steps[j]))) ==> h.MinKnown()
      invariant old(h.Exact()) && (forall j :: 0 <= j < k ==> old(Tracked(steps[j]))) && !torn ==> h.Exact()
    {
      var t := Perform(h, steps[k]);
      torn := torn || t;
    }
  }
}
