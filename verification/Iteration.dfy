/**
  The shared iteration engine as functions on values: a cursor moves over the counts, a picker
  decides where to stop, and the counts passed since the last stop are reported with each stop.
 */
module Iteration {
  import opened Bits
  import opened Layouts
  import opened Counts
  import opened Wrappers

  /** The histogram under iteration, which does not change meanwhile. */
  datatype Source = Source(layout: Layout, buckets: nat, counts: seq<nat>, maxIndex: nat) {
    ghost predicate Valid() {
      && layout.Valid()
      && 1 <= buckets <= MaxBuckets(layout)
      && |counts| == layout.NumBins(buckets)
      && maxIndex < |counts|
      && NoneAfter(counts, maxIndex)
    }
  }

  datatype Picker =
    | Recorded(visited: Option<nat>)
    | Linear(step: U64, highest: U64, lowest: U64)

  /** What is yielded; quantiles are left out. */
  datatype Emission = Emission(value: U64, countAtValue: nat, countSince: nat)

  datatype State = State(
    total: nat,
    since: nat,
    countAt: nat,
    current: nat,
    lastPicked: nat,
    isFresh: bool,
    ended: bool,
    picker: Picker)

  /** A picker's answer: its next state, and whether to yield, with a value to report if it has one. */
  datatype Picked = Skip | Yield(next: Picker, value: Option<U64>)

  function Pick(x: Source, p: Picker, index: nat, countAt: nat): Picked
    requires x.layout.Valid()
    requires |x.counts| > 0
  {
    match p
    case Recorded(visited) =>
      if countAt != 0 && visited != Some(index) then Yield(Recorded(Some(index)), None) else Skip
    case Linear(step, highest, lowest) =>
      if x.layout.ValueFor(index) >= lowest || index == |x.counts| - 1 then
        var highest' := (highest + step) % 0x1_0000_0000_0000_0000;
        Yield(Linear(step, highest', x.layout.LowestEquivalent(highest')), Some(highest))
      else Skip
  }

  /** Whether to go on once the last non-zero count has been picked. */
  predicate More(x: Source, p: Picker, index: nat) {
    match p
    case Recorded(_) => false
    case Linear(_, highest, _) => highest < x.layout.ValueFor(index + 1)
  }

  function Counted(x: Source, s: State): State
    requires s.current < |x.counts|
  {
    if s.isFresh then
      var n := x.counts[s.current];
      s.(countAt := n, total := Min(U64_MAX, s.total + n), since := Min(U64_MAX, s.since + n), isFresh := false)
    else s
  }

  /** One call of the iterator: the state it leaves, and what it yields. */
  function Next(x: Source, s: State): (State, Option<Emission>)
    requires x.layout.Valid()
    requires s.current <= |x.counts|
    decreases |x.counts| - s.current
  {
    if s.ended then (s, None)
    else if s.current == |x.counts| then (s.(ended := true), None)
    else if s.lastPicked >= x.maxIndex then
      if !More(x, s.picker, s.current) then (s.(ended := true), None) else PickOrAdvance(x, s)
    else PickOrAdvance(x, Counted(x, s))
  }

  function PickOrAdvance(x: Source, s: State): (State, Option<Emission>)
    requires x.layout.Valid()
    requires s.current < |x.counts|
    decreases |x.counts| - s.current, 0
  {
    match Pick(x, s.picker, s.current, s.countAt)
    case Skip => Next(x, s.(current := s.current + 1, isFresh := true))
    case Yield(picker, value) =>
      var v := if value.Some? then value.value else x.layout.HighestEquivalent(x.layout.ValueFor(s.current));
      (s.(since := 0, lastPicked := s.current, picker := picker), Some(Emission(v, x.counts[s.current], s.since)))
  }

  lemma {:induction false} NextInRange(x: Source, s: State)
    requires x.layout.Valid()
    requires s.current <= |x.counts|
    ensures Next(x, s).0.current <= |x.counts|
    decreases |x.counts| - s.current
  {
    hide Pick, Layout.IndexFor, Layout.ValueFor, Layout.HighestEquivalent;
    if !s.ended && s.current < |x.counts| {
      var t := if s.lastPicked >= x.maxIndex then s else Counted(x, s);
      if Pick(x, t.picker, t.current, t.countAt).Skip? {
        NextInRange(x, t.(current := t.current + 1, isFresh := true));
      }
    }
  }

  function Start(p: Picker): State {
    State(0, 0, 0, 0, 0, true, false, p)
  }

  /** The state after `k` calls. */
  function After(x: Source, p: Picker, k: nat): (s: State)
    requires x.layout.Valid()
    ensures s.current <= |x.counts|
  {
    if k == 0 then Start(p)
    else
      NextInRange(x, After(x, p, k - 1));
      Next(x, After(x, p, k - 1)).0
  }

  /** What call number `k` yields, counting from 0. */
  function Yielded(x: Source, p: Picker, k: nat): Option<Emission>
    requires x.layout.Valid()
  {
    Next(x, After(x, p, k)).1
  }

  /** An iterator that has ended stays so. */
  lemma {:induction false} EndedForGood(x: Source, p: Picker, k: nat, n: nat)
    requires x.layout.Valid()
    requires k <= n
    requires After(x, p, k).ended
    ensures After(x, p, n).ended && Yielded(x, p, n) == None
    decreases n
  {
    hide Pick, PickOrAdvance;
    if k < n {
      EndedForGood(x, p, k, n - 1);
    }
  }

  // ---- recorded values ----

  /** The indexes from `i` on that have samples, in order. */
  function NonZeros(c: seq<nat>, i: nat): (s: seq<nat>)
    requires i <= |c|
    ensures forall k :: 0 <= k < |s| ==> i <= s[k] < |c| && c[s[k]] != 0
    decreases |c| - i
  {
    if i == |c| then []
    else if c[i] != 0 then [i] + NonZeros(c, i + 1)
    else NonZeros(c, i + 1)
  }

  /** All of them, each once. */
  lemma {:induction false} NonZerosComplete(c: seq<nat>, i: nat, j: nat)
    requires i <= j < |c|
    ensures c[j] != 0 <==> j in NonZeros(c, i)
    ensures forall a, b :: 0 <= a < b < |NonZeros(c, i)| ==> NonZeros(c, i)[a] < NonZeros(c, i)[b]
    decreases |c| - i
  {
    if i < j {
      NonZerosComplete(c, i + 1, j);
    } else if i + 1 < |c| {
      NonZerosComplete(c, i + 1, i + 1);
    }
  }

  lemma {:induction false} NonZerosTail(c: seq<nat>, i: nat, k: nat)
    requires i <= |c|
    requires k < |NonZeros(c, i)|
    ensures NonZeros(c, i)[k + 1..] == NonZeros(c, NonZeros(c, i)[k] + 1)
    decreases |c| - i
  {
    if c[i] == 0 {
      NonZerosTail(c, i + 1, k);
    } else if k > 0 {
      NonZerosTail(c, i + 1, k - 1);
      assert NonZeros(c, i)[k + 1..] == NonZeros(c, i + 1)[k..];
    }
  }

  function RecordedEmission(x: Source, i: nat): Emission
    requires x.layout.Valid()
    requires i < |x.counts|
  {
    Emission(x.layout.HighestEquivalent(x.layout.ValueFor(i)), x.counts[i], Min(U64_MAX, x.counts[i]))
  }

  /** Nothing has been passed since the last stop, which was before index `current`. */
  ghost predicate Scanning(x: Source, s: State) {
    && s.current <= |x.counts|
    && s.since == 0 && s.isFresh && !s.ended
    && s.lastPicked < x.maxIndex
    && s.picker.Recorded?
    && (s.picker.visited.Some? ==> s.picker.visited.value < s.current)
  }

  /** The iterator stands at index `i`, which it has just yielded. */
  ghost predicate Stopped(x: Source, s: State, i: nat) {
    && s.current == s.lastPicked == i < |x.counts|
    && s.since == 0 && !s.isFresh && !s.ended
    && s.picker == Recorded(Some(i))
  }

  lemma {:induction false} ScanRecorded(x: Source, s: State)
    requires x.Valid()
    requires Scanning(x, s)
    ensures var rest := NonZeros(x.counts, s.current);
      if rest == [] then Next(x, s).0.ended && Next(x, s).1 == None
      else Stopped(x, Next(x, s).0, rest[0]) && Next(x, s).1 == Some(RecordedEmission(x, rest[0]))
    decreases |x.counts| - s.current
  {
    hide Layout.IndexFor, Layout.ValueFor, Layout.HighestEquivalent, Layout.NumBins, NoneAfter;
    if s.current < |x.counts| && x.counts[s.current] == 0 {
      var t := Counted(x, s);
      ScanRecorded(x, t.(current := t.current + 1, isFresh := true));
    }
  }

  lemma {:induction false} NonZerosEmpty(c: seq<nat>, i: nat)
    requires i <= |c|
    requires forall j :: i <= j < |c| ==> c[j] == 0
    ensures NonZeros(c, i) == []
    decreases |c| - i
  {
    if i < |c| {
      NonZerosEmpty(c, i + 1);
    }
  }

  lemma NothingBeyond(x: Source, i: nat)
    requires x.maxIndex < i <= |x.counts|
    requires NoneAfter(x.counts, x.maxIndex)
    ensures NonZeros(x.counts, i) == []
  {
    NonZerosEmpty(x.counts, i);
  }

  /** From one stop to the next, or to the end after the last non-zero count. */
  lemma StepRecorded(x: Source, s: State, i: nat)
    requires x.Valid()
    requires i <= x.maxIndex
    requires Stopped(x, s, i)
    ensures var rest := NonZeros(x.counts, i + 1);
      if rest == [] then Next(x, s).0.ended && Next(x, s).1 == None
      else Stopped(x, Next(x, s).0, rest[0]) && Next(x, s).1 == Some(RecordedEmission(x, rest[0]))
  {
    hide Layout.IndexFor, Layout.ValueFor, Layout.HighestEquivalent, Layout.NumBins;
    if s.lastPicked < x.maxIndex {
      ScanRecorded(x, s.(current := i + 1, isFresh := true, picker := Recorded(Some(i))));
      assert Pick(x, s.picker, s.current, s.countAt) == Skip || s.countAt == 0;
    } else {
      NothingBeyond(x, i + 1);
    }
  }

  /** The state and the result of one more call, from the state after `k` calls. */
  lemma RecordedOnward(x: Source, s: State, k: nat)
    requires x.Valid()
    requires x.maxIndex > 0
    requires s.current <= |x.counts|
    requires var all := NonZeros(x.counts, 0);
      if k == 0 then s == Start(Recorded(None)) else if k <= |all| then Stopped(x, s, all[k - 1]) else s.ended
    ensures var all := NonZeros(x.counts, 0);
      if k < |all| then Stopped(x, Next(x, s).0, all[k]) && Next(x, s).1 == Some(RecordedEmission(x, all[k]))
      else Next(x, s).0.ended && Next(x, s).1 == None
  {
    hide PickOrAdvance, NonZeros, Layout.IndexFor, Layout.ValueFor, Layout.HighestEquivalent, Layout.NumBins;
    hide RecordedEmission;
    var all := NonZeros(x.counts, 0);
    if k == 0 {
      ScanRecorded(x, s);
    } else if k <= |all| {
      NonZerosTail(x.counts, 0, k - 1);
      assert x.counts[all[k - 1]] != 0;
      StepRecorded(x, s, all[k - 1]);
    }
  }

  lemma {:induction false} RecordedState(x: Source, k: nat)
    requires x.Valid()
    requires x.maxIndex > 0
    ensures var all := NonZeros(x.counts, 0);
      var s := After(x, Recorded(None), k);
      if k == 0 then s == Start(Recorded(None))
      else if k <= |all| then Stopped(x, s, all[k - 1])
      else s.ended
    ensures var all := NonZeros(x.counts, 0);
      Yielded(x, Recorded(None), k) == if k < |all| then Some(RecordedEmission(x, all[k])) else None
  {
    hide Next, NonZeros, Stopped, Layout.IndexFor, Layout.ValueFor, Layout.HighestEquivalent, Layout.NumBins;
    hide RecordedEmission;
    var all := NonZeros(x.counts, 0);
    if k == 0 {
      ScanRecorded(x, Start(Recorded(None)));
    } else {
      RecordedState(x, k - 1);
      RecordedOnward(x, After(x, Recorded(None), k - 1), k - 1);
      RecordedOnward(x, After(x, Recorded(None), k), k);
    }
  }

  /** What call number `k` of the iterator over recorded values is documented to yield. */
  function Documented(x: Source, k: nat): Option<Emission>
    requires x.layout.Valid()
  {
    var all := NonZeros(x.counts, 0);
    if k < |all| then Some(RecordedEmission(x, all[k])) else None
  }

  ghost predicate YieldsNonZeros(x: Source)
    requires x.layout.Valid()
  {
    forall k: nat :: Yielded(x, Recorded(None), k) == Documented(x, k)
  }

  /**
    It yields exactly the indexes with samples, each once and in order, and then ends for good,
    unless all samples are at index 0: the iterator takes that index as already picked.
   */
  lemma RecordedYieldsNonZeros(x: Source)
    requires x.Valid()
    ensures YieldsNonZeros(x) <==> x.maxIndex > 0 || x.counts[0] == 0
  {
    hide Next, After, Yielded, NonZeros, Layout.IndexFor, Layout.ValueFor, Layout.HighestEquivalent, Layout.NumBins,
      RecordedEmission;
    if x.maxIndex > 0 {
      forall k: nat ensures Yielded(x, Recorded(None), k) == Documented(x, k) {
        RecordedState(x, k);
      }
    } else {
      OnlyZeros(x);
      EndsAtOnce(x, Recorded(None), 0);
      assert x.counts[0] != 0 ==> Yielded(x, Recorded(None), 0) != Documented(x, 0);
      forall k: nat | x.counts[0] == 0 ensures Yielded(x, Recorded(None), k) == Documented(x, k) {
        EndsAtOnce(x, Recorded(None), k);
      }
    }
  }

  lemma OnlyZeros(x: Source)
    requires x.Valid()
    requires x.maxIndex == 0
    ensures NonZeros(x.counts, 0) == if x.counts[0] == 0 then [] else [0]
  {
    NothingBeyond(x, 1);
  }

  lemma {:induction false} EndsAtOnce(x: Source, p: Picker, k: nat)
    requires x.Valid()
    requires x.maxIndex == 0
    requires p.Recorded?
    ensures Yielded(x, p, k) == None
  {
    hide PickOrAdvance;
    assert After(x, p, 1).ended;
    if k > 0 {
      EndedForGood(x, p, 1, k);
    }
  }

  /** Every call: call number `k` yields the k-th non-zero index, unless all samples are at index 0. */
  lemma RecordedCalls(x: Source, k: nat)
    requires x.Valid()
    ensures Yielded(x, Recorded(None), k) == if x.maxIndex > 0 then Documented(x, k) else None
  {
    hide Layout.IndexFor, Layout.ValueFor, Layout.HighestEquivalent, Layout.NumBins, Next, RecordedEmission, NonZeros;
    if x.maxIndex > 0 {
      RecordedState(x, k);
    } else {
      EndsAtOnce(x, Recorded(None), k);
    }
  }

  // ---- when the maximum is at index 0 ----

  /** Index 0 counts as already picked, so that its samples are never counted, whatever the picker does. */
  lemma {:induction false} NextCountsNothing(x: Source, s: State)
    requires x.layout.Valid()
    requires x.maxIndex == 0
    requires s.current <= |x.counts|
    requires s.since == 0
    ensures Next(x, s).0.since == 0
    ensures Next(x, s).1.Some? ==> Next(x, s).1.value.countSince == 0
    decreases |x.counts| - s.current
  {
    hide Pick, More, Layout.IndexFor, Layout.ValueFor, Layout.HighestEquivalent;
    if !s.ended && s.current < |x.counts| && More(x, s.picker, s.current)
       && Pick(x, s.picker, s.current, s.countAt).Skip? {
      NextCountsNothing(x, s.(current := s.current + 1, isFresh := true));
    }
  }

  lemma {:induction false} NothingCounted(x: Source, p: Picker, k: nat)
    requires x.layout.Valid()
    requires x.maxIndex == 0
    ensures After(x, p, k).since == 0
    ensures Yielded(x, p, k).Some? ==> Yielded(x, p, k).value.countSince == 0
  {
    hide Next;
    if k > 0 {
      NothingCounted(x, p, k - 1);
      NextCountsNothing(x, After(x, p, k - 1));
    }
    NextCountsNothing(x, After(x, p, k));
  }
}
