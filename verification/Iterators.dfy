/** The iterator object: it borrows a histogram and updates its cursor and its picker in place. */
module Iterators {
  import opened Bits
  import opened Layouts
  import opened Counts
  import opened Stats
  import opened Ranges
  import opened Config
  import opened Iteration
  import opened LinearIteration
  import opened Histograms
  import opened Wrappers

  class HistogramIterator {
    const hist: Histogram
    const maxValueIndex: nat
    var totalCountToIndex: U64
    var countSinceLastIteration: U64
    var countAtIndex: nat
    var currentIndex: nat
    var lastPickedIndex: nat
    var isFresh: bool
    var ended: bool
    var picker: Picker

    ghost predicate Valid()
      reads this, hist
    {
      && hist.Valid()
      && maxValueIndex == hist.MaxIndex()
      && currentIndex <= |hist.counts|
    }

    ghost function Under(): Source
      reads this, hist
    {
      Source(hist.layout, hist.bucketCount, hist.counts, maxValueIndex)
    }

    ghost function Now(): State
      reads this
    {
      State(totalCountToIndex, countSinceLastIteration, countAtIndex, currentIndex, lastPickedIndex, isFresh,
        ended, picker)
    }

    constructor (h: Histogram, picker: Picker)
      requires h.Valid()
      ensures Valid() && hist == h
      ensures Now() == Start(picker)
    {
      hide Layout.IndexFor, Layout.BucketFor, Layout.NumBins, LayoutFor, Prefix, AllAtMost, NoneAfter, ReportedMax;
      ReportedMaxIndex(h.layout, h.maxValue);
      hist := h;
      maxValueIndex := h.layout.IndexFor(h.MaxRecorded());
      totalCountToIndex, countSinceLastIteration, countAtIndex := 0, 0, 0;
      currentIndex, lastPickedIndex, isFresh, ended := 0, 0, true, false;
      this.picker := picker;
    }

    /** Asks the picker about the current index; a picker that wants to stop here moves on. */
    method AskPicker() returns (stops: bool, value: Option<U64>)
      requires Valid() && hist.layout.Valid()
      modifies this`picker
      ensures var p := Pick(Under(), old(picker), currentIndex, countAtIndex);
        && (stops <==> p.Yield?)
        && (stops ==> picker == p.next && value == p.value)
        && (!stops ==> picker == old(picker))
    {
      hide Layout.ValueFor, Layout.LowestEquivalent, Layout.IndexFor, Layout.BucketFor, Layout.NumBins, LayoutFor;
      hide Prefix;
      stops, value := false, None;
      match picker
      case Recorded(visited) =>
        if countAtIndex != 0 && visited != Some(currentIndex) {
          picker := Recorded(Some(currentIndex));
          stops := true;
        }
      case Linear(step, highest, lowest) =>
        if hist.layout.ValueFor(currentIndex) >= lowest || currentIndex == hist.LastIndex() {
          stops, value := true, Some(highest);
          var highest' := (highest + step) % 0x1_0000_0000_0000_0000;
          picker := Linear(step, highest', hist.layout.LowestEquivalent(highest'));
        }
    }

    method AskMore() returns (more: bool)
      requires Valid()
      ensures more == More(Under(), picker, currentIndex)
    {
      match picker
      case Recorded(_) =>
        more := false;
      case Linear(_, highest, _) =>
        more := highest < hist.layout.ValueFor(currentIndex + 1);
    }

    /** Adds the count of an index that has just been reached. */
    method CountIndex()
      requires Valid()
      requires currentIndex < |hist.counts|
      modifies this`countAtIndex, this`totalCountToIndex, this`countSinceLastIteration, this`isFresh
      ensures Now() == Counted(Under(), old(Now()))
    {
      if isFresh {
        countAtIndex := hist.counts[currentIndex];
        totalCountToIndex := Min(U64_MAX, totalCountToIndex + countAtIndex);
        countSinceLastIteration := Min(U64_MAX, countSinceLastIteration + countAtIndex);
        isFresh := false;
      }
    }

    /** Moves to the next index at which the picker stops, if there is one. */
    method Next() returns (r: Option<Emission>)
      requires Valid() && hist.layout.Valid()
      modifies this
      ensures Valid()
      ensures (Now(), r) == Iteration.Next(Under(), old(Now()))
    {
      hide Layout.ValueFor, Layout.LowestEquivalent, Layout.HighestEquivalent, Layout.IndexFor, Layout.BucketFor;
      hide Layout.NumBins, LayoutFor, Prefix, Pick, More, Counted;
      while !ended
        invariant Valid()
        invariant Iteration.Next(Under(), Now()) == Iteration.Next(Under(), old(Now()))
        decreases !ended, |hist.counts| - currentIndex
      {
        if currentIndex == |hist.counts| {
          ended := true;
          return None;
        }
        if lastPickedIndex >= maxValueIndex {
          var more := AskMore();
          if !more {
            ended := true;
            return None;
          }
        } else {
          CountIndex();
        }
        var stops, value := AskPicker();
        if stops {
          var v := if value.Some?
            then value.value else hist.layout.HighestEquivalent(hist.layout.ValueFor(currentIndex));
          r := Some(Emission(v, hist.counts[currentIndex], countSinceLastIteration));
          countSinceLastIteration := 0;
          lastPickedIndex := currentIndex;
          return;
        }
        currentIndex := currentIndex + 1;
        isFresh := true;
      }
      r := None;
    }
  }

  ghost function SourceOf(h: Histogram): Source
    requires h.Valid()
    reads h
  {
    Source(h.layout, h.bucketCount, h.counts, h.MaxIndex())
  }

  lemma SourceOfValid(h: Histogram)
    requires h.Valid()
    ensures SourceOf(h).Valid()
  {
    hide Layout.IndexFor, Layout.BucketFor, Layout.NumBins, LayoutFor, Prefix, AllAtMost;
    BucketCount(h.layout, h.high);
  }

  /** All that the iterator over recorded values yields. */
  method CollectRecorded(h: Histogram) returns (rs: seq<Emission>)
    requires h.Valid()
    ensures h.MaxIndex() > 0 || h.counts[0] == 0 ==>
      var all := NonZeros(h.counts, 0);
      && |rs| == |all|
      && forall k :: 0 <= k < |rs| ==>
        && rs[k].value == h.layout.HighestEquivalent(h.layout.ValueFor(all[k]))
        && rs[k].countAtValue == h.counts[all[k]]
        && rs[k].countSince == Min(U64_MAX, h.counts[all[k]])
    ensures h.MaxIndex() == 0 ==> rs == []
  {
    hide Layout.IndexFor, Layout.BucketFor, Layout.NumBins, LayoutFor, Prefix, AllAtMost, NoneAfter, Iteration.Next;
    hide RecordedEmission, NonZeros, Source.Valid;
    SourceOfValid(h);
    ghost var x := SourceOf(h);
    ghost var all := NonZeros(h.counts, 0);
    SourceInRange(x);
    RecordedYieldsNonZeros(x);
    var iter := new HistogramIterator(h, Recorded(None));
    rs := [];
    while true
      invariant fresh(iter) && iter.Valid() && iter.hist == h && iter.Under() == x
      invariant iter.Now() == After(x, Recorded(None), |rs|)
      invariant |rs| <= |all|
      invariant x.maxIndex == 0 ==> rs == []
      invariant x.maxIndex > 0 ==> forall k :: 0 <= k < |rs| ==> rs[k] == RecordedEmission(x, all[k])
      decreases |all| - |rs|
    {
      var r := iter.Next();
      RecordedCalls(x, |rs|);
      if r.None? {
        RecordedMeaning(x);
        return;
      }
      rs := rs + [r.value];
    }
  }

  lemma RecordedMeaning(x: Source)
    requires x.layout.Valid()
    ensures forall i: nat :: i < |x.counts| ==>
      && RecordedEmission(x, i).value == x.layout.HighestEquivalent(x.layout.ValueFor(i))
      && RecordedEmission(x, i).countAtValue == x.counts[i]
      && RecordedEmission(x, i).countSince == Min(U64_MAX, x.counts[i])
  {
  }

  lemma SourceInRange(x: Source)
    requires x.Valid()
    ensures |x.counts| > 0 && x.layout.Valid()
  {
  }

  ghost function SumSince(rs: seq<Emission>): nat {
    if rs == [] then 0 else SumSince(rs[..|rs| - 1]) + rs[|rs| - 1].countSince
  }

  /** The picker that a linear iteration starts with. */
  function LinearStart(g: Layout, step: U64): (p: Picker)
    requires g.Valid()
    requires step >= 1
    ensures Level(step, 1) <= U64_MAX && p == LinearPicker(g, step, 1)
  {
    Linear(step, step - 1, g.LowestEquivalent(step - 1))
  }

  /**
    All that the linear iterator yields, provided that the levels it computes are words; that
    they are if the maximum is at index 0.
   */
  method CollectLinear(h: Histogram, step: U64) returns (rs: seq<Emission>)
    requires h.Valid() && h.layout.Valid() && |h.counts| > 0
    requires 1 <= step
    requires Sum(h.counts) <= U64_MAX
    requires h.MaxIndex() > 0 ==> LevelsFit(SourceOf(h), step)
    ensures |rs| == Stops(SourceOf(h), step)
    ensures forall k: nat :: k < |rs| ==> Reports(SourceOf(h), step, k + 1, rs[k])
    ensures SumSince(rs) == if h.MaxIndex() > 0 then Sum(h.counts) else 0
    ensures SumSince(rs) == Sum(h.counts) <==> h.MaxIndex() > 0 || h.counts[0] == 0
  {
    hide Layout.IndexFor, Layout.BucketFor, Layout.NumBins, Layout.ValueFor, Layout.Start, LayoutFor, Prefix, AllAtMost;
    hide NoneAfter, Iteration.Next, Source.Valid, Level, LinearPicker, LinearStart, TotalSince, Yielded;
    hide LevelsFit, Stops, Reports;
    SourceOfValid(h);
    ghost var x := SourceOf(h);
    ghost var last := Stops(x, step);
    LevelIsProduct(step, 1);
    LinearReportsAll(x, step);
    var p := LinearStart(h.layout, step);
    var iter := new HistogramIterator(h, p);
    TotalSinceNext(x, p, 0);
    LinearCalls(x, step, 0);
    rs := [];
    while true
      invariant fresh(iter) && iter.Valid() && iter.hist == h && iter.Under() == x
      invariant iter.Now() == After(x, p, |rs|)
      invariant |rs| <= last
      invariant forall k: nat :: k < |rs| ==> Reports(x, step, k + 1, rs[k])
      invariant SumSince(rs) == TotalSince(x, p, |rs|)
      decreases last - |rs|
    {
      LinearCalls(x, step, |rs|);
      TotalSinceNext(x, p, |rs|);
      var r := iter.Next();
      if r.None? {
        return;
      }
      assert (rs + [r.value])[..|rs|] == rs;
      rs := rs + [r.value];
    }
  }

  lemma TotalSinceNext(x: Source, p: Picker, k: nat)
    requires x.Valid()
    ensures Yielded(x, p, k) == Iteration.Next(x, After(x, p, k)).1
    ensures After(x, p, k + 1) == Iteration.Next(x, After(x, p, k)).0
    ensures TotalSince(x, p, k + 1) ==
      TotalSince(x, p, k) + (if Yielded(x, p, k).Some? then Yielded(x, p, k).value.countSince else 0)
    ensures TotalSince(x, p, 0) == 0
  {
    hide Iteration.Next, Layout.NumBins;
  }
}
