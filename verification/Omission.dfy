/** The values recorded when a sample is corrected for coordinated omission. */
module Omission {
  import opened Bits
  import opened Layouts
  import opened Counts

  /** `value`, `value - interval`, ... down to the last one not below `interval`. */
  function Descending(value: U64, interval: U64): seq<U64>
    requires interval > 0
  {
    if value < interval then [] else [value] + Descending(value - interval, interval)
  }

  /** The sample itself, and the samples that the expected interval says are missing. */
  function CorrectedValues(value: U64, interval: U64): seq<U64> {
    if interval == 0 || value <= interval then [value]
    else [value] + Descending(value - interval, interval)
  }

  lemma {:induction false} DescendingShape(value: U64, interval: U64)
    requires interval > 0
    ensures |Descending(value, interval)| == value / interval
    ensures forall k :: 0 <= k < value / interval ==>
      k * interval <= value - interval && Descending(value, interval)[k] == value - k * interval
  {
    if value >= interval {
      DescendingShape(value - interval, interval);
      QuotientStep(value, interval);
      var d := Descending(value - interval, interval);
      forall k | 0 <= k < value / interval
        ensures k * interval <= value - interval && Descending(value, interval)[k] == value - k * interval
      {
        if k > 0 {
          assert Descending(value, interval)[k] == d[k - 1];
          assert (k - 1) * interval == k * interval - interval;
        }
      }
    } else {
      QuotientStep(value, interval);
    }
  }

  lemma {:induction false} StepsApart(a: nat, b: nat, d: nat)
    ensures a < b ==> a * d + d <= b * d
  {
    if a < b {
      StepsApart(a, b - 1, d);
      assert b * d == (b - 1) * d + d;
    }
  }

  lemma QuotientUnique(x: nat, d: nat, q: nat)
    requires q * d <= x < q * d + d
    ensures x / d == q
  {
    StepsApart(q, x / d, d);
    StepsApart(x / d, q, d);
  }

  lemma QuotientStep(value: nat, d: nat)
    requires d > 0
    ensures value < d ==> value / d == 0
    ensures value >= d ==> value / d == (value - d) / d + 1
  {
    if value < d {
      QuotientUnique(value, d, 0);
    } else {
      var q := (value - d) / d;
      assert q * d <= value - d < q * d + d;
      assert (q + 1) * d == q * d + d;
      QuotientUnique(value, d, q + 1);
    }
  }

  /**
    There are as many samples as intervals fit into the value, but at least one; they are one
    interval apart, and all but possibly the sample itself are at least one interval long.
   */
  lemma CorrectedShape(value: U64, interval: U64)
    ensures interval == 0 ==> CorrectedValues(value, interval) == [value]
    ensures interval > 0 ==>
      && |CorrectedValues(value, interval)| == Max(1, value / interval)
      && forall k :: 0 <= k < |CorrectedValues(value, interval)| ==>
           && k * interval <= value
           && CorrectedValues(value, interval)[k] == value - k * interval
           && (k > 0 ==> interval <= CorrectedValues(value, interval)[k])
  {
    if interval > 0 {
      DescendingShape(value, interval);
      QuotientStep(value, interval);
      if value == interval {
        QuotientStep(0, interval);
        assert value / interval == 1;
      } else if value > interval {
        assert CorrectedValues(value, interval) == Descending(value, interval);
      }
    }
  }

  /** Number of samples in `k` groups of `n`. */
  function Groups(n: nat, k: nat): nat {
    n * k
  }

  lemma GroupsNone(n: nat)
    ensures Groups(n, 0) == 0
    ensures Groups(n, 1) == n
  {
  }

  lemma GroupsNext(n: nat, k: nat)
    ensures Groups(n, k + 1) == Groups(n, k) + n
  {
  }

  predicate AllHaveSlots(g: Layout, values: seq<U64>, bins: nat)
    requires g.Valid()
  {
    forall i :: 0 <= i < |values| ==> g.IndexFor(values[i]) < bins
  }

  /** A counts array after recording `n` samples of each of the first `k` values. */
  function BumpFirst(g: Layout, c: seq<nat>, values: seq<U64>, k: nat, n: nat, cap: nat): (t: seq<nat>)
    requires g.Valid()
    requires k <= |values|
    requires AllHaveSlots(g, values, |c|)
    ensures |t| == |c|
  {
    if k == 0 then c
    else Bump(BumpFirst(g, c, values, k - 1, n, cap), g.IndexFor(values[k - 1]), n, cap)
  }

  function BumpAll(g: Layout, c: seq<nat>, values: seq<U64>, n: nat, cap: nat): (t: seq<nat>)
    requires g.Valid()
    requires AllHaveSlots(g, values, |c|)
    ensures |t| == |c|
  {
    BumpFirst(g, c, values, |values|, n, cap)
  }

  /** Descending values that start in range stay in range. */
  lemma {:induction false} DescendingInRange(g: Layout, value: U64, interval: U64, bins: nat)
    requires g.Valid()
    requires interval > 0
    requires g.IndexFor(value) < bins
    ensures AllHaveSlots(g, Descending(value, interval), bins)
  {
    hide Layout.IndexFor;
    if value >= interval {
      IndexMonotone(g, value - interval, value);
      DescendingInRange(g, value - interval, interval, bins);
    }
  }

  lemma BumpFirstSteps(g: Layout, c: seq<nat>, values: seq<U64>, n: nat, cap: nat)
    requires g.Valid()
    requires AllHaveSlots(g, values, |c|)
    ensures BumpFirst(g, c, values, 0, n, cap) == c
    ensures BumpFirst(g, c, values, |values|, n, cap) == BumpAll(g, c, values, n, cap)
    ensures forall k {:trigger values[k]} :: 0 <= k < |values| ==>
      && g.IndexFor(values[k]) < |c|
      && BumpFirst(g, c, values, k + 1, n, cap) ==
        Bump(BumpFirst(g, c, values, k, n, cap), g.IndexFor(values[k]), n, cap)
  {
    hide Layout.IndexFor, Bump;
  }

  lemma DescendingEnd(value: U64, interval: U64)
    requires value < interval
    ensures Descending(value, interval) == []
  {
  }

  lemma DescendingNext(value: U64, k: nat, missing: U64, interval: U64)
    requires 0 < interval <= missing
    requires k <= |Descending(value, interval)|
    requires Descending(value, interval)[k..] == Descending(missing, interval)
    ensures k < |Descending(value, interval)|
    ensures Descending(value, interval)[k] == missing
    ensures Descending(value, interval)[k + 1..] == Descending(missing - interval, interval)
  {
    var d := Descending(value, interval);
    assert d[k] == d[k..][0];
    assert d[k + 1..] == d[k..][1..];
  }

  /** Recording one value first and then the others is recording them all. */
  lemma {:induction false} BumpFirstPrepend(g: Layout, c: seq<nat>, value: U64, values: seq<U64>,
      k: nat, n: nat, cap: nat)
    requires g.Valid()
    requires g.IndexFor(value) < |c|
    requires AllHaveSlots(g, values, |c|)
    requires k <= |values|
    ensures AllHaveSlots(g, [value] + values, |c|)
    ensures BumpFirst(g, c, [value] + values, k + 1, n, cap)
         == BumpFirst(g, Bump(c, g.IndexFor(value), n, cap), values, k, n, cap)
  {
    hide Layout.IndexFor, Bump;
    if k > 0 {
      BumpFirstPrepend(g, c, value, values, k - 1, n, cap);
    }
  }

  lemma BumpAllPrepend(g: Layout, c: seq<nat>, value: U64, values: seq<U64>, n: nat, cap: nat)
    requires g.Valid()
    requires g.IndexFor(value) < |c|
    requires AllHaveSlots(g, values, |c|)
    ensures AllHaveSlots(g, [value] + values, |c|)
    ensures BumpAll(g, c, [value] + values, n, cap) == BumpAll(g, Bump(c, g.IndexFor(value), n, cap), values, n, cap)
    ensures BumpAll(g, c, [value], n, cap) == Bump(c, g.IndexFor(value), n, cap)
  {
    hide Layout.IndexFor, Bump;
    BumpFirstPrepend(g, c, value, values, |values|, n, cap);
    BumpFirstPrepend(g, c, value, [], 0, n, cap);
    assert [value] + [] == [value];
  }
}
