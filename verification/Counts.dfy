/**
  Counts arrays as sequences: prefix sums, and what it means to carry the counts of one
  histogram over to another one that may have a different layout.
 */
module Counts {
  import opened Bits
  import opened Layouts

  /** Sum of the first `n` counts. */
  function Prefix(s: seq<nat>, n: nat): (t: nat)
    requires n <= |s|
  {
    if n == 0 then 0 else Prefix(s, n - 1) + s[n - 1]
  }

  function Sum(s: seq<nat>): nat {
    Prefix(s, |s|)
  }

  function Zeros(n: nat): (z: seq<nat>)
    ensures |z| == n
    ensures forall i :: 0 <= i < n ==> z[i] == 0
  {
    seq(n, _ => 0)
  }

  ghost predicate AllAtMost(s: seq<nat>, cap: nat) {
    forall i :: 0 <= i < |s| ==> s[i] <= cap
  }

  /** No sample is counted past index `m`. */
  ghost predicate NoneAfter(s: seq<nat>, m: nat) {
    forall i :: 0 <= i < |s| && s[i] != 0 ==> i <= m
  }

  lemma {:induction false} PrefixUpdate(s: seq<nat>, i: nat, x: nat, n: nat)
    requires i < |s|
    requires n <= |s|
    ensures Prefix(s[i := x], n) == if i < n then Prefix(s, n) - s[i] + x else Prefix(s, n)
  {
    if n > 0 {
      PrefixUpdate(s, i, x, n - 1);
    }
  }

  lemma {:induction false} PrefixMonotone(s: seq<nat>, m: nat, n: nat)
    requires m <= n <= |s|
    ensures Prefix(s, m) <= Prefix(s, n)
    decreases n
  {
    if m < n {
      PrefixMonotone(s, m, n - 1);
    }
  }

  /** Each count is part of the sum. */
  lemma CountAtMostSum(s: seq<nat>, i: nat)
    requires i < |s|
    ensures s[i] <= Sum(s)
  {
    PrefixMonotone(s, i + 1, |s|);
  }

  lemma {:induction false} PrefixZeros(s: seq<nat>, m: nat, n: nat)
    requires m <= n <= |s|
    requires forall i :: m <= i < n ==> s[i] == 0
    ensures Prefix(s, n) == Prefix(s, m)
    decreases n
  {
    if m < n {
      PrefixZeros(s, m, n - 1);
    }
  }

  lemma {:induction false} PrefixExtend(s: seq<nat>, t: seq<nat>, n: nat)
    requires n <= |s|
    ensures Prefix(s + t, n) == Prefix(s, n)
  {
    if n > 0 {
      PrefixExtend(s, t, n - 1);
    }
  }

  lemma SumPadded(s: seq<nat>, n: nat)
    ensures Sum(s + Zeros(n)) == Sum(s)
  {
    PrefixZeros(s + Zeros(n), |s|, |s| + n);
    PrefixExtend(s, Zeros(n), |s|);
  }

  lemma SumIsZero(s: seq<nat>)
    requires Sum(s) == 0
    ensures forall i :: 0 <= i < |s| ==> s[i] == 0
  {
    forall i | 0 <= i < |s| ensures s[i] == 0 {
      CountAtMostSum(s, i);
    }
  }

  /** Counts at the indexes `lo` to `hi`, both included. */
  function Span(s: seq<nat>, lo: nat, hi: nat): (t: nat)
    requires lo < |s| && hi < |s|
  {
    PrefixMonotone(s, lo, Max(lo, hi + 1));
    Prefix(s, Max(lo, hi + 1)) - Prefix(s, lo)
  }

  /** Index of the count that holds the sample of this rank, counting from the smallest sample. */
  ghost predicate AtRank(s: seq<nat>, rank: nat, i: nat) {
    i < |s| && Prefix(s, i) < rank <= Prefix(s, i + 1)
  }

  /** A counts array after recording `n` samples at index `i` with counters that saturate at `cap`. */
  function Bump(s: seq<nat>, i: nat, n: nat, cap: nat): (t: seq<nat>)
    requires i < |s|
    ensures |t| == |s|
  {
    s[i := Min(cap, s[i] + n)]
  }

  lemma SumBump(s: seq<nat>, i: nat, n: nat, cap: nat)
    requires i < |s|
    requires s[i] <= cap
    ensures Sum(Bump(s, i, n, cap)) <= Sum(s) + n
    ensures s[i] + n <= cap ==> Sum(Bump(s, i, n, cap)) == Sum(s) + n
  {
    PrefixUpdate(s, i, Min(cap, s[i] + n), |s|);
  }

  /**
    Counters that saturate: recording a group at once or in parts is the same, and so is the
    order of groups, even when the counter stops at its maximum.
   */
  lemma BumpInParts(s: seq<nat>, i: nat, a: nat, b: nat, cap: nat)
    requires i < |s|
    ensures Bump(Bump(s, i, a, cap), i, b, cap) == Bump(s, i, a + b, cap)
  {
  }

  // ---- carrying counts over ----

  /** Index, in the layout `dst`, of the samples counted at index `i` in the layout `src`. */
  function Conv(src: Layout, dst: Layout, i: nat): nat
    requires dst.Valid()
  {
    dst.IndexFor(src.ValueFor(i))
  }

  /** How many samples among the first `n` counts of `c` belong at index `j` of `dst`. */
  function Image(src: Layout, dst: Layout, c: seq<nat>, n: nat, j: nat): nat
    requires dst.Valid()
    requires n <= |c|
  {
    if n == 0 then 0
    else Image(src, dst, c, n - 1, j) + (if Conv(src, dst, n - 1) == j then c[n - 1] else 0)
  }

  /** `base` with the first `n` counts of `c` added at the indexes where they belong. */
  function Merged(base: seq<nat>, src: Layout, dst: Layout, c: seq<nat>, n: nat, cap: nat): (t: seq<nat>)
    requires dst.Valid()
    requires n <= |c|
    ensures |t| == |base|
  {
    seq(|base|, j requires 0 <= j < |base| => Min(cap, base[j] + Image(src, dst, c, n, j)))
  }

  /** The first `n` counts of `c` can be taken out of `base`. */
  ghost predicate Fits(base: seq<nat>, src: Layout, dst: Layout, c: seq<nat>, n: nat)
    requires dst.Valid()
    requires n <= |c|
  {
    forall j :: 0 <= j < |base| ==> Image(src, dst, c, n, j) <= base[j]
  }

  function Reduced(base: seq<nat>, src: Layout, dst: Layout, c: seq<nat>, n: nat): (t: seq<nat>)
    requires dst.Valid()
    requires n <= |c|
    requires Fits(base, src, dst, c, n)
    ensures |t| == |base|
  {
    seq(|base|, j requires 0 <= j < |base| => base[j] - Image(src, dst, c, n, j))
  }

  lemma {:induction false} ImageMonotone(src: Layout, dst: Layout, c: seq<nat>, m: nat, n: nat, j: nat)
    requires dst.Valid()
    requires m <= n <= |c|
    ensures Image(src, dst, c, m, j) <= Image(src, dst, c, n, j)
    decreases n
  {
    hide Conv;
    if m < n {
      ImageMonotone(src, dst, c, m, n - 1, j);
    }
  }

  lemma {:induction false} ImageZeros(src: Layout, dst: Layout, c: seq<nat>, m: nat, n: nat, j: nat)
    requires dst.Valid()
    requires m <= n <= |c|
    requires forall i :: m <= i < n ==> c[i] == 0
    ensures Image(src, dst, c, m, j) == Image(src, dst, c, n, j)
    decreases n
  {
    hide Conv;
    if m < n {
      ImageZeros(src, dst, c, m, n - 1, j);
    }
  }

  /** Between equal layouts nothing moves. */
  lemma {:induction false} ImageSame(g: Layout, buckets: nat, c: seq<nat>, n: nat, j: nat)
    requires g.Valid()
    requires 1 <= buckets <= MaxBuckets(g)
    requires n <= |c| == g.NumBins(buckets)
    ensures Image(g, g, c, n, j) == if j < n then c[j] else 0
  {
    hide Layout.IndexFor, Layout.ValueFor, Layout.NumBins;
    if n > 0 {
      ImageSame(g, buckets, c, n - 1, j);
      IndexOfValueFor(g, buckets, n - 1);
    }
  }

  lemma MergedNone(base: seq<nat>, src: Layout, dst: Layout, c: seq<nat>, cap: nat)
    requires dst.Valid()
    requires AllAtMost(base, cap)
    ensures Merged(base, src, dst, c, 0, cap) == base
  {
  }

  /** Merging one more count is recording it at the index where it belongs. */
  lemma MergedStep(base: seq<nat>, src: Layout, dst: Layout, c: seq<nat>, n: nat, cap: nat)
    requires dst.Valid()
    requires n < |c|
    requires c[n] != 0 ==> Conv(src, dst, n) < |base|
    ensures c[n] == 0 ==> Merged(base, src, dst, c, n + 1, cap) == Merged(base, src, dst, c, n, cap)
    ensures c[n] != 0 ==>
      Merged(base, src, dst, c, n + 1, cap) == Bump(Merged(base, src, dst, c, n, cap), Conv(src, dst, n), c[n], cap)
  {
    hide Conv;
  }

  /** The order does not matter: count `m` may be recorded before all smaller indexes. */
  lemma MergedLastFirst(base: seq<nat>, src: Layout, dst: Layout, c: seq<nat>, m: nat, cap: nat)
    requires dst.Valid()
    requires m < |c|
    requires Conv(src, dst, m) < |base|
    ensures Merged(Bump(base, Conv(src, dst, m), c[m], cap), src, dst, c, m, cap)
         == Merged(base, src, dst, c, m + 1, cap)
  {
    hide Conv;
  }

  lemma MergedTail(base: seq<nat>, src: Layout, dst: Layout, c: seq<nat>, m: nat, cap: nat)
    requires dst.Valid()
    requires m < |c|
    requires NoneAfter(c, m)
    ensures Merged(base, src, dst, c, m + 1, cap) == Merged(base, src, dst, c, |c|, cap)
  {
    hide Conv;
    forall j | 0 <= j < |base|
      ensures Image(src, dst, c, m + 1, j) == Image(src, dst, c, |c|, j)
    {
      ImageZeros(src, dst, c, m + 1, |c|, j);
    }
  }

  lemma ReducedNone(base: seq<nat>, src: Layout, dst: Layout, c: seq<nat>)
    requires dst.Valid()
    ensures Fits(base, src, dst, c, 0)
    ensures Reduced(base, src, dst, c, 0) == base
  {
  }

  /** One more count can be taken out exactly when what is left at its index suffices. */
  lemma ReducedStep(base: seq<nat>, src: Layout, dst: Layout, c: seq<nat>, n: nat)
    requires dst.Valid()
    requires n < |c|
    requires c[n] != 0 ==> Conv(src, dst, n) < |base|
    requires Fits(base, src, dst, c, n)
    ensures c[n] == 0 ==>
      && Fits(base, src, dst, c, n + 1)
      && Reduced(base, src, dst, c, n + 1) == Reduced(base, src, dst, c, n)
    ensures c[n] != 0 ==>
      var k := Conv(src, dst, n);
      var left := Reduced(base, src, dst, c, n);
      && (Fits(base, src, dst, c, n + 1) <==> c[n] <= left[k])
      && (c[n] <= left[k] ==> Reduced(base, src, dst, c, n + 1) == left[k := left[k] - c[n]])
  {
    hide Conv;
    if c[n] != 0 {
      var k := Conv(src, dst, n);
      assert Image(src, dst, c, n + 1, k) == Image(src, dst, c, n, k) + c[n];
      forall j | 0 <= j < |base| && j != k
        ensures Image(src, dst, c, n + 1, j) == Image(src, dst, c, n, j)
      {
      }
    }
  }

  lemma FitsFewer(base: seq<nat>, src: Layout, dst: Layout, c: seq<nat>, m: nat, n: nat)
    requires dst.Valid()
    requires m <= n <= |c|
    requires Fits(base, src, dst, c, n)
    ensures Fits(base, src, dst, c, m)
  {
    hide Conv;
    forall j | 0 <= j < |base| ensures Image(src, dst, c, m, j) <= base[j] {
      ImageMonotone(src, dst, c, m, n, j);
    }
  }

  /** Where nothing of `c` belongs, taking `c` out leaves the count alone. */
  lemma {:induction false} ImageNone(src: Layout, dst: Layout, c: seq<nat>, n: nat, j: nat)
    requires dst.Valid()
    requires n <= |c|
    requires forall i :: 0 <= i < n && c[i] != 0 ==> Conv(src, dst, i) != j
    ensures Image(src, dst, c, n, j) == 0
  {
    hide Conv;
    if n > 0 {
      ImageNone(src, dst, c, n - 1, j);
    }
  }

  // ---- subtracting what was added ----

  /** When no counter saturates, what was merged can be taken out again, and that undoes it. */
  lemma MergeThenReduce(base: seq<nat>, src: Layout, dst: Layout, c: seq<nat>, cap: nat)
    requires dst.Valid()
    requires forall j :: 0 <= j < |base| ==> base[j] + Image(src, dst, c, |c|, j) <= cap
    ensures Fits(Merged(base, src, dst, c, |c|, cap), src, dst, c, |c|)
    ensures Reduced(Merged(base, src, dst, c, |c|, cap), src, dst, c, |c|) == base
  {
    hide Image;
  }
}
