/**
  The token stream of the V2 format: a count stands for itself, and a run of more than one zero
  for its negated length. A lone zero is written as it is.
 */
module RunLengths {
  import opened Counts

  /** Length of the run of zeros that starts at index `i` and ends before `n`. */
  function ZeroRun(c: seq<nat>, i: nat, n: nat): (z: nat)
    requires i <= n <= |c|
    ensures i + z <= n
    ensures forall j :: i <= j < i + z ==> c[j] == 0
    ensures i + z < n ==> c[i + z] != 0
    decreases n - i
  {
    if i < n && c[i] == 0 then 1 + ZeroRun(c, i + 1, n) else 0
  }

  function Token(c: seq<nat>, i: nat, n: nat): int
    requires i < n <= |c|
  {
    var z: int := ZeroRun(c, i, n);
    if z > 1 then -z else c[i]
  }

  /** How many indexes a token accounts for. */
  function TokenSpan(t: int): (w: nat)
    ensures w >= 1
  {
    if t < 0 then -t else 1
  }

  lemma SpanInRange(c: seq<nat>, i: nat, n: nat)
    requires i < n <= |c|
    ensures i + TokenSpan(Token(c, i, n)) <= n
  {
  }

  /** Tokens for the indexes from `i` up to `n`. */
  function Tokens(c: seq<nat>, i: nat, n: nat): (ts: seq<int>)
    requires i <= n <= |c|
    ensures |ts| <= n - i
    decreases n - i
  {
    if i == n then []
    else
      SpanInRange(c, i, n);
      [Token(c, i, n)] + Tokens(c, i + TokenSpan(Token(c, i, n)), n)
  }

  /** The counts that one token stands for. */
  function Expansion(t: int): seq<nat> {
    if t < 0 then Zeros(-t) else [t]
  }

  /** The counts that a token stream stands for. */
  function Expand(ts: seq<int>): seq<nat> {
    if ts == [] then []
    else Expansion(ts[0]) + Expand(ts[1..])
  }

  lemma ExpandNext(t: int, ts: seq<int>)
    ensures Expand([t] + ts) == Expansion(t) + Expand(ts)
    ensures Expand([]) == []
  {
    assert ([t] + ts)[1..] == ts;
  }

  lemma TokenExpansion(c: seq<nat>, i: nat, n: nat)
    requires i < n <= |c|
    ensures i + TokenSpan(Token(c, i, n)) <= n
    ensures Expansion(Token(c, i, n)) == c[i..i + TokenSpan(Token(c, i, n))]
  {
  }

  /** The spans of the tokens partition the indexes, and expanding them gives the counts back. */
  lemma {:induction false} ExpandTokens(c: seq<nat>, i: nat, n: nat)
    requires i <= n <= |c|
    ensures Expand(Tokens(c, i, n)) == c[i..n]
    decreases n - i
  {
    hide Token, TokenSpan, ZeroRun, Expand, Expansion;
    ExpandNext(0, []);
    if i < n {
      var t := Token(c, i, n);
      var next := i + TokenSpan(t);
      TokenExpansion(c, i, n);
      ExpandTokens(c, next, n);
      ExpandNext(t, Tokens(c, next, n));
      assert c[i..n] == c[i..next] + c[next..n];
    }
  }

  /** Zeros are never split over two tokens. */
  ghost predicate Compressed(ts: seq<int>) {
    && (forall k :: 0 <= k < |ts| ==> ts[k] != -1)
    && (forall k :: 0 < k < |ts| && ts[k - 1] <= 0 ==> ts[k] > 0)
  }

  lemma {:induction false} TokensCompressed(c: seq<nat>, i: nat, n: nat)
    requires i <= n <= |c|
    ensures Compressed(Tokens(c, i, n))
    decreases n - i
  {
    if i < n {
      var next := i + TokenSpan(Token(c, i, n));
      SpanInRange(c, i, n);
      TokensCompressed(c, next, n);
      var ts, rest := Tokens(c, i, n), Tokens(c, next, n);
      assert forall k :: 0 < k < |ts| ==> ts[k] == rest[k - 1];
      if Token(c, i, n) <= 0 && rest != [] {
        assert c[next] != 0;
        assert rest[0] == c[next];
      }
    }
  }
}
