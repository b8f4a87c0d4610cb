/**
  The V2 format as functions: what is written for a histogram, and what any input means when it
  is read.
 */
module V2Format {
  import opened Bits
  import opened Layouts
  import opened Counts
  import opened Config
  import opened Varint
  import opened RunLengths
  import opened Wrappers

  const I64_MAX: nat := 0x7FFF_FFFF_FFFF_FFFF
  const V2_COOKIE: nat := 0x1C84_9313
  const V2_COMPRESSED_COOKIE: nat := 0x1C84_9314
  const V2_HEADER_SIZE: nat := 40
  /** The bits of 1.0 as a 64-bit float. */
  const F64_ONE: nat := 0x3FF0_0000_0000_0000

  datatype DecodeError =
    | IoError
    | InvalidCookie
    | CompressedInput
    | UnsupportedFeature
    | UnsuitableCounterType
    | InvalidParameters
    | UsizeTypeTooSmall
    | EncodedArrayTooLong

  // ---- the counts ----

  function TokenBytes(t: I64): (s: seq<Byte>)
    ensures 1 <= |s| <= 9
  {
    VarintBytes(ZigZagEncode(t))
  }

  function Bytes(ts: seq<I64>): (s: seq<Byte>)
    ensures |ts| <= |s| <= 9 * |ts|
  {
    if ts == [] then [] else TokenBytes(ts[0]) + Bytes(ts[1..])
  }

  lemma {:induction false} BytesAppend(ts: seq<I64>, t: I64)
    ensures Bytes(ts + [t]) == Bytes(ts) + TokenBytes(t)
  {
    hide TokenBytes;
    if ts == [] {
      assert ts + [t] == [t];
    } else {
      BytesAppend(ts[1..], t);
      assert (ts + [t])[1..] == ts[1..] + [t];
      var a, b, c := TokenBytes(ts[0]), Bytes(ts[1..]), TokenBytes(t);
      assert a + (b + c) == (a + b) + c;
    }
  }

  ghost predicate Serializable(c: seq<nat>, n: nat) {
    forall j :: 0 <= j < n && j < |c| ==> c[j] <= I64_MAX
  }

  /** Signed words whose negation is a signed word as well. */
  ghost predicate AllWords(ts: seq<int>) {
    forall k :: 0 <= k < |ts| ==> -0x7FFF_FFFF_FFFF_FFFF <= ts[k] <= 0x7FFF_FFFF_FFFF_FFFF
  }

  lemma {:induction false} TokensFit(c: seq<nat>, i: nat, n: nat)
    requires i <= n <= |c|
    requires n <= I64_MAX
    requires Serializable(c, n)
    ensures AllWords(Tokens(c, i, n))
    decreases n - i
  {
    if i < n {
      SpanInRange(c, i, n);
      TokensFit(c, i + TokenSpan(Token(c, i, n)), n);
    }
  }

  /** The counts below `n` as they are written. */
  function EncodedCounts(c: seq<nat>, n: nat): (s: seq<Byte>)
    requires n <= |c|
    requires n <= I64_MAX
    requires Serializable(c, n)
    ensures |s| <= 9 * n
  {
    TokensFit(c, 0, n);
    Bytes(Tokens(c, 0, n))
  }

  /** Effect of one decoded number on the counts and on the index to be filled next. */
  function Place(c: seq<nat>, dest: U64, t: I64, cap: nat): (r: Result<(seq<nat>, U64), DecodeError>)
    ensures r.Success? ==> |r.value.0| == |c|
  {
    if t < 0 then
      if t < -0x7FFF_FFFF_FFFF_FFFF || dest - t > U64_MAX then Failure(UsizeTypeTooSmall) else Success((c, dest - t))
    else if t > cap then Failure(UnsuitableCounterType)
    else if t > 0 && dest >= |c| then Failure(EncodedArrayTooLong)
    else if dest == U64_MAX then Failure(UsizeTypeTooSmall)
    else Success((if t > 0 then c[dest := t] else c, dest + 1))
  }

  /** What a payload means: its numbers are taken in one after the other until an error or the end. */
  function Decoded(s: seq<Byte>, c: seq<nat>, dest: U64, cap: nat): (r: Result<seq<nat>, DecodeError>)
    ensures r.Success? ==> |r.value| == |c|
    decreases |s|
  {
    if s == [] then Success(c)
    else
      match VarintValue(s)
      case None => Failure(IoError)
      case Some((zz, k)) =>
        match Place(c, dest, ZigZagDecode(zz), cap)
        case Failure(e) => Failure(e)
        case Success((c', dest')) => Decoded(s[k..], c', dest', cap)
  }

  lemma NoNumber(s: seq<Byte>, c: seq<nat>, dest: U64, cap: nat)
    requires s != []
    requires VarintValue(s) == None
    ensures Decoded(s, c, dest, cap) == Failure(IoError)
  {
    hide VarintValue;
  }

  /** The written form of a token is read as that token, whatever comes after it. */
  lemma DecodedStep(t: I64, rest: seq<Byte>, c: seq<nat>, dest: U64, cap: nat)
    ensures var p := Place(c, dest, t, cap);
      Decoded(TokenBytes(t) + rest, c, dest, cap)
      == if p.Failure? then Failure(p.error) else Decoded(rest, p.value.0, p.value.1, cap)
  {
    hide Place, VarintValue, VarintBytes, ZigZagEncode, ZigZagDecode;
    var bytes := TokenBytes(t);
    ZigZagRoundTrip(t);
    VarintReadBack(ZigZagEncode(t), rest);
    assert (bytes + rest)[|bytes|..] == rest;
  }

  /** The first `n` counts of `c`, and zeros up to a length of `m`. */
  function Restored(c: seq<nat>, n: nat, m: nat): (t: seq<nat>)
    requires n <= |c|
    requires n <= m
    ensures |t| == m
  {
    c[..n] + Zeros(m - n)
  }

  /** Reading one token of a histogram restores the counts it accounts for. */
  lemma PlaceToken(c: seq<nat>, i: nat, n: nat, m: nat, cap: nat)
    requires i < n <= |c|
    requires n <= m <= I64_MAX
    requires c[i] <= cap && c[i] <= I64_MAX
    ensures
      var next := i + TokenSpan(Token(c, i, n));
      && next <= n
      && Place(Restored(c, i, m), i, Token(c, i, n), cap) == Success((Restored(c, next, m), next))
  {
    SpanInRange(c, i, n);
    var next := i + TokenSpan(Token(c, i, n));
    var was, now := Restored(c, i, m), Restored(c, next, m);
    if Token(c, i, n) > 0 {
      assert was[i := c[i]] == now;
    } else {
      assert was == now;
    }
  }

  lemma {:induction false} DecodedTokens(c: seq<nat>, i: nat, n: nat, m: nat, cap: nat)
    requires i <= n <= |c|
    requires n <= m <= I64_MAX
    requires Serializable(c, n)
    requires forall j :: i <= j < n ==> c[j] <= cap
    ensures AllWords(Tokens(c, i, n))
    ensures Decoded(Bytes(Tokens(c, i, n)), Restored(c, i, m), i, cap) == Success(Restored(c, n, m))
    decreases n - i
  {
    hide Place, TokenBytes, Token, Restored;
    TokensFit(c, i, n);
    if i < n {
      PlaceToken(c, i, n, m, cap);
      var t := Token(c, i, n);
      var next := i + TokenSpan(t);
      DecodedTokens(c, next, n, m, cap);
      assert t == Tokens(c, i, n)[0];
      assert Tokens(c, i, n)[1..] == Tokens(c, next, n);
      DecodedStep(t, Bytes(Tokens(c, next, n)), Restored(c, i, m), i, cap);
    }
  }

  lemma PlaceTooLarge(c: seq<nat>, i: nat, n: nat, was: seq<nat>, cap: nat)
    requires i < n <= |c|
    requires n <= I64_MAX
    requires cap < c[i] <= I64_MAX
    ensures Token(c, i, n) == c[i]
    ensures Place(was, i, c[i], cap) == Failure(UnsuitableCounterType)
  {
  }

  /** A count that the reader's counter type cannot hold is reported as such. */
  lemma {:induction false} DecodedTooLarge(c: seq<nat>, i: nat, n: nat, m: nat, cap: nat)
    requires i <= n <= |c|
    requires n <= m <= I64_MAX
    requires Serializable(c, n)
    requires exists j :: i <= j < n && c[j] > cap
    ensures AllWords(Tokens(c, i, n))
    ensures Decoded(Bytes(Tokens(c, i, n)), Restored(c, i, m), i, cap) == Failure(UnsuitableCounterType)
    decreases n - i
  {
    hide TokenBytes, Restored, Place, Decoded, Token;
    TokensFit(c, i, n);
    var t := Token(c, i, n);
    var next := i + TokenSpan(t);
    SpanInRange(c, i, n);
    assert t == Tokens(c, i, n)[0];
    assert Tokens(c, i, n)[1..] == Tokens(c, next, n);
    TokensFit(c, next, n);
    DecodedStep(t, Bytes(Tokens(c, next, n)), Restored(c, i, m), i, cap);
    if c[i] <= cap {
      PlaceToken(c, i, n, m, cap);
      NothingSkipped(c, i, n, cap);
      DecodedTooLarge(c, next, n, m, cap);
    } else {
      PlaceTooLarge(c, i, n, Restored(c, i, m), cap);
    }
  }

  /** The counts that a token accounts for are no larger than the first of them. */
  lemma NothingSkipped(c: seq<nat>, i: nat, n: nat, cap: nat)
    requires i < n <= |c|
    requires c[i] <= cap
    ensures forall j :: i <= j < i + TokenSpan(Token(c, i, n)) && j < n ==> c[j] <= cap
  {
  }

  /** The counts read back are those written, if and only if the reader's counters can hold them. */
  lemma CountsRoundTrip(c: seq<nat>, n: nat, cap: nat)
    requires n <= |c| <= I64_MAX
    requires Serializable(c, n)
    requires forall j :: n <= j < |c| ==> c[j] == 0
    ensures var r := Decoded(EncodedCounts(c, n), Zeros(|c|), 0, cap);
      r == if forall j :: 0 <= j < |c| ==> c[j] <= cap then Success(c) else Failure(UnsuitableCounterType)
  {
    hide Decoded, Tokens, Bytes;
    assert Restored(c, 0, |c|) == Zeros(|c|);
    assert Restored(c, n, |c|) == c;
    if forall j :: 0 <= j < |c| ==> c[j] <= cap {
      DecodedTokens(c, 0, n, |c|, cap);
    } else {
      DecodedTooLarge(c, 0, n, |c|, cap);
    }
  }

  // ---- the header ----

  /** Big-endian form of a number in `n` bytes. */
  function BigEndian(x: nat, n: nat): (s: seq<Byte>)
    ensures |s| == n
  {
    if n == 0 then [] else BigEndian(x / 0x100, n - 1) + [x % 0x100]
  }

  function FromBigEndian(s: seq<Byte>): nat {
    if s == [] then 0 else 0x100 * FromBigEndian(s[..|s| - 1]) + s[|s| - 1]
  }

  lemma {:induction false} BigEndianReadBack(x: nat, n: nat)
    requires x < Pow2(8 * n)
    ensures FromBigEndian(BigEndian(x, n)) == x
  {
    hide Pow2;
    if n > 0 {
      EightBits(8 * (n - 1));
      BigEndianReadBack(x / 0x100, n - 1);
      assert BigEndian(x, n)[..n - 1] == BigEndian(x / 0x100, n - 1);
    } else {
      Pow2Zero();
    }
  }

  lemma EightBits(n: nat)
    ensures Pow2(n + 8) == 0x100 * Pow2(n)
  {
    hide Pow2;
    Pow2Add(n, 8);
    ShlIsProduct(Pow2(n), 8);
    Pow2Small();
  }

  lemma {:induction false} FromBigEndianBound(s: seq<Byte>)
    ensures FromBigEndian(s) < Pow2(8 * |s|)
  {
    hide Pow2;
    if s == [] {
      Pow2Zero();
    } else {
      FromBigEndianBound(s[..|s| - 1]);
      EightBits(8 * (|s| - 1));
    }
  }

  datatype Field = Field(value: nat, rest: seq<Byte>)

  /** Reads a number of `n` bytes. */
  function ReadNum(s: seq<Byte>, n: nat): (r: Result<Field, DecodeError>)
    ensures r.Success? ==> r.value.value < Pow2(8 * n) && |r.value.rest| == |s| - n
  {
    if |s| < n then Failure(IoError)
    else
      FromBigEndianBound(s[..n]);
      Success(Field(FromBigEndian(s[..n]), s[n..]))
  }

  lemma ReadNumBack(x: nat, n: nat, rest: seq<Byte>)
    requires x < Pow2(8 * n)
    ensures ReadNum(BigEndian(x, n) + rest, n) == Success(Field(x, rest))
  {
    hide Pow2, BigEndian, FromBigEndian;
    BigEndianReadBack(x, n);
    var s := BigEndian(x, n) + rest;
    assert s[..n] == BigEndian(x, n) && s[n..] == rest;
  }

  /** What the fields after the cookie say, and the bytes that follow them. */
  datatype Header = Header(length: nat, low: U64, high: U64, sigfig: nat, layout: Layout, rest: seq<Byte>)

  function DecodeHeader(s: seq<Byte>): (r: Result<Header, DecodeError>)
    ensures r.Success? ==> |r.value.rest| == |s| - 36
  {
    WordLimit();
    var length :- ReadNum(s, 4);
    var offset :- ReadNum(length.rest, 4);
    if offset.value != 0 then Failure(UnsupportedFeature)
    else
      var digits :- ReadNum(offset.rest, 4);
      if digits.value > 0xFF then Failure(InvalidParameters)
      else
        var low :- ReadNum(digits.rest, 8);
        var high :- ReadNum(low.rest, 8);
        var ratio :- ReadNum(high.rest, 8);
        if ratio.value != F64_ONE then Failure(UnsupportedFeature)
        else
          match CheckBounds(low.value, high.value, digits.value)
          case Failure(_) => Failure(InvalidParameters)
          case Success(g) => Success(Header(length.value, low.value, high.value, digits.value, g, ratio.rest))
  }

  function HeaderBytes(length: nat, low: U64, high: U64, sigfig: nat): (s: seq<Byte>)
    ensures |s| == V2_HEADER_SIZE - 4
  {
    BigEndian(length, 4) + FieldsBytes(low, high, sigfig)
  }

  function FieldsBytes(low: U64, high: U64, sigfig: nat): (s: seq<Byte>)
    ensures |s| == V2_HEADER_SIZE - 8
  {
    BigEndian(0, 4) + BigEndian(sigfig, 4) + BigEndian(low, 8) + BigEndian(high, 8) + BigEndian(F64_ONE, 8)
  }

  /** Every header that is written is accepted when read, and says the same. */
  lemma HeaderRoundTrip(length: nat, low: U64, high: U64, sigfig: nat, g: Layout, rest: seq<Byte>)
    requires Configured(low, sigfig, g)
    requires 2 * low <= high
    requires length < 0x1_0000_0000
    ensures DecodeHeader(HeaderBytes(length, low, high, sigfig) + rest) ==
      Success(Header(length, low, high, sigfig, g, rest))
  {
    hide Pow2, BigEndian, FromBigEndian, ReadNum, LayoutFor;
    Pow2Values();
    AcceptedBounds(low, high, sigfig);
    var s6 := BigEndian(F64_ONE, 8) + rest;
    var s5 := BigEndian(high, 8) + s6;
    var s4 := BigEndian(low, 8) + s5;
    var s3 := BigEndian(sigfig, 4) + s4;
    var s2 := BigEndian(0, 4) + s3;
    ReadNumBack(F64_ONE, 8, rest);
    ReadNumBack(high, 8, s6);
    ReadNumBack(low, 8, s5);
    ReadNumBack(sigfig, 4, s4);
    ReadNumBack(0, 4, s3);
    ReadNumBack(length, 4, s2);
    assert HeaderBytes(length, low, high, sigfig) + rest == BigEndian(length, 4) + s2;
  }

  // ---- a whole histogram ----

  /** What is needed to rebuild a histogram; its total and extremes follow from the counts. */
  datatype Image = Image(low: U64, high: U64, sigfig: nat, layout: Layout, counts: seq<nat>, rest: seq<Byte>)

  /** What an input after the cookie means to a reader whose counters hold up to `cap`. */
  function DecodeV2(s: seq<Byte>, cap: nat): (r: Result<Image, DecodeError>) {
    var h :- DecodeHeader(s);
    if |h.rest| < h.length then Failure(IoError)
    else
      AcceptedBounds(h.low, h.high, h.sigfig);
      var bins := h.layout.NumBins(h.layout.BucketFor(h.high) + 1);
      var counts :- Decoded(h.rest[..h.length], Zeros(bins), 0, cap);
      Success(Image(h.low, h.high, h.sigfig, h.layout, counts, h.rest[h.length..]))
  }

  /** What is written for a histogram whose counts end before index `n`. */
  function V2Bytes(low: U64, high: U64, sigfig: nat, c: seq<nat>, n: nat): seq<Byte>
    requires n <= |c|
    requires n <= I64_MAX
    requires Serializable(c, n)
  {
    var payload := EncodedCounts(c, n);
    BigEndian(V2_COOKIE, 4) + HeaderBytes(|payload|, low, high, sigfig) + payload
  }

  /** A whole input: the cookie decides the format. The compressed one is only recognised. */
  function Decode(s: seq<Byte>, cap: nat): Result<Image, DecodeError> {
    var cookie :- ReadNum(s, 4);
    if cookie.value == V2_COOKIE then DecodeV2(cookie.rest, cap)
    else if cookie.value == V2_COMPRESSED_COOKIE then Failure(CompressedInput)
    else Failure(InvalidCookie)
  }

  /**
    A histogram that is written and read again has the same bounds, precision and counts, and
    exactly the bytes written are used up, whatever follows them. This fails only if a count is
    too large for the reader's counters.
   */
  lemma V2RoundTrip(low: U64, high: U64, sigfig: nat, g: Layout, c: seq<nat>, n: nat, rest: seq<Byte>, cap: nat)
    requires Configured(low, sigfig, g)
    requires 2 * low <= high
    requires |c| == g.NumBins(g.BucketFor(high) + 1)
    requires n <= |c| <= 65 * 0x2_0000
    requires forall j :: n <= j < |c| ==> c[j] == 0
    requires Serializable(c, n)
    ensures Decode(V2Bytes(low, high, sigfig, c, n) + rest, cap) ==
      if forall j :: 0 <= j < |c| ==>
        c[j] <= cap then Success(Image(low, high, sigfig, g, c, rest)) else Failure(UnsuitableCounterType)
  {
    hide Pow2, BigEndian, FromBigEndian, ReadNum, LayoutFor, Layout.NumBins, Layout.BucketFor, HeaderBytes;
    hide DecodeHeader, Decoded, EncodedCounts;
    Pow2Values();
    var payload := EncodedCounts(c, n);
    var tail := payload + rest;
    var header := HeaderBytes(|payload|, low, high, sigfig);
    ReadNumBack(V2_COOKIE, 4, header + tail);
    HeaderRoundTrip(|payload|, low, high, sigfig, g, tail);
    CountsRoundTrip(c, n, cap);
    assert V2Bytes(low, high, sigfig, c, n) + rest == BigEndian(V2_COOKIE, 4) + (header + tail);
    assert tail[..|payload|] == payload && tail[|payload|..] == rest;
  }
}
