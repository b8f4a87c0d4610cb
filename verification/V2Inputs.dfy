/** What the bytes of a written histogram are, and what inputs that are not such bytes are refused for. */
module V2Inputs {
  import opened Bits
  import opened Layouts
  import opened Counts
  import opened Config
  import opened Varint
  import opened RunLengths
  import opened V2Format
  import opened Wrappers

  // ---- inputs that stop too early ----

  lemma ReadNumCut(s: seq<Byte>, n: nat, k: nat)
    requires n <= |s| && k <= |s|
    ensures ReadNum(s, n).Success? && ReadNum(s, n).value.rest == s[n..]
    ensures ReadNum(s[..k], n) ==
      if k < n then Failure(IoError) else Success(Field(ReadNum(s, n).value.value, s[n..][..k - n]))
  {
    hide FromBigEndian, Pow2;
    if n <= k {
      assert s[..k][..n] == s[..n];
      assert s[..k][n..] == s[n..][..k - n];
    }
  }

  lemma HeaderTooShort(s: seq<Byte>, k: nat)
    requires DecodeHeader(s).Success?
    requires k < 36 <= |s|
    ensures DecodeHeader(s[..k]) == Failure(IoError)
  {
    hide ReadNum, CheckBounds, Pow2;
    WordLimit();
    var s1, s2, s3, s4, s5 := s[4..], s[8..], s[12..], s[20..], s[28..];
    ReadNumCut(s, 4, k);
    assert s1[4..] == s2 && s2[4..] == s3 && s3[8..] == s4 && s4[8..] == s5;
    if 4 <= k {
      ReadNumCut(s1, 4, k - 4);
      if 8 <= k {
        ReadNumCut(s2, 4, k - 8);
        if 12 <= k {
          ReadNumCut(s3, 8, k - 12);
          if 20 <= k {
            ReadNumCut(s4, 8, k - 20);
            if 28 <= k {
              ReadNumCut(s5, 8, k - 28);
            }
          }
        }
      }
    }
  }

  /** A header that is cut off cannot be read; cut off behind it, it says the same. */
  lemma HeaderCut(s: seq<Byte>, k: nat)
    requires DecodeHeader(s).Success?
    requires k <= |s|
    ensures DecodeHeader(s).value.rest == s[36..]
    ensures DecodeHeader(s[..k]) ==
      if k < 36 then Failure(IoError) else Success(DecodeHeader(s).value.(rest := s[36..k]))
  {
    hide DecodeHeader, CheckBounds, FromBigEndian;
    HeaderLength(s);
    HeaderFields(s);
    if k < 36 {
      HeaderTooShort(s, k);
    } else {
      HeaderFields(s[..k]);
      var p := s[..k];
      assert p[..4] == s[..4] && p[4..8] == s[4..8] && p[8..12] == s[8..12] && p[12..20] == s[12..20];
      assert p[20..28] == s[20..28] && p[28..36] == s[28..36] && p[36..] == s[36..k];
    }
  }

  lemma HeaderLength(s: seq<Byte>)
    requires DecodeHeader(s).Success?
    ensures |s| >= 36
  {
  }

  /** An input that ends before the payload its header announces is refused for just that. */
  lemma CutBeforePayloadEnds(s: seq<Byte>, k: nat, cap: nat)
    requires DecodeHeader(s).Success?
    requires k <= |s| && k < 36 + DecodeHeader(s).value.length
    ensures DecodeV2(s[..k], cap) == Failure(IoError)
  {
    hide DecodeHeader, Decoded, CheckBounds, Layout.NumBins, Layout.BucketFor, LayoutFor;
    HeaderLength(s);
    HeaderCut(s, k);
  }

  /** Nothing shorter than what an accepted input takes up is accepted. */
  lemma NoShorterInput(s: seq<Byte>, k: nat, cap: nat)
    requires Decode(s, cap).Success?
    requires k < |s| - |Decode(s, cap).value.rest|
    ensures Decode(s[..k], cap) == Failure(IoError)
  {
    hide DecodeHeader, Decoded, CheckBounds, Layout.NumBins, Layout.BucketFor, LayoutFor, ReadNum;
    ReadNumCut(s, 4, k);
    if 4 <= k {
      CutBeforePayloadEnds(s[4..], k - 4, cap);
    }
  }

  /** No part of a written histogram is taken for one, whatever the reader's counters can hold. */
  lemma NoPartIsAccepted(low: U64, high: U64, sigfig: nat, g: Layout, c: seq<nat>, n: nat, k: nat, cap: nat)
    requires Configured(low, sigfig, g)
    requires 2 * low <= high
    requires n <= |c| <= 65 * 0x2_0000
    requires Serializable(c, n)
    requires k < |V2Bytes(low, high, sigfig, c, n)|
    ensures Decode(V2Bytes(low, high, sigfig, c, n)[..k], cap) == Failure(IoError)
  {
    hide Pow2, BigEndian, ReadNum, LayoutFor, HeaderBytes, DecodeHeader, DecodeV2, EncodedCounts;
    Pow2Values();
    var payload := EncodedCounts(c, n);
    var tail := HeaderBytes(|payload|, low, high, sigfig) + payload;
    var s := V2Bytes(low, high, sigfig, c, n);
    assert s == BigEndian(V2_COOKIE, 4) + tail;
    ReadNumBack(V2_COOKIE, 4, tail);
    ReadNumCut(s, 4, k);
    HeaderRoundTrip(|payload|, low, high, sigfig, g, payload);
    if 4 <= k {
      CutBeforePayloadEnds(tail, k - 4, cap);
    }
  }

  // ---- the bytes ----

  /** A number and its big-endian bytes determine each other. */
  lemma {:induction false} BigEndianOnto(s: seq<Byte>)
    ensures BigEndian(FromBigEndian(s), |s|) == s
  {
    if s != [] {
      BigEndianOnto(s[..|s| - 1]);
    }
  }

  lemma FourBytes(a: Byte, b: Byte, c: Byte, d: Byte)
    ensures BigEndian(((0x100 * a + b) * 0x100 + c) * 0x100 + d, 4) == [a, b, c, d]
  {
    hide BigEndian;
    assert BigEndian(0, 0) == [];
    OneMoreByte(0, 0, a);
    OneMoreByte(a, 1, b);
    OneMoreByte(0x100 * a + b, 2, c);
    OneMoreByte((0x100 * a + b) * 0x100 + c, 3, d);
  }

  lemma OneMoreByte(x: nat, n: nat, b: Byte)
    ensures BigEndian(0x100 * x + b, n + 1) == BigEndian(x, n) + [b]
  {
  }

  lemma OneAsBytes()
    ensures BigEndian(F64_ONE, 8) == [0x3F, 0xF0, 0, 0, 0, 0, 0, 0]
  {
    FourBytes(0, 0, 0x3F, 0xF0);
    assert BigEndian(0x3FF0, 2) == [0x3F, 0xF0];
    assert BigEndian(0x3FF0_00, 3) == [0x3F, 0xF0, 0];
    assert BigEndian(0x3FF0_0000, 4) == [0x3F, 0xF0, 0, 0];
    assert BigEndian(0x3FF0_0000_00, 5) == [0x3F, 0xF0, 0, 0, 0];
    assert BigEndian(0x3FF0_0000_0000, 6) == [0x3F, 0xF0, 0, 0, 0, 0];
    assert BigEndian(0x3FF0_0000_0000_00, 7) == [0x3F, 0xF0, 0, 0, 0, 0, 0];
  }

  lemma FieldPlaces(low: U64, high: U64, sigfig: nat, rest: seq<Byte>)
    ensures
      var s := FieldsBytes(low, high, sigfig) + rest;
      && s[..4] == [0, 0, 0, 0]
      && s[4..8] == BigEndian(sigfig, 4)
      && s[8..16] == BigEndian(low, 8)
      && s[16..24] == BigEndian(high, 8)
      && s[24..32] == [0x3F, 0xF0, 0, 0, 0, 0, 0, 0]
      && s[32..] == rest
  {
    hide BigEndian;
    FourBytes(0, 0, 0, 0);
    OneAsBytes();
  }

  /** The fields of everything that is written, at their places. */
  lemma WrittenFields(low: U64, high: U64, sigfig: nat, c: seq<nat>, n: nat)
    requires n <= |c|
    requires n <= I64_MAX
    requires Serializable(c, n)
    ensures
      var s := V2Bytes(low, high, sigfig, c, n);
      && |s| == 40 + |EncodedCounts(c, n)|
      && s[..4] == [0x1C, 0x84, 0x93, 0x13]
      && s[4..8] == BigEndian(|EncodedCounts(c, n)|, 4)
      && s[8..12] == [0, 0, 0, 0]
      && s[12..16] == BigEndian(sigfig, 4)
      && s[16..24] == BigEndian(low, 8)
      && s[24..32] == BigEndian(high, 8)
      && s[32..40] == [0x3F, 0xF0, 0, 0, 0, 0, 0, 0]
      && s[40..] == EncodedCounts(c, n)
  {
    hide BigEndian, EncodedCounts, FieldsBytes, Serializable;
    FourBytes(0x1C, 0x84, 0x93, 0x13);
    var payload := EncodedCounts(c, n);
    var s := V2Bytes(low, high, sigfig, c, n);
    FieldPlaces(low, high, sigfig, payload);
    var fields := FieldsBytes(low, high, sigfig) + payload;
    assert s == (BigEndian(V2_COOKIE, 4) + BigEndian(|payload|, 4)) + fields;
    forall i: nat, j: nat | i <= j <= |fields| ensures s[8 + i..8 + j] == fields[i..j] {}
    assert s[40..] == fields[32..];
  }

  /** A small histogram to the byte: two empty indexes, then a count of five. */
  lemma WrittenExample()
    ensures
      && Serializable([0, 0, 5], 3)
      && V2Bytes(1, 2, 1, [0, 0, 5], 3) ==
        [0x1C, 0x84, 0x93, 0x13] + [0, 0, 0, 2] + [0, 0, 0, 0] + [0, 0, 0, 1] +
        [0, 0, 0, 0, 0, 0, 0, 1] + [0, 0, 0, 0, 0, 0, 0, 2] + [0x3F, 0xF0, 0, 0, 0, 0, 0, 0] +
        [0x03, 0x0A]
  {
    hide V2Bytes, BigEndian, EncodedCounts, Serializable;
    ExampleCounts();
    WrittenFields(1, 2, 1, [0, 0, 5], 3);
    FourBytes(0, 0, 0, 2);
    FourBytes(0, 0, 0, 1);
    EightBytes(1);
    EightBytes(2);
    InParts(V2Bytes(1, 2, 1, [0, 0, 5], 3));
  }

  lemma InParts(s: seq<Byte>)
    requires |s| >= 40
    ensures s == s[..4] + s[4..8] + s[8..12] + s[12..16] + s[16..24] + s[24..32] + s[32..40] + s[40..]
  {
    var a := s[..4] + s[4..8] + s[8..12] + s[12..16];
    assert a == s[..16];
    assert s[..16] + s[16..24] == s[..24];
    assert s[..24] + s[24..32] == s[..32];
  }

  lemma EightBytes(b: Byte)
    ensures BigEndian(b, 8) == [0, 0, 0, 0, 0, 0, 0, b]
  {
    FourBytes(0, 0, 0, 0);
    assert BigEndian(0, 5) == [0, 0, 0, 0, 0];
    assert BigEndian(0, 6) == [0, 0, 0, 0, 0, 0];
    assert BigEndian(0, 7) == [0, 0, 0, 0, 0, 0, 0];
  }

  lemma ExampleCounts()
    ensures Serializable([0, 0, 5], 3)
    ensures EncodedCounts([0, 0, 5], 3) == [0x03, 0x0A]
  {
    hide ZigZagEncode, VarintBytes;
    var c: seq<nat> := [0, 0, 5];
    assert ZeroRun(c, 2, 3) == 0;
    assert ZeroRun(c, 1, 3) == 1;
    assert Tokens(c, 3, 3) == [];
    assert Tokens(c, 2, 3) == [5];
    assert Tokens(c, 0, 3) == [-2] + Tokens(c, 2, 3);
    ZigZagMeaning(-2);
    ZigZagMeaning(5);
    SmallVarint(3);
    SmallVarint(10);
    assert [-2, 5][1..] == [5];
    assert Bytes([5]) == [0x0A];
  }

  lemma SmallVarint(v: U64)
    requires v < 0x80
    ensures VarintBytes(v) == [v]
  {
  }

  // ---- inputs that are refused for what they say ----

  /** The number read from some bytes is a given one exactly if the bytes are its big-endian form. */
  lemma NumberIs(s: seq<Byte>, x: nat)
    requires x < Pow2(8 * |s|)
    ensures FromBigEndian(s) == x <==> s == BigEndian(x, |s|)
  {
    hide Pow2, BigEndian, FromBigEndian;
    BigEndianOnto(s);
    BigEndianReadBack(x, |s|);
  }

  /** Other cookies are not known; that of the compressed format is. */
  lemma CookieRefused(s: seq<Byte>, cap: nat)
    requires |s| >= 4
    requires s[..4] != [0x1C, 0x84, 0x93, 0x13]
    ensures Decode(s, cap) == Failure(if s[..4] == [0x1C, 0x84, 0x93, 0x14] then CompressedInput else InvalidCookie)
  {
    hide FromBigEndian, BigEndian, Pow2, DecodeV2;
    Pow2Values();
    FourBytes(0x1C, 0x84, 0x93, 0x13);
    FourBytes(0x1C, 0x84, 0x93, 0x14);
    NumberIs(s[..4], V2_COOKIE);
    NumberIs(s[..4], V2_COMPRESSED_COOKIE);
  }

  /** The fields of a header that is long enough. */
  lemma HeaderFields(s: seq<Byte>)
    requires |s| >= 36
    ensures
      && FromBigEndian(s[20..28]) <= U64_MAX && FromBigEndian(s[12..20]) <= U64_MAX
      && DecodeHeader(s) ==
        if FromBigEndian(s[4..8]) != 0 then Failure(UnsupportedFeature)
        else if FromBigEndian(s[8..12]) > 0xFF then Failure(InvalidParameters)
        else if FromBigEndian(s[28..36]) != F64_ONE then Failure(UnsupportedFeature)
        else
          match CheckBounds(FromBigEndian(s[12..20]), FromBigEndian(s[20..28]), FromBigEndian(s[8..12]))
          case Failure(_) => Failure(InvalidParameters)
          case Success(g) =>
            Success(
              Header(
                FromBigEndian(s[..4]),
                FromBigEndian(s[12..20]),
                FromBigEndian(s[20..28]),
                FromBigEndian(s[8..12]),
                g,
                s[36..]))
  {
    hide FromBigEndian, CheckBounds, Pow2;
    WordLimit();
    FromBigEndianBound(s[12..20]);
    FromBigEndianBound(s[20..28]);
    assert s[4..][..4] == s[4..8] && s[4..][4..] == s[8..];
    assert s[8..][..4] == s[8..12] && s[8..][4..] == s[12..];
    assert s[12..][..8] == s[12..20] && s[12..][8..] == s[20..];
    assert s[20..][..8] == s[20..28] && s[20..][8..] == s[28..];
    assert s[28..][..8] == s[28..36] && s[28..][8..] == s[36..];
  }

  /** A normalizing offset is not supported. */
  lemma OffsetRefused(s: seq<Byte>)
    requires |s| >= 8
    requires s[4..8] != [0, 0, 0, 0]
    ensures DecodeHeader(s) == Failure(UnsupportedFeature)
  {
    hide FromBigEndian, CheckBounds, Pow2, BigEndian;
    Pow2Values();
    FourBytes(0, 0, 0, 0);
    NumberIs(s[4..8], 0);
    assert s[4..][..4] == s[4..8];
  }

  /** Nor is a conversion ratio other than 1.0. */
  lemma RatioRefused(s: seq<Byte>)
    requires |s| >= 36
    requires s[4..8] == [0, 0, 0, 0]
    requires s[8..11] == [0, 0, 0]
    requires s[28..36] != [0x3F, 0xF0, 0, 0, 0, 0, 0, 0]
    ensures DecodeHeader(s) == Failure(UnsupportedFeature)
  {
    hide FromBigEndian, CheckBounds, DecodeHeader;
    HeaderFields(s);
    FixedFields(s);
  }

  /** A number of four bytes is a byte if the other three are zero. */
  lemma LastByte(s: seq<Byte>)
    requires |s| == 4
    ensures FromBigEndian(s) <= 0xFF <==> s[..3] == [0, 0, 0]
    ensures s[..3] == [0, 0, 0] ==> FromBigEndian(s) == s[3]
  {
    hide BigEndian, FromBigEndian, Pow2;
    Pow2Values();
    if FromBigEndian(s) <= 0xFF {
      BigEndianOnto(s);
      FourBytes(0, 0, 0, FromBigEndian(s));
    }
    if s[..3] == [0, 0, 0] {
      assert s == [0, 0, 0, s[3]];
      FourBytes(0, 0, 0, s[3]);
      NumberIs(s, s[3]);
    }
  }

  /** What the fields have to hold besides the bounds. */
  lemma FixedFields(s: seq<Byte>)
    requires |s| >= 36
    ensures FromBigEndian(s[4..8]) == 0 <==> s[4..8] == [0, 0, 0, 0]
    ensures FromBigEndian(s[8..12]) <= 0xFF <==> s[8..11] == [0, 0, 0]
    ensures s[8..11] == [0, 0, 0] ==> FromBigEndian(s[8..12]) == s[11]
    ensures FromBigEndian(s[28..36]) == F64_ONE <==> s[28..36] == [0x3F, 0xF0, 0, 0, 0, 0, 0, 0]
  {
    hide FromBigEndian, BigEndian, Pow2;
    Pow2Values();
    FourBytes(0, 0, 0, 0);
    NumberIs(s[4..8], 0);
    OneAsBytes();
    NumberIs(s[28..36], F64_ONE);
    LastByte(s[8..12]);
    assert s[8..12][..3] == s[8..11];
  }

  /** A number of digits that is not a byte is refused, and so are bounds that no histogram is created for. */
  lemma ParametersRefused(s: seq<Byte>)
    requires |s| >= 36
    requires s[4..8] == [0, 0, 0, 0]
    requires s[8..11] == [0, 0, 0] ==> s[28..36] == [0x3F, 0xF0, 0, 0, 0, 0, 0, 0]
    ensures FromBigEndian(s[20..28]) <= U64_MAX && FromBigEndian(s[12..20]) <= U64_MAX
    ensures DecodeHeader(s).Failure? ==> DecodeHeader(s).error == InvalidParameters
    ensures DecodeHeader(s).Success? <==>
      && s[8..11] == [0, 0, 0]
      && CheckBounds(FromBigEndian(s[12..20]), FromBigEndian(s[20..28]), s[11]).Success?
  {
    hide FromBigEndian, CheckBounds, DecodeHeader;
    HeaderFields(s);
    FixedFields(s);
  }

  // ---- payloads that were not written for a histogram ----

  /** Counts with others laid over them from an index on; zeros cover nothing. */
  function Overlaid(c: seq<nat>, at: nat, e: seq<nat>): (r: seq<nat>)
    ensures |r| == |c|
  {
    seq(|c|, i requires 0 <= i < |c| => if at <= i < at + |e| && e[i - at] > 0 then e[i - at] else c[i])
  }

  ghost predicate AllFit(ts: seq<I64>, cap: nat) {
    forall k :: 0 <= k < |ts| ==> -0x8000_0000_0000_0000 < ts[k] <= cap
  }

  /** Counts that start at index `at` leave the indexes from `m` on empty. */
  ghost predicate NothingPast(e: seq<nat>, at: nat, m: nat) {
    forall j :: 0 <= j < |e| && m <= at + j ==> e[j] == 0
  }

  /** All numbers fit the counters, the position stays a word, and no sample is past the last index. */
  ghost predicate Acceptable(ts: seq<I64>, m: nat, dest: U64, cap: nat) {
    && AllFit(ts, cap)
    && dest + |Expand(ts)| <= U64_MAX
    && NothingPast(Expand(ts), dest, m)
  }

  lemma ExpansionLength(t: int)
    ensures |Expansion(t)| == TokenSpan(t)
    ensures t >= 0 ==> Expansion(t) == [t]
    ensures forall j :: 0 <= j < |Expansion(t)| && t < 0 ==> Expansion(t)[j] == 0
  {
  }

  lemma PlaceOne(t: I64, c: seq<nat>, dest: U64, cap: nat)
    ensures Place(c, dest, t, cap).Success? <==> Acceptable([t], |c|, dest, cap)
    ensures Place(c, dest, t, cap).Success? ==>
      Place(c, dest, t, cap).value == (Overlaid(c, dest, Expansion(t)), dest + TokenSpan(t))
  {
    ExpandOne(t);
    ExpansionLength(t);
    hide Expand, Expansion;
    var e := Expansion(t);
    assert [t][0] == t;
    if t < 0 {
      assert Overlaid(c, dest, e) == c;
    } else {
      assert e[0] == t && Expand([t])[0] == t;
      assert Overlaid(c, dest, e) == if t > 0 && dest < |c| then c[dest := t] else c;
    }
  }

  lemma ExpandOne(t: int)
    ensures Expand([t]) == Expansion(t)
  {
    ExpandNext(t, []);
    assert [t] + [] == [t];
  }

  lemma OverlaidTwice(c: seq<nat>, at: nat, a: seq<nat>, b: seq<nat>)
    ensures Overlaid(Overlaid(c, at, a), at + |a|, b) == Overlaid(c, at, a + b)
  {
  }

  lemma AcceptableNext(ts: seq<I64>, m: nat, dest: U64, cap: nat)
    requires ts != []
    ensures Acceptable(ts, m, dest, cap) <==>
      && Acceptable([ts[0]], m, dest, cap)
      && Acceptable(ts[1..], m, dest + TokenSpan(ts[0]), cap)
    ensures Acceptable([ts[0]], m, dest, cap) ==> dest + TokenSpan(ts[0]) <= U64_MAX
    ensures Expand(ts) == Expansion(ts[0]) + Expand(ts[1..])
  {
    ExpandOne(ts[0]);
    ExpansionLength(ts[0]);
    hide Expansion, TokenSpan, NothingPast, AllFit;
    SplitFit(ts, cap);
    SplitPast(Expansion(ts[0]), Expand(ts[1..]), dest, m);
  }

  lemma SplitFit(ts: seq<I64>, cap: nat)
    requires ts != []
    ensures AllFit(ts, cap) <==> AllFit([ts[0]], cap) && AllFit(ts[1..], cap)
  {
    assert [ts[0]][0] == ts[0];
    assert forall k :: 0 < k < |ts| ==> ts[k] == ts[1..][k - 1];
    assert forall k :: 0 <= k < |ts[1..]| ==> ts[1..][k] == ts[k + 1];
  }

  lemma SplitPast(a: seq<nat>, b: seq<nat>, at: nat, m: nat)
    ensures NothingPast(a + b, at, m) <==> NothingPast(a, at, m) && NothingPast(b, at + |a|, m)
  {
    assert forall j :: 0 <= j < |b| ==> (a + b)[|a| + j] == b[j];
    assert forall j :: 0 <= j < |a| ==> (a + b)[j] == a[j];
  }

  /** Acceptable numbers are taken in, and reading goes on behind them. */
  lemma {:induction false} DecodedOnward(ts: seq<I64>, tail: seq<Byte>, c: seq<nat>, dest: U64, cap: nat)
    requires Acceptable(ts, |c|, dest, cap)
    ensures Decoded(Bytes(ts) + tail, c, dest, cap) ==
      Decoded(tail, Overlaid(c, dest, Expand(ts)), dest + |Expand(ts)|, cap)
  {
    hide Decoded, Place, Acceptable, TokenBytes, TokenSpan, Expansion;
    if ts == [] {
      assert Bytes(ts) + tail == tail;
      assert Overlaid(c, dest, []) == c;
    } else {
      var t, rest := ts[0], ts[1..];
      AcceptableNext(ts, |c|, dest, cap);
      PlaceOne(t, c, dest, cap);
      ExpansionLength(t);
      DecodedStep(t, Bytes(rest) + tail, c, dest, cap);
      DecodedOnward(rest, tail, Overlaid(c, dest, Expansion(t)), dest + TokenSpan(t), cap);
      OverlaidTwice(c, dest, Expansion(t), Expand(rest));
      assert Bytes(ts) + tail == TokenBytes(t) + (Bytes(rest) + tail);
    }
  }

  lemma {:induction false} NotAcceptable(ts: seq<I64>, c: seq<nat>, dest: U64, cap: nat)
    requires !Acceptable(ts, |c|, dest, cap)
    ensures Decoded(Bytes(ts), c, dest, cap).Failure?
  {
    hide Decoded, Place, Acceptable, TokenBytes, TokenSpan, Expansion;
    if ts == [] {
      NothingAcceptable(|c|, dest, cap);
    } else {
      AcceptableNext(ts, |c|, dest, cap);
      PlaceOne(ts[0], c, dest, cap);
      DecodedStep(ts[0], Bytes(ts[1..]), c, dest, cap);
      if Place(c, dest, ts[0], cap).Success? {
        NotAcceptable(ts[1..], Overlaid(c, dest, Expansion(ts[0])), dest + TokenSpan(ts[0]), cap);
      }
    }
  }

  lemma NothingAcceptable(m: nat, dest: U64, cap: nat)
    ensures Acceptable([], m, dest, cap)
  {
  }

  /**
    Whatever numbers a payload consists of, it is accepted if and only if the counters can hold
    them and the counts they stand for leave everything past the last index empty; these are
    then the counts.
   */
  lemma PayloadMeaning(ts: seq<I64>, m: nat, cap: nat)
    requires m <= I64_MAX
    ensures Decoded(Bytes(ts), Zeros(m), 0, cap).Success? <==>
      && (forall k :: 0 <= k < |ts| ==> -0x8000_0000_0000_0000 < ts[k] <= cap)
      && |Expand(ts)| <= U64_MAX
      && (forall j :: m <= j < |Expand(ts)| ==> Expand(ts)[j] == 0)
    ensures Decoded(Bytes(ts), Zeros(m), 0, cap).Success? ==>
      forall i :: 0 <= i < m ==>
        Decoded(Bytes(ts), Zeros(m), 0, cap).value[i] == if i < |Expand(ts)| then Expand(ts)[i] else 0
  {
    hide Decoded, Bytes, Expand;
    if Acceptable(ts, m, 0, cap) {
      DecodedOnward(ts, [], Zeros(m), 0, cap);
      assert Bytes(ts) + [] == Bytes(ts);
      DecodedNothing(Overlaid(Zeros(m), 0, Expand(ts)), |Expand(ts)|, cap);
    } else {
      NotAcceptable(ts, Zeros(m), 0, cap);
    }
  }

  lemma DecodedNothing(c: seq<nat>, dest: U64, cap: nat)
    ensures Decoded([], c, dest, cap) == Success(c)
  {
  }

  /** The first number that cannot be taken in decides the error, whatever comes after it. */
  lemma FirstBadNumber(ts: seq<I64>, bad: I64, tail: seq<Byte>, m: nat, cap: nat)
    requires m <= I64_MAX
    requires Acceptable(ts, m, 0, cap) && !Acceptable(ts + [bad], m, 0, cap)
    ensures Decoded(Bytes(ts) + (TokenBytes(bad) + tail), Zeros(m), 0, cap) == Failure(
      if bad > cap then UnsuitableCounterType
      else if bad > 0 && |Expand(ts)| >= m then EncodedArrayTooLong
      else UsizeTypeTooSmall)
  {
    hide Decoded, Bytes, Acceptable, TokenBytes;
    var at := |Expand(ts)|;
    AcceptableBefore(ts, bad, m, 0, cap);
    var c := Overlaid(Zeros(m), 0, Expand(ts));
    DecodedOnward(ts, TokenBytes(bad) + tail, Zeros(m), 0, cap);
    DecodedStep(bad, tail, c, at, cap);
    PlaceOne(bad, c, at, cap);
  }

  lemma {:induction false} AcceptableBefore(ts: seq<I64>, t: I64, m: nat, dest: U64, cap: nat)
    requires Acceptable(ts, m, dest, cap)
    ensures dest + |Expand(ts)| <= U64_MAX
    ensures Acceptable(ts + [t], m, dest, cap) <==> Acceptable([t], m, dest + |Expand(ts)|, cap)
  {
    hide Acceptable, TokenSpan, Expansion;
    if ts == [] {
      assert ts + [t] == [t];
    } else {
      AcceptableNext(ts, m, dest, cap);
      AcceptableNext(ts + [t], m, dest, cap);
      ExpansionLength(ts[0]);
      assert (ts + [t])[1..] == ts[1..] + [t];
      assert (ts + [t])[0] == ts[0];
      AcceptableBefore(ts[1..], t, m, dest + TokenSpan(ts[0]), cap);
    }
  }

  /** A payload that ends inside a number is refused for that. */
  lemma EndsInsideNumber(ts: seq<I64>, t: I64, k: nat, m: nat, cap: nat)
    requires Acceptable(ts, m, 0, cap)
    requires 0 < k < |TokenBytes(t)|
    ensures Decoded(Bytes(ts) + TokenBytes(t)[..k], Zeros(m), 0, cap) == Failure(IoError)
  {
    hide Decoded, Bytes, Acceptable, VarintBytes, VarintValue, Place;
    var bytes := TokenBytes(t);
    AcceptableBefore(ts, 0, m, 0, cap);
    DecodedOnward(ts, bytes[..k], Zeros(m), 0, cap);
    VarintReadBack(ZigZagEncode(t), []);
    assert bytes + [] == bytes;
    VarintCut(bytes, k);
    NoNumber(bytes[..k], Overlaid(Zeros(m), 0, Expand(ts)), |Expand(ts)|, cap);
  }
}
