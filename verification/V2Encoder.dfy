/** Writing a histogram: the counts go into a preallocated buffer behind a header with a length to be filled in. */
module V2Encoder {
  import opened Bits
  import opened Layouts
  import opened Counts
  import opened Stats
  import opened Ranges
  import opened Config
  import opened Varint
  import opened RunLengths
  import opened V2Format
  import opened Histograms
  import opened Wrappers

  datatype SerializeError = CountNotSerializable

  /** A sink that takes everything that is written to it. */
  class ByteWriter {
    var out: seq<Byte>

    constructor ()
      ensures out == []
    {
      out := [];
    }

    method WriteAll(s: seq<Byte>)
      modifies this
      ensures out == old(out) + s
    {
      out := out + s;
    }
  }

  lemma FirstToken(c: seq<nat>, i: nat, n: nat, z: int)
    requires i < n <= |c|
    requires z == if c[i] == 0 then ZeroRun(c, i, n) else 0
    ensures Token(c, i, n) == if z > 1 then -z else c[i]
    ensures i + TokenSpan(Token(c, i, n)) == (if z > 1 then i + z else i + 1) <= n
    ensures Tokens(c, i, n) == [Token(c, i, n)] + Tokens(c, i + TokenSpan(Token(c, i, n)), n)
  {
    SpanInRange(c, i, n);
  }

  lemma OneMoreZero(c: seq<nat>, start: nat, i: nat, n: nat)
    requires start <= i < n <= |c|
    ensures c[i] == 0 ==> ZeroRun(c, i, n) == 1 + ZeroRun(c, i + 1, n)
    ensures c[i] != 0 ==> ZeroRun(c, i, n) == 0
    ensures ZeroRun(c, n, n) == 0
  {
  }

  lemma EncodedStart(c: seq<nat>, n: nat)
    requires n <= |c|
    ensures Tokens(c, 0, n) == [] + Tokens(c, 0, n)
    ensures Bytes([]) == []
    ensures Serializable(c, 0)
    ensures Tokens(c, n, n) == []
  {
  }

  lemma EncodedNext(c: seq<nat>, i: nat, next: nat, n: nat, done: seq<I64>, t: I64)
    requires i < next <= n <= |c|
    requires Tokens(c, 0, n) == done + Tokens(c, i, n)
    requires Tokens(c, i, n) == [t] + Tokens(c, next, n)
    ensures Tokens(c, 0, n) == (done + [t]) + Tokens(c, next, n)
    ensures Bytes(done + [t]) == Bytes(done) + VarintBytes(ZigZagEncode(t))
  {
    hide Tokens, VarintBytes, ZigZagEncode, Bytes;
    BytesAppend(done, t);
    assert (done + [t]) + Tokens(c, next, n) == done + ([t] + Tokens(c, next, n));
  }

  /** A write at the end of what has been written extends it. */
  lemma WroteBehind(was: seq<Byte>, now: seq<Byte>, at: nat, m: nat, n: nat, input: U64)
    requires at + m <= |was|
    requires WroteAll(was, now, at + m, n, input)
    ensures |now| == |was| && at + m + n <= |now|
    ensures now[..at] == was[..at]
    ensures now[at..at + m + n] == was[at..at + m] + VarintBytes(input)
    ensures n == |VarintBytes(input)|
  {
    assert now[..at] == now[..at + m][..at];
    assert now[at..at + m] == now[..at + m][at..];
    assert was[at..at + m] == was[..at + m][at..];
    assert now[at..at + m + n] == now[at..at + m] + now[at + m..at + m + n];
  }

  /**
    Takes the next token off the counts: one count, or a run of zeros. A count beyond the signed
    range is no token.
   */
  method TakeToken(c: seq<nat>, first: nat, indexLimit: nat) returns (t: Option<I64>, index: nat)
    requires first <= indexLimit < |c| <= 65 * 0x2_0000
    ensures t == None <==> c[first] > I64_MAX
    ensures t.Some? ==>
      && t.value == Token(c, first, indexLimit + 1)
      && index == first + TokenSpan(t.value) <= indexLimit + 1
      && (forall j :: first < j < index ==> c[j] == 0)
      && Tokens(c, first, indexLimit + 1) == [t.value] + Tokens(c, index, indexLimit + 1)
  {
    hide Tokens, Token, TokenSpan, ZeroRun;
    ghost var n := indexLimit + 1;
    var count := c[first];
    index := first + 1;
    var zeroCount := 0;
    OneMoreZero(c, first, first, n);
    if count == 0 {
      zeroCount := 1;
      while index <= indexLimit && c[index] == 0
        invariant first < index <= n
        invariant zeroCount == index - first
        invariant forall j :: first <= j < index ==> c[j] == 0
        invariant ZeroRun(c, first, n) == zeroCount + ZeroRun(c, index, n)
      {
        OneMoreZero(c, first, index, n);
        zeroCount := zeroCount + 1;
        index := index + 1;
      }
      OneMoreZero(c, first, Min(index, indexLimit), n);
    }
    FirstToken(c, first, n, zeroCount);
    if zeroCount > 1 {
      t := Some(-zeroCount);
    } else {
      if count > I64_MAX {
        return None, index;
      }
      t := Some(count);
    }
  }

  lemma BufferAround(buf: array<Byte>, at: nat, m: nat)
    requires at + m <= buf.Length
    ensures buf[..][..at] == buf[..at]
    ensures buf[..][at..at + m] == buf[at..at + m]
  {
  }

  lemma TakenFit(c: seq<nat>, first: nat, next: nat)
    requires first < next <= |c|
    requires Serializable(c, first)
    requires c[first] <= I64_MAX
    requires forall j :: first < j < next ==> c[j] == 0
    ensures Serializable(c, next)
  {
  }

  lemma EncodedEnd(c: seq<nat>, n: nat, done: seq<I64>)
    requires n <= |c| <= 65 * 0x2_0000
    requires Serializable(c, n)
    requires Tokens(c, 0, n) == done + Tokens(c, n, n)
    ensures Bytes(done) == EncodedCounts(c, n)
  {
    assert Tokens(c, 0, n) == done;
  }

  lemma Unserializable(c: seq<nat>, i: nat, n: nat)
    requires i < n <= |c|
    requires c[i] > I64_MAX
    ensures !Serializable(c, n)
  {
  }

  lemma TrackedLimit(h: Histogram)
    requires h.Valid()
    ensures h.layout.Valid()
    ensures h.layout.IndexFor(h.MaxRecorded()) == h.MaxIndex() < |h.counts| <= 65 * 0x2_0000
  {
    hide Layout.IndexFor, Layout.BucketFor, Layout.NumBins, LayoutFor, ReportedMax, Prefix, NoneAfter, AllAtMost;
    BucketCount(h.layout, h.high);
    BinsFitInWord(h.layout, h.bucketCount);
    ReportedMaxIndex(h.layout, h.maxValue);
  }

  /**
    Encodes the counts up to the largest recorded index into `buf` from position `at` on. It
    fails exactly if one of them exceeds the signed 64-bit range; nine bytes for each index are
    always enough room.
   */
  method EncodeCounts(h: Histogram, buf: array<Byte>, at: nat) returns (r: Result<nat, SerializeError>)
    requires h.Valid()
    requires at + 9 * (h.MaxIndex() + 1) <= buf.Length
    modifies buf
    ensures buf[..at] == old(buf[..at])
    ensures r.Success? <==> Serializable(h.counts, h.MaxIndex() + 1)
    ensures r.Success? ==>
      && h.MaxIndex() < |h.counts| <= 65 * 0x2_0000
      && r.value <= 9 * (h.MaxIndex() + 1)
      && buf[at..at + r.value] == EncodedCounts(h.counts, h.MaxIndex() + 1)
  {
    hide *;
    TrackedLimit(h);
    ghost var before := buf[..];
    var indexLimit := h.layout.IndexFor(h.MaxRecorded());
    ghost var n := indexLimit + 1;
    var index, bytesWritten := 0, 0;
    ghost var done: seq<I64> := [];
    EncodedStart(h.counts, n);
    while index <= indexLimit
      invariant 0 <= index <= n
      invariant Serializable(h.counts, index)
      invariant |done| <= index
      invariant Tokens(h.counts, 0, n) == done + Tokens(h.counts, index, n)
      invariant bytesWritten == |Bytes(done)| && at + bytesWritten <= buf.Length
      invariant buf[..][..at] == before[..at]
      invariant buf[..][at..at + bytesWritten] == Bytes(done)
    {
      ghost var first := index;
      var t;
      t, index := TakeToken(h.counts, index, indexLimit);
      if t.None? {
        Unserializable(h.counts, first, n);
        BufferAround(buf, at, 0);
        return Failure(CountNotSerializable);
      }
      TakenFit(h.counts, first, index);
      EncodedNext(h.counts, first, index, n, done, t.value);
      var zz := ZigZagEncode(t.value);
      ghost var was := buf[..];
      var written := VarintWrite(zz, buf, at + bytesWritten);
      WroteBehind(was, buf[..], at, bytesWritten, written, zz);
      bytesWritten := bytesWritten + written;
      done := done + [t.value];
    }
    EncodedEnd(h.counts, n, done);
    BufferAround(buf, at, bytesWritten);
    r := Success(bytesWritten);
  }

  // ---- the header ----

  method PutBytes(buf: array<Byte>, at: nat, s: seq<Byte>)
    requires at + |s| <= buf.Length
    modifies buf
    ensures buf[..at] == old(buf[..at])
    ensures buf[at..at + |s|] == s
    ensures buf[at + |s|..] == old(buf[at + |s|..])
  {
    forall i | 0 <= i < |s| {
      buf[at + i] := s[i];
    }
  }

  /** Appends at a position and leaves what was written before. */
  method Append(buf: array<Byte>, at: nat, s: seq<Byte>) returns (next: nat)
    requires at + |s| <= buf.Length
    modifies buf
    ensures next == at + |s|
    ensures buf[..next] == old(buf[..at]) + s
  {
    PutBytes(buf, at, s);
    next := at + |s|;
  }

  /** The header with its length still to be filled in. */
  method PutHeader(buf: array<Byte>, low: U64, high: U64, sigfig: nat)
    requires buf.Length >= V2_HEADER_SIZE
    modifies buf
    ensures buf[..V2_HEADER_SIZE] == BigEndian(V2_COOKIE, 4) + BigEndian(0, 4) + FieldsBytes(low, high, sigfig)
  {
    hide BigEndian;
    var at := Append(buf, 0, BigEndian(V2_COOKIE, 4));
    at := Append(buf, at, BigEndian(0, 4));
    at := Append(buf, at, BigEndian(0, 4));
    at := Append(buf, at, BigEndian(sigfig, 4));
    at := Append(buf, at, BigEndian(low, 8));
    at := Append(buf, at, BigEndian(high, 8));
    at := Append(buf, at, BigEndian(F64_ONE, 8));
  }

  /** Fills in the length once it is known. */
  method PutLength(buf: array<Byte>, length: nat, total: nat)
    requires 8 <= total <= buf.Length
    modifies buf
    ensures buf[..total] == old(buf[..4]) + BigEndian(length, 4) + old(buf[8..total])
  {
    hide BigEndian;
    ghost var was := buf[..total];
    PutBytes(buf, 4, BigEndian(length, 4));
    assert buf[8..total] == buf[8..][..total - 8] == was[8..];
    assert buf[..total] == buf[..4] + buf[4..8] + buf[8..total];
  }

  lemma LengthFilledIn(was: seq<Byte>, low: U64, high: U64, sigfig: nat, c: seq<nat>, n: nat)
    requires n <= |c| && n <= I64_MAX
    requires Serializable(c, n)
    requires was == BigEndian(V2_COOKIE, 4) + BigEndian(0, 4) + FieldsBytes(low, high, sigfig) + EncodedCounts(c, n)
    ensures was[..4] + BigEndian(|EncodedCounts(c, n)|, 4) + was[8..] == V2Bytes(low, high, sigfig, c, n)
  {
    hide BigEndian, EncodedCounts, FieldsBytes;
    assert was[..4] == BigEndian(V2_COOKIE, 4);
    assert was[8..] == FieldsBytes(low, high, sigfig) + EncodedCounts(c, n);
  }

  lemma BufferParts(buf: array<Byte>, header: nat, total: nat)
    requires 8 <= header <= total <= buf.Length
    ensures buf[..total] == buf[..header] + buf[header..total]
    ensures buf[..4] == buf[..total][..4] && buf[8..total] == buf[..total][8..]
  {
  }

  class V2Serializer {
    var buf: array<Byte>

    constructor ()
      ensures fresh(buf)
    {
      buf := new Byte[0];
    }

    /** Writes a histogram, or nothing at all if one of its counts cannot be represented. */
    method Serialize(h: Histogram, writer: ByteWriter) returns (r: Result<nat, SerializeError>)
      requires h.Valid()
      modifies this, writer
      ensures fresh(buf)
      ensures r.Success? <==> Serializable(h.counts, h.MaxIndex() + 1)
      ensures r.Failure? ==> writer.out == old(writer.out)
      ensures r.Success? ==>
        && h.MaxIndex() < |h.counts| <= 65 * 0x2_0000
        && r.value == V2_HEADER_SIZE + |EncodedCounts(h.counts, h.MaxIndex() + 1)| <=
          V2_HEADER_SIZE + 9 * (h.MaxIndex() + 1)
        && writer.out == old(writer.out) + V2Bytes(h.low, h.high, h.sigfig, h.counts, h.MaxIndex() + 1)
    {
      hide Layout.IndexFor, Layout.BucketFor, Layout.NumBins, LayoutFor, ReportedMax, Prefix, NoneAfter, AllAtMost;
      hide EncodedCounts, BigEndian, FieldsBytes, Serializable, V2Bytes;
      TrackedLimit(h);
      var maxSize := 9 * (h.layout.IndexFor(h.MaxRecorded()) + 1) + V2_HEADER_SIZE;
      buf := new Byte[maxSize];
      PutHeader(buf, h.low, h.high, h.sigfig);
      var encoded := EncodeCounts(h, buf, V2_HEADER_SIZE);
      if encoded.Failure? {
        return Failure(encoded.error);
      }
      var totalLen := V2_HEADER_SIZE + encoded.value;
      BufferParts(buf, V2_HEADER_SIZE, totalLen);
      LengthFilledIn(buf[..totalLen], h.low, h.high, h.sigfig, h.counts, h.MaxIndex() + 1);
      PutLength(buf, encoded.value, totalLen);
      writer.WriteAll(buf[..totalLen]);
      r := Success(totalLen);
    }
  }
}
