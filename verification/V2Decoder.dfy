/** Reading a histogram: header, payload in two loops, and the statistics rebuilt on the way. */
module V2Decoder {
  import opened Bits
  import opened Layouts
  import opened Counts
  import opened Stats
  import opened Ranges
  import opened Config
  import opened Varint
  import opened V2Format
  import opened Histograms
  import opened Wrappers

  /** Position in the counts while numbers are decoded; shared by both decode loops. */
  class DecodeLoopState {
    var destIndex: U64

    /** Everything before the position has been taken in, and nothing after it is filled yet. */
    ghost predicate Tracks(h: Histogram, restat: RestatState)
      reads this, h, restat
    {
      && AllAtMost(h.counts, h.counterMax)
      && (forall j :: destIndex <= j < |h.counts| ==> h.counts[j] == 0)
      && restat.Covers(h.counts, Min(destIndex, |h.counts|))
    }

    constructor ()
      ensures destIndex == 0
    {
      destIndex := 0;
    }

    /** Takes in one decoded number: a count for the current index, or a number of indexes to skip. */
    method OnDecodedNum(countOrZeros: I64, restat: RestatState, h: Histogram) returns (r: Outcome<DecodeError>)
      requires Tracks(h, restat)
      modifies this, restat, h`counts
      ensures var p := Place(old(h.counts), old(destIndex), countOrZeros, h.counterMax);
        && (r.Fail? <==> p.Failure?)
        && (r.Fail? ==> r.error == p.error)
        && (r.Pass? ==> h.counts == p.value.0 && destIndex == p.value.1 && Tracks(h, restat))
    {
      hide Prefix, RestatState.Covers;
      if countOrZeros < 0 {
        if countOrZeros < -0x7FFF_FFFF_FFFF_FFFF {
          return Fail(UsizeTypeTooSmall);
        }
        var zeroCount := -countOrZeros;
        if destIndex + zeroCount > U64_MAX {
          return Fail(UsizeTypeTooSmall);
        }
        restat.SkipZeros(h.counts, Min(destIndex, |h.counts|), Min(destIndex + zeroCount, |h.counts|));
        destIndex := destIndex + zeroCount;
      } else {
        if countOrZeros > h.counterMax {
          return Fail(UnsuitableCounterType);
        }
        ghost var c := h.counts;
        if countOrZeros > 0 {
          var ok := h.SetCountAtIndex(destIndex, countOrZeros);
          if !ok {
            return Fail(EncodedArrayTooLong);
          }
          CoversUpdate(restat, c, destIndex, countOrZeros);
          restat.OnNonZeroCount(h.counts, destIndex, countOrZeros);
        } else {
          restat.SkipZeros(h.counts, Min(destIndex, |h.counts|), Min(destIndex + 1, |h.counts|));
        }
        if destIndex == U64_MAX {
          return Fail(UsizeTypeTooSmall);
        }
        destIndex := destIndex + 1;
      }
      r := Pass;
    }
  }

  lemma CoversUpdate(restat: RestatState, c: seq<nat>, n: nat, x: nat)
    requires n < |c|
    requires restat.Covers(c, n)
    ensures restat.Covers(c[n := x], n)
  {
    PrefixUpdate(c, n, x, n);
  }

  lemma NextNumber(s: seq<Byte>, k: nat, c: seq<nat>, dest: U64, cap: nat, zz: U64)
    requires s != []
    requires VarintValue(s) == Some((zz, k))
    ensures var p := Place(c, dest, ZigZagDecode(zz), cap);
      Decoded(s, c, dest, cap) == if p.Failure? then Failure(p.error) else Decoded(s[k..], p.value.0, p.value.1, cap)
  {
    hide Place, VarintValue, ZigZagDecode;
  }

  /**
    Decodes a payload, with the fast reader while it cannot meet the end and with the careful
    one afterwards. Where one loop hands over to the other makes no difference.
   */
  method DecodePayload(payload: seq<Byte>, h: Histogram, state: DecodeLoopState, restat: RestatState)
    returns (r: Outcome<DecodeError>)
    requires state.Tracks(h, restat)
    modifies state, restat, h`counts
    ensures var d := Decoded(payload, old(h.counts), old(state.destIndex), h.counterMax);
      && (r.Fail? <==> d.Failure?)
      && (r.Fail? ==> r.error == d.error)
      && (r.Pass? ==> h.counts == d.value && state.Tracks(h, restat))
  {
    hide Decoded, Place, VarintValue, ZigZagDecode, DecodeLoopState.Tracks;
    var payloadIndex := 0;
    assert payload[0..] == payload;
    while payloadIndex < |payload| - 9
      invariant payloadIndex <= |payload|
      invariant state.Tracks(h, restat)
      invariant Decoded(payload, old(h.counts), old(state.destIndex), h.counterMax)
        == Decoded(payload[payloadIndex..], h.counts, state.destIndex, h.counterMax)
    {
      ghost var s := payload[payloadIndex..];
      assert payload[payloadIndex..payloadIndex + 9] == s[..9];
      var zz, bytesRead := VarintReadSlice(payload[payloadIndex..payloadIndex + 9]);
      VarintOfLonger(s, 9);
      NextNumber(s, bytesRead, h.counts, state.destIndex, h.counterMax, zz);
      payloadIndex := payloadIndex + bytesRead;
      assert s[bytesRead..] == payload[payloadIndex..];
      r := state.OnDecodedNum(ZigZagDecode(zz), restat, h);
      if r.Fail? {
        return;
      }
    }
    r := DecodeLeftovers(payload[payloadIndex..], h, state, restat);
  }

  method DecodeLeftovers(leftovers: seq<Byte>, h: Histogram, state: DecodeLoopState, restat: RestatState)
    returns (r: Outcome<DecodeError>)
    requires state.Tracks(h, restat)
    modifies state, restat, h`counts
    ensures var d := Decoded(leftovers, old(h.counts), old(state.destIndex), h.counterMax);
      && (r.Fail? <==> d.Failure?)
      && (r.Fail? ==> r.error == d.error)
      && (r.Pass? ==> h.counts == d.value && state.Tracks(h, restat))
  {
    hide Place, VarintValue, ZigZagDecode, DecodeLoopState.Tracks;
    var cursor := new ByteReader(leftovers);
    while cursor.pos < |leftovers|
      invariant fresh(cursor) && cursor.Valid() && cursor.data == leftovers
      invariant state.Tracks(h, restat)
      invariant Decoded(leftovers, old(h.counts), old(state.destIndex), h.counterMax)
        == Decoded(cursor.Rest(), h.counts, state.destIndex, h.counterMax)
      decreases |leftovers| - cursor.pos
    {
      ghost var s, at := cursor.Rest(), cursor.pos;
      var zz := VarintRead(cursor);
      if zz.None? {
        NoNumber(s, h.counts, state.destIndex, h.counterMax);
        return Fail(IoError);
      }
      assert cursor.Rest() == s[cursor.pos - at..];
      NextNumber(s, cursor.pos - at, h.counts, state.destIndex, h.counterMax, zz.value);
      r := state.OnDecodedNum(ZigZagDecode(zz.value), restat, h);
      if r.Fail? {
        return;
      }
    }
    assert cursor.Rest() == [];
    r := Pass;
  }

  /** Reads a big-endian number of `n` bytes. */
  method ReadNumber(reader: ByteReader, n: nat) returns (r: Result<nat, DecodeError>)
    requires reader.Valid()
    modifies reader
    ensures reader.Valid()
    ensures var f := ReadNum(old(reader.Rest()), n);
      && (r.Failure? <==> f.Failure?)
      && (r.Failure? ==> r.error == f.error)
      && (r.Success? ==> r.value == f.value.value < Pow2(8 * n) && reader.Rest() == f.value.rest)
  {
    hide Pow2;
    var s := reader.ReadExact(n);
    if s.None? {
      return Failure(IoError);
    }
    FromBigEndianBound(s.value);
    r := Success(FromBigEndian(s.value));
  }

  /** Reads the fields after the cookie and sets up an empty histogram for them. */
  method ReadHeader(reader: ByteReader, counterMax: nat) returns (r: Result<(Histogram, nat), DecodeError>)
    requires reader.Valid()
    requires 1 <= counterMax <= U64_MAX
    modifies reader
    ensures reader.Valid()
    ensures var d := DecodeHeader(old(reader.Rest()));
      && (r.Failure? <==> d.Failure?)
      && (r.Failure? ==> r.error == d.error)
      && (r.Success? ==>
            && reader.Rest() == d.value.rest
            && r.value.1 == d.value.length
            && fresh(r.value.0)
            && r.value.0.Valid()
            && r.value.0.low == d.value.low && r.value.0.high == d.value.high
            && r.value.0.sigfig == d.value.sigfig && r.value.0.layout == d.value.layout
            && r.value.0.counterMax == counterMax && !r.value.0.autoResize
            && r.value.0.counts == Zeros(|r.value.0.counts|)
            && r.value.0.maxValue == 0 && r.value.0.minNonZero == U64_MAX)
  {
    hide Pow2, ReadNum, LayoutFor, Layout.IndexFor, Layout.NumBins, Layout.BucketFor, Prefix, AllAtMost, NoneAfter;
    WordLimit();
    var length :- ReadNumber(reader, 4);
    var offset :- ReadNumber(reader, 4);
    if offset != 0 {
      return Failure(UnsupportedFeature);
    }
    var digits :- ReadNumber(reader, 4);
    if digits > 0xFF {
      return Failure(InvalidParameters);
    }
    var low :- ReadNumber(reader, 8);
    var high :- ReadNumber(reader, 8);
    var ratio :- ReadNumber(reader, 8);
    if ratio != F64_ONE {
      return Failure(UnsupportedFeature);
    }
    var h := Histogram.NewWithBounds(low, high, digits, counterMax);
    AcceptedBounds(low, high, digits);
    if h.Failure? {
      return Failure(InvalidParameters);
    }
    r := Success((h.value, length));
  }

  /** The histogram holds what the input says, and its statistics are those of its counts. */
  ghost predicate Rebuilt(h: Histogram, image: Image, cap: nat)
    reads h
  {
    && h.Valid() && h.Exact() && h.MinKnown()
    && h.low == image.low && h.high == image.high && h.sigfig == image.sigfig && h.layout == image.layout
    && h.counterMax == cap
    && h.counts == image.counts
    && h.total == Min(U64_MAX, Sum(image.counts))
    && !h.autoResize
  }

  lemma NothingTaken(state: DecodeLoopState, restat: RestatState, h: Histogram)
    requires h.counts == Zeros(|h.counts|)
    requires state.destIndex == 0
    requires restat.Covers(h.counts, 0)
    ensures state.Tracks(h, restat)
  {
    hide Prefix;
  }

  lemma AllTaken(state: DecodeLoopState, restat: RestatState, h: Histogram)
    requires state.Tracks(h, restat)
    ensures AllAtMost(h.counts, h.counterMax)
    ensures restat.Covers(h.counts, |h.counts|)
  {
    restat.SkipZeros(h.counts, Min(state.destIndex, |h.counts|), |h.counts|);
  }

  lemma EmptyIndex(h: Histogram)
    requires h.Valid()
    requires h.maxValue == 0
    ensures 1 <= h.bucketCount <= MaxBuckets(h.layout)
    ensures h.MaxIndex() == 0
  {
    hide LayoutFor, Layout.NumBins, Layout.BucketFor, Layout.IndexFor, Prefix, AllAtMost, NoneAfter, Pow2;
    BucketCount(h.layout, h.high);
    FirstClass(h.layout, 0);
  }

  /** Fills an empty histogram from a payload and rebuilds total and extremes. */
  method Fill(h: Histogram, payload: seq<Byte>) returns (r: Outcome<DecodeError>)
    requires h.Valid()
    requires h.counts == Zeros(|h.counts|)
    requires h.maxValue == 0 && h.minNonZero == U64_MAX
    modifies h`counts, h`total, h`maxValue, h`minNonZero
    ensures var d := Decoded(payload, old(h.counts), 0, h.counterMax);
      && (r.Fail? <==> d.Failure?)
      && (r.Fail? ==> r.error == d.error)
      && (r.Pass? ==>
            && h.Valid() && h.Exact() && h.MinKnown()
            && h.counts == d.value && h.total == Min(U64_MAX, Sum(h.counts)))
  {
    hide LayoutFor, Layout.IndexFor, Layout.NumBins, Layout.BucketFor, Decoded, ExactStats, ExactMinNonZero, Prefix;
    hide DecodeLoopState.Tracks, RestatState.Covers, AllAtMost, NoneAfter;
    EmptyIndex(h);
    var restat := new RestatState();
    var state := new DecodeLoopState();
    NothingTaken(state, restat, h);
    r := DecodePayload(payload, h, state, restat);
    if r.Pass? {
      AllTaken(state, restat, h);
      restat.UpdateHistogram(h, h.counts);
      ExactBound(h.layout, h.counts, h.maxValue, h.minNonZero);
    }
  }

  class Deserializer {
    /** Keeps its size between calls, so that it may be longer than the payload being read. */
    var payloadBuf: seq<Byte>

    constructor ()
    {
      payloadBuf := [];
    }

    method DeserV2(reader: ByteReader, counterMax: nat) returns (r: Result<Histogram, DecodeError>)
      requires reader.Valid()
      requires 1 <= counterMax <= U64_MAX
      modifies this, reader
      ensures reader.Valid()
      ensures var d := DecodeV2(old(reader.Rest()), counterMax);
        && (r.Failure? <==> d.Failure?)
        && (r.Failure? ==> r.error == d.error)
        && (r.Success? ==> fresh(r.value) && Rebuilt(r.value, d.value, counterMax) && reader.Rest() == d.value.rest)
    {
      hide Pow2, DecodeHeader, LayoutFor, Layout.IndexFor, Layout.NumBins, Layout.BucketFor, Decoded;
      hide ExactStats, ExactMinNonZero;
      var header :- ReadHeader(reader, counterMax);
      var h, payloadLen := header.0, header.1;
      if payloadLen > |payloadBuf| {
        payloadBuf := payloadBuf + seq(payloadLen - |payloadBuf|, _ => 0);
      }
      var payload := reader.ReadExact(payloadLen);
      if payload.None? {
        return Failure(IoError);
      }
      payloadBuf := payload.value + payloadBuf[payloadLen..];
      var payloadSlice := payloadBuf[..payloadLen];
      assert payloadSlice == payload.value;
      var outcome := Fill(h, payloadSlice);
      r := if outcome.Fail? then Failure(outcome.error) else Success(h);
    }

    /** The cookie decides the format. */
    method Deserialize(reader: ByteReader, counterMax: nat) returns (r: Result<Histogram, DecodeError>)
      requires reader.Valid()
      requires 1 <= counterMax <= U64_MAX
      modifies this, reader
      ensures reader.Valid()
      ensures var d := Decode(old(reader.Rest()), counterMax);
        && (r.Failure? <==> d.Failure?)
        && (r.Failure? ==> r.error == d.error)
        && (r.Success? ==> fresh(r.value) && Rebuilt(r.value, d.value, counterMax) && reader.Rest() == d.value.rest)
    {
      hide DecodeV2, Rebuilt, Pow2;
      var cookie :- ReadNumber(reader, 4);
      if cookie == V2_COOKIE {
        r := DeserV2(reader, counterMax);
      } else if cookie == V2_COMPRESSED_COOKIE {
        r := Failure(CompressedInput);
      } else {
        r := Failure(InvalidCookie);
      }
    }
  }
}
