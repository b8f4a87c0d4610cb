/** Histograms written one after the other and read back with one reused deserializer. */
module V2RoundTrips {
  import opened Bits
  import opened Layouts
  import opened Counts
  import opened Stats
  import opened Config
  import opened Varint
  import opened V2Format
  import opened V2Inputs
  import opened V2Encoder
  import opened V2Decoder
  import opened Histograms
  import opened Wrappers

  /** What a histogram is written from. */
  datatype Written = Written(low: U64, high: U64, sigfig: nat, layout: Layout, counts: seq<nat>, n: nat) {
    /** Readable again by a reader whose counters hold up to `cap`. */
    ghost predicate Storable(cap: nat) {
      && Configured(low, sigfig, layout)
      && 2 * low <= high
      && |counts| == layout.NumBins(layout.BucketFor(high) + 1)
      && n <= |counts| <= 65 * 0x2_0000
      && (forall j :: n <= j < |counts| ==> counts[j] == 0)
      && Serializable(counts, n)
      && AllAtMost(counts, cap)
    }

    ghost function Bytes(cap: nat): seq<Byte>
      requires Storable(cap)
    {
      V2Bytes(low, high, sigfig, counts, n)
    }

    ghost function Image(rest: seq<Byte>): V2Format.Image {
      V2Format.Image(low, high, sigfig, layout, counts, rest)
    }
  }

  ghost function Snapshot(h: Histogram): Written
    requires h.Valid()
    reads h
  {
    Written(h.low, h.high, h.sigfig, h.layout, h.counts, h.MaxIndex() + 1)
  }

  lemma SnapshotStorable(h: Histogram, cap: nat)
    requires h.Valid()
    requires Serializable(h.counts, |h.counts|)
    requires AllAtMost(h.counts, cap)
    ensures Snapshot(h).Storable(cap)
    ensures Serializable(h.counts, h.MaxIndex() + 1)
  {
    hide LayoutFor, Layout.IndexFor, Layout.NumBins, Layout.BucketFor, Prefix, Serializable, NoneAfter, AllAtMost;
    TrackedLimit(h);
    NothingAfter(h.counts, h.MaxIndex());
  }

  lemma NothingAfter(c: seq<nat>, m: nat)
    requires m < |c|
    requires NoneAfter(c, m)
    requires Serializable(c, |c|)
    ensures forall j :: m + 1 <= j < |c| ==> c[j] == 0
    ensures Serializable(c, m + 1)
  {
  }

  /** Several histograms, one after the other. */
  ghost function Archive(ws: seq<Written>, cap: nat): seq<Byte>
    requires forall i :: 0 <= i < |ws| ==> ws[i].Storable(cap)
  {
    if ws == [] then [] else ws[0].Bytes(cap) + Archive(ws[1..], cap)
  }

  lemma {:induction false} ArchiveAppend(ws: seq<Written>, w: Written, cap: nat)
    requires forall i :: 0 <= i < |ws| ==> ws[i].Storable(cap)
    requires w.Storable(cap)
    ensures forall i :: 0 <= i <= |ws| ==> (ws + [w])[i].Storable(cap)
    ensures Archive(ws + [w], cap) == Archive(ws, cap) + w.Bytes(cap)
  {
    hide Written.Storable, Written.Bytes;
    if ws == [] {
      assert ws + [w] == [w];
    } else {
      ArchiveAppend(ws[1..], w, cap);
      assert (ws + [w])[1..] == ws[1..] + [w];
    }
  }

  lemma DecodedNext(ws: seq<Written>, cap: nat)
    requires ws != []
    requires forall i :: 0 <= i < |ws| ==> ws[i].Storable(cap)
    ensures Decode(Archive(ws, cap), cap) == Success(ws[0].Image(Archive(ws[1..], cap)))
  {
    hide LayoutFor, Layout.NumBins, Layout.BucketFor, Decode, V2Bytes;
    var w := ws[0];
    V2RoundTrip(w.low, w.high, w.sigfig, w.layout, w.counts, w.n, Archive(ws[1..], cap), cap);
  }

  /** Same bounds, precision and counts; total and extremes recomputed from the counts. */
  ghost predicate Restores(w: Written, r: Histogram, cap: nat)
    reads r
  {
    && r.Valid() && r.Exact() && r.MinKnown()
    && r.low == w.low && r.high == w.high && r.sigfig == w.sigfig && r.layout == w.layout
    && r.counts == w.counts
    && r.counterMax == cap
    && r.total == Min(U64_MAX, Sum(w.counts))
  }

  /** Writes one histogram behind those already written. */
  method WriteNext(h: Histogram, serializer: V2Serializer, writer: ByteWriter, ghost ws: seq<Written>, ghost cap: nat)
    requires h.Valid() && Serializable(h.counts, |h.counts|) && AllAtMost(h.counts, cap)
    requires forall i :: 0 <= i < |ws| ==> ws[i].Storable(cap)
    requires writer.out == Archive(ws, cap)
    modifies serializer, writer
    ensures Snapshot(h) == old(Snapshot(h)) && Snapshot(h).Storable(cap)
    ensures forall i :: 0 <= i <= |ws| ==> (ws + [Snapshot(h)])[i].Storable(cap)
    ensures writer.out == Archive(ws + [Snapshot(h)], cap)
  {
    hide *;
    SnapshotStorable(h, cap);
    SnapshotBytes(h, cap);
    ArchiveAppend(ws, Snapshot(h), cap);
    var n := serializer.Serialize(h, writer);
  }

  /** Writes all histograms into one stream. */
  method WriteAll(hs: seq<Histogram>, ghost cap: nat) returns (out: seq<Byte>, ghost ws: seq<Written>)
    requires forall i :: 0 <= i < |hs| ==>
      hs[i].Valid() && Serializable(hs[i].counts, |hs[i].counts|) && AllAtMost(hs[i].counts, cap)
    ensures |ws| == |hs|
    ensures forall i :: 0 <= i < |hs| ==> ws[i] == Snapshot(hs[i]) && ws[i].Storable(cap)
    ensures out == Archive(ws, cap)
  {
    hide Written.Storable, Histogram.Valid, Snapshot, Serializable, AllAtMost;
    var serializer := new V2Serializer();
    var writer := new ByteWriter();
    ws := [];
    for k := 0 to |hs|
      invariant fresh(writer) && fresh(serializer)
      invariant |ws| == k
      invariant forall i :: 0 <= i < k ==> ws[i] == Snapshot(hs[i]) && ws[i].Storable(cap)
      invariant writer.out == Archive(ws, cap)
    {
      WriteNext(hs[k], serializer, writer, ws, cap);
      ws := ws + [Snapshot(hs[k])];
    }
    out := writer.out;
  }

  lemma SnapshotBytes(h: Histogram, cap: nat)
    requires h.Valid()
    requires Snapshot(h).Storable(cap)
    ensures h.MaxIndex() < |h.counts| <= 65 * 0x2_0000
    ensures Serializable(h.counts, h.MaxIndex() + 1)
    ensures Snapshot(h).Bytes(cap) == V2Bytes(h.low, h.high, h.sigfig, h.counts, h.MaxIndex() + 1)
  {
    hide LayoutFor, Layout.IndexFor, Layout.NumBins, Layout.BucketFor, Prefix, Serializable, NoneAfter, AllAtMost;
    hide V2Bytes;
  }

  /** Reads the first of the histograms still to come. */
  method ReadNext(reader: ByteReader, deserializer: Deserializer, cap: nat, ghost ws: seq<Written>)
    returns (r: Histogram)
    requires reader.Valid()
    requires 1 <= cap <= U64_MAX
    requires ws != []
    requires forall i :: 0 <= i < |ws| ==> ws[i].Storable(cap)
    requires reader.Rest() == Archive(ws, cap)
    modifies reader, deserializer
    ensures reader.Valid()
    ensures reader.Rest() == Archive(ws[1..], cap)
    ensures fresh(r) && Restores(ws[0], r, cap)
  {
    hide Written.Storable, Decode, Archive, Restores, Rebuilt;
    DecodedNext(ws, cap);
    var decoded := deserializer.Deserialize(reader, cap);
    r := decoded.value;
    RebuiltRestores(r, ws[0], Archive(ws[1..], cap), cap);
  }

  /** Reads all histograms from one stream, which is then used up. */
  method ReadAll(out: seq<Byte>, cap: nat, ghost ws: seq<Written>) returns (rs: seq<Histogram>)
    requires 1 <= cap <= U64_MAX
    requires forall i :: 0 <= i < |ws| ==> ws[i].Storable(cap)
    requires out == Archive(ws, cap)
    ensures |rs| == |ws|
    ensures forall i :: 0 <= i < |rs| ==> Restores(ws[i], rs[i], cap)
  {
    hide *;
    var deserializer := new Deserializer();
    var reader := new ByteReader(out);
    rs := [];
    ghost var k := 0;
    assert ws[0..] == ws;
    ArchiveBytes(ws, cap);
    while reader.pos < |reader.data|
      invariant fresh(reader) && fresh(deserializer) && reader.Valid()
      invariant |rs| == k <= |ws|
      invariant forall i :: 0 <= i < k ==> Restores(ws[i], rs[i], cap)
      invariant reader.Rest() == Archive(ws[k..], cap)
      decreases |ws| - k
    {
      AtEnd(reader);
      ArchiveBytes(ws[k..], cap);
      var r := ReadNext(reader, deserializer, cap, ws[k..]);
      assert ws[k..][1..] == ws[k + 1..];
      rs := rs + [r];
      k := k + 1;
    }
    AtEnd(reader);
    ArchiveBytes(ws[k..], cap);
  }

  lemma AtEnd(reader: ByteReader)
    requires reader.Valid()
    ensures reader.Rest() == [] <==> reader.pos >= |reader.data|
  {
  }

  lemma ArchiveBytes(ws: seq<Written>, cap: nat)
    requires forall i :: 0 <= i < |ws| ==> ws[i].Storable(cap)
    ensures Archive(ws, cap) == [] <==> ws == []
  {
    hide Written.Storable;
  }

  lemma RebuiltRestores(r: Histogram, w: Written, rest: seq<Byte>, cap: nat)
    requires Rebuilt(r, w.Image(rest), cap)
    ensures Restores(w, r, cap)
  {
    hide Histogram.Valid, Histogram.Exact, Prefix;
  }

  /**
    Histograms that are written to one stream come back in order, each with its bounds, its
    precision and its counts, whatever the reader's buffer held before.
   */
  method ArchiveAndRestore(hs: seq<Histogram>, cap: nat) returns (rs: seq<Histogram>)
    requires 1 <= cap <= U64_MAX
    requires forall i :: 0 <= i < |hs| ==>
      hs[i].Valid() && Serializable(hs[i].counts, |hs[i].counts|) && AllAtMost(hs[i].counts, cap)
    ensures |rs| == |hs|
    ensures forall i :: 0 <= i < |hs| ==> Restores(Snapshot(hs[i]), rs[i], cap)
  {
    hide Written.Storable, Restores, Histogram.Valid, Snapshot, Serializable, AllAtMost;
    var out, ws := WriteAll(hs, cap);
    rs := ReadAll(out, cap, ws);
  }

  lemma CutOffOrWhole(h: Histogram, k: nat, cap: nat)
    requires h.Valid() && Serializable(h.counts, |h.counts|)
    ensures h.MaxIndex() < |h.counts| <= 65 * 0x2_0000
    ensures Serializable(h.counts, h.MaxIndex() + 1)
    ensures
      var s := V2Bytes(h.low, h.high, h.sigfig, h.counts, h.MaxIndex() + 1);
      && (k < |s| ==> Decode(s[..k], cap) == Failure(IoError))
      && Decode(s, cap) ==
        if AllAtMost(h.counts, cap) then Success(Image(h.low, h.high, h.sigfig, h.layout, h.counts, []))
        else Failure(UnsuitableCounterType)
  {
    hide LayoutFor, Layout.IndexFor, Layout.NumBins, Layout.BucketFor, Prefix, Serializable, NoneAfter, V2Bytes, Decode;
    TrackedLimit(h);
    NothingAfter(h.counts, h.MaxIndex());
    var n := h.MaxIndex() + 1;
    var s := V2Bytes(h.low, h.high, h.sigfig, h.counts, n);
    V2RoundTrip(h.low, h.high, h.sigfig, h.layout, h.counts, n, [], cap);
    assert s + [] == s;
    if k < |s| {
      NoPartIsAccepted(h.low, h.high, h.sigfig, h.layout, h.counts, n, k, cap);
    }
  }

  method WriteOne(h: Histogram) returns (out: seq<Byte>)
    requires h.Valid() && Serializable(h.counts, h.MaxIndex() + 1)
    ensures h.MaxIndex() < |h.counts| <= 65 * 0x2_0000
    ensures out == V2Bytes(h.low, h.high, h.sigfig, h.counts, h.MaxIndex() + 1)
  {
    hide *;
    var serializer := new V2Serializer();
    var writer := new ByteWriter();
    var n := serializer.Serialize(h, writer);
    out := writer.out;
  }

  method ReadOne(s: seq<Byte>, cap: nat) returns (r: Result<Histogram, DecodeError>)
    requires 1 <= cap <= U64_MAX
    ensures var d := Decode(s, cap);
      && (r.Failure? <==> d.Failure?)
      && (r.Failure? ==> r.error == d.error)
      && (r.Success? ==> Rebuilt(r.value, d.value, cap))
  {
    hide Decode, Rebuilt;
    var reader := new ByteReader(s);
    var deserializer := new Deserializer();
    r := deserializer.Deserialize(reader, cap);
  }

  /**
    A stream that ends after `k` bytes of a written histogram is accepted only if these are all of
    them and the reader's counters can hold the counts.
   */
  method WriteAndCutOff(h: Histogram, k: nat, cap: nat) returns (out: seq<Byte>, r: Result<Histogram, DecodeError>)
    requires h.Valid() && Serializable(h.counts, |h.counts|)
    requires 1 <= cap <= U64_MAX
    ensures h.MaxIndex() < |h.counts| <= 65 * 0x2_0000 && Serializable(h.counts, h.MaxIndex() + 1)
    ensures out == V2Bytes(h.low, h.high, h.sigfig, h.counts, h.MaxIndex() + 1)
    ensures k < |out| ==> r == Failure(IoError)
    ensures k >= |out| && !AllAtMost(h.counts, cap) ==> r == Failure(UnsuitableCounterType)
    ensures k >= |out| && AllAtMost(h.counts, cap) ==> r.Success? && Restores(Snapshot(h), r.value, cap)
  {
    hide *;
    CutOffOrWhole(h, k, cap);
    out := WriteOne(h);
    assert out[..|out|] == out;
    r := ReadOne(out[..if k < |out| then k else |out|], cap);
    if r.Success? {
      WholeRestores(h, r.value, cap);
    }
  }

  lemma WholeRestores(h: Histogram, r: Histogram, cap: nat)
    requires h.Valid()
    requires Rebuilt(r, Image(h.low, h.high, h.sigfig, h.layout, h.counts, []), cap)
    ensures Restores(Snapshot(h), r, cap)
  {
    hide LayoutFor, Layout.IndexFor, Layout.NumBins, Layout.BucketFor, Prefix, NoneAfter, AllAtMost, ExactStats;
  }
}
