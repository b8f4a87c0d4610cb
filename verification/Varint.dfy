/**
  Numbers on the wire: zig-zag maps signed to unsigned words, and LEB128-64b9B writes a word in
  one to nine bytes, seven bits a byte except for a ninth byte that carries eight.
 */
module Varint {
  import opened Bits
  import opened Wrappers

  type I64 = x: int | -0x8000_0000_0000_0000 <= x <= 0x7FFF_FFFF_FFFF_FFFF

  type Byte = x: int | 0 <= x <= 0xFF

  // ---- zig-zag ----

  /** Two's complement. */
  function Word(x: I64): U64 {
    if x < 0 then x + 0x1_0000_0000_0000_0000 else x
  }

  function Signed(w: U64): I64 {
    if w > 0x7FFF_FFFF_FFFF_FFFF then w - 0x1_0000_0000_0000_0000 else w
  }

  lemma XorOfWords(a: U64, b: U64)
    requires b == 0 || b == U64_MAX
    ensures BitXor(a, b) <= U64_MAX
    ensures BitXor(a, b) == if b == 0 then a else U64_MAX - a
  {
    Pow2Values();
    XorAllOnes(a, 64);
  }

  /** Shift left by one, flipped if the sign bit is set. */
  function ZigZagEncode(num: I64): U64 {
    var shifted := 2 * Word(num) % 0x1_0000_0000_0000_0000;
    var sign := if num < 0 then U64_MAX else 0;
    XorOfWords(shifted, sign);
    BitXor(shifted, sign)
  }

  function ZigZagDecode(encoded: U64): I64 {
    LowestBit(encoded);
    var sign := Word(0 - BitAnd(encoded, 1));
    XorOfWords(Shr(encoded, 1), sign);
    Signed(BitXor(Shr(encoded, 1), sign))
  }

  lemma LowestBit(x: nat)
    ensures BitAnd(x, 1) == x % 2
    ensures Shr(x, 1) == x / 2
  {
    AndLowMask(x, 1);
  }

  /** Numbers of small magnitude get small codes, whatever their sign. */
  lemma ZigZagMeaning(num: I64)
    ensures ZigZagEncode(num) == if num < 0 then -2 * num - 1 else 2 * num
  {
    hide BitXor;
    XorOfWords(2 * Word(num) % 0x1_0000_0000_0000_0000, if num < 0 then U64_MAX else 0);
  }

  lemma ZigZagDecodeMeaning(encoded: U64)
    ensures ZigZagDecode(encoded) == if encoded % 2 == 1 then -(encoded / 2) - 1 else encoded / 2
  {
    hide BitXor, BitAnd, Shr;
    LowestBit(encoded);
    XorOfWords(encoded / 2, if encoded % 2 == 1 then U64_MAX else 0);
  }

  lemma ZigZagRoundTrip(num: I64)
    ensures ZigZagDecode(ZigZagEncode(num)) == num
  {
    hide ZigZagEncode, ZigZagDecode;
    ZigZagMeaning(num);
    ZigZagDecodeMeaning(ZigZagEncode(num));
  }

  lemma ZigZagOnto(encoded: U64)
    ensures ZigZagEncode(ZigZagDecode(encoded)) == encoded
  {
    hide ZigZagEncode, ZigZagDecode;
    ZigZagDecodeMeaning(encoded);
    ZigZagMeaning(ZigZagDecode(encoded));
  }

  // ---- the format ----

  /** The low seven bits of a number, and what is above them. */
  function Low7(x: nat): (r: nat)
    ensures r < 0x80
    ensures x < 0x80 ==> r == x
    ensures 0x80 <= x < 0x100 ==> r == x - 0x80
  {
    x % 0x80
  }

  function High7(x: nat): (q: nat)
    ensures x == 0x80 * q + Low7(x)
    ensures q == 0 <==> x < 0x80
  {
    x / 0x80
  }

  lemma Halves(q: nat, r: nat)
    requires r < 0x80
    ensures High7(r + 0x80 * q) == q
    ensures Low7(r + 0x80 * q) == r
  {
  }

  lemma CutByte(x: nat)
    ensures Low7(x % 0x100) == Low7(x)
  {
    hide Low7, High7;
    var q, r := x / 0x100, x % 0x100;
    Halves(High7(r) + 2 * q, Low7(r));
  }

  lemma WordLimit()
    ensures Pow2(64) == U64_MAX + 1
  {
    Pow2Values();
  }

  /** What is left of a word after `n` bytes, in the format. */
  function BytesFrom(v: U64, n: nat): (s: seq<Byte>)
    requires n <= 8
    requires v < Pow2(64 - 7 * n)
    ensures 1 <= |s| <= 9 - n
    decreases 8 - n
  {
    if n == 8 then
      Pow2Small();
      [v]
    else if v < 0x80 then [v]
    else
      DropChunk(v, n);
      [0x80 + Low7(v)] + BytesFrom(High7(v), n + 1)
  }

  lemma SevenBits(n: nat)
    ensures Pow2(n + 7) == 0x80 * Pow2(n)
  {
    hide Pow2, Low7, High7;
    Pow2Add(n, 7);
    ShlIsProduct(Pow2(n), 7);
    Pow2Small();
  }

  lemma DropChunk(v: nat, n: nat)
    requires n < 8
    requires v < Pow2(64 - 7 * n)
    ensures High7(v) < Pow2(64 - 7 * (n + 1))
  {
    hide Pow2, Low7, High7;
    SevenBits(64 - 7 * (n + 1));
  }

  function VarintBytes(v: U64): (s: seq<Byte>)
    ensures 1 <= |s| <= 9
  {
    WordLimit();
    BytesFrom(v, 0)
  }

  /** The number at the front of `s` when `n` of its bytes have been read, with the bytes it takes. */
  function ValueFrom(s: seq<Byte>, n: nat): (r: Option<(nat, nat)>)
    requires n <= 8
    ensures r.Some? ==> 1 <= r.value.1 <= |s| && r.value.1 <= 9 - n
    ensures r.Some? ==> r.value.0 < Pow2(64 - 7 * n)
    decreases 8 - n
  {
    Pow2Small();
    if s == [] then None
    else if n == 8 then Some((s[0], 1))
    else
      FirstChunkFits(n);
      if s[0] < 0x80 then Some((s[0], 1))
      else
        match ValueFrom(s[1..], n + 1)
        case None => None
        case Some((rest, k)) =>
          AddChunk(rest, n);
          Some((s[0] - 0x80 + 0x80 * rest, k + 1))
  }

  lemma FirstChunkFits(n: nat)
    requires n < 8
    ensures 0x80 <= Pow2(64 - 7 * n)
  {
    hide Pow2, Low7, High7;
    Pow2Monotone(7, 64 - 7 * n);
    Pow2Small();
  }

  lemma AddChunk(v: nat, n: nat)
    requires n < 8
    requires v < Pow2(64 - 7 * (n + 1))
    ensures 0x80 * v + 0x7F < Pow2(64 - 7 * n)
  {
    hide Pow2, Low7, High7;
    SevenBits(64 - 7 * (n + 1));
  }

  /** The number at the front of `s`, if `s` is long enough. */
  function VarintValue(s: seq<Byte>): (r: Option<(U64, nat)>)
    ensures r.Some? ==> 1 <= r.value.1 <= |s| && r.value.1 <= 9
  {
    WordLimit();
    ValueFrom(s, 0)
  }

  // ---- the format can be read back ----

  lemma {:induction false} ReadBackFrom(v: U64, n: nat, rest: seq<Byte>)
    requires n <= 8
    requires v < Pow2(64 - 7 * n)
    ensures ValueFrom(BytesFrom(v, n) + rest, n) == Some((v, |BytesFrom(v, n)|))
    decreases 8 - n
  {
    hide Pow2, Low7, High7, Bits.Shl;
    var s := BytesFrom(v, n) + rest;
    if n < 8 && v >= 0x80 {
      DropChunk(v, n);
      ReadBackFrom(High7(v), n + 1, rest);
      assert s[0] == 0x80 + Low7(v);
      assert s[1..] == BytesFrom(High7(v), n + 1) + rest;
      assert ValueFrom(s[1..], n + 1) == Some((High7(v), |BytesFrom(v, n)| - 1));
    }
  }

  /** Reading undoes writing and stops exactly at the end of what was written. */
  lemma VarintReadBack(v: U64, rest: seq<Byte>)
    ensures VarintValue(VarintBytes(v) + rest) == Some((v, |VarintBytes(v)|))
  {
    hide Pow2, BytesFrom, ValueFrom;
    WordLimit();
    ReadBackFrom(v, 0, rest);
  }

  lemma {:induction false} ShortestFrom(s: seq<Byte>, n: nat)
    requires n <= 8
    requires ValueFrom(s, n).Some?
    ensures ValueFrom(s, n).value.0 <= U64_MAX
    ensures |BytesFrom(ValueFrom(s, n).value.0, n)| <= ValueFrom(s, n).value.1
    decreases 8 - n
  {
    hide Pow2, Low7, High7, Bits.Shl;
    Pow2Monotone(64 - 7 * n, 64);
    WordLimit();
    if n < 8 && s[0] >= 0x80 {
      var tail := s[1..];
      ShortestFrom(tail, n + 1);
      var rest, k := ValueFrom(tail, n + 1).value.0, ValueFrom(tail, n + 1).value.1;
      assert ValueFrom(s, n) == Some((s[0] - 0x80 + 0x80 * rest, k + 1));
      AddChunk(rest, n);
      ShorterByOne(rest, s[0] - 0x80, n, k);
    }
  }

  lemma ShorterByOne(rest: U64, low: nat, n: nat, k: nat)
    requires n < 8
    requires low < 0x80
    requires rest < Pow2(64 - 7 * (n + 1))
    requires low + 0x80 * rest < Pow2(64 - 7 * n)
    requires low + 0x80 * rest <= U64_MAX
    requires |BytesFrom(rest, n + 1)| <= k
    ensures |BytesFrom(low + 0x80 * rest, n)| <= k + 1
  {
    hide Pow2, Low7, High7, Bits.Shl;
    Halves(rest, low);
  }

  /** No byte string that reads as `v` is shorter than what is written for `v`. */
  lemma VarintShortest(s: seq<Byte>)
    requires VarintValue(s).Some?
    ensures |VarintBytes(VarintValue(s).value.0)| <= VarintValue(s).value.1
  {
    hide BytesFrom, ValueFrom;
    WordLimit();
    ShortestFrom(s, 0);
  }

  lemma {:induction false} LengthFrom(v: U64, n: nat, k: nat)
    requires n <= 8
    requires v < Pow2(64 - 7 * n)
    requires 1 <= k && n + k <= 8
    ensures |BytesFrom(v, n)| <= k <==> v < Pow2(7 * k)
    decreases k
  {
    hide Pow2, Low7, High7;
    Pow2Small();
    if v < 0x80 {
      Pow2Monotone(7, 7 * k);
    } else if k > 1 {
      DropChunk(v, n);
      LengthFrom(High7(v), n + 1, k - 1);
      SevenBits(7 * (k - 1));
    }
  }

  /** A word takes the fewest bytes that have room for its bits at seven bits a byte, nine at most. */
  lemma VarintLength(v: U64, k: nat)
    requires 1 <= k <= 8
    ensures |VarintBytes(v)| <= k <==> v < Pow2(7 * k)
  {
    hide Pow2, BytesFrom;
    WordLimit();
    LengthFrom(v, 0, k);
  }

  lemma QuotientTwice(x: nat, p: nat)
    requires p >= 1
    ensures x / 0x80 / p == x / (0x80 * p)
  {
    var y := x / 0x80;
    var q, r := y / p, y % p;
    assert 0x80 * y == 0x80 * p * q + 0x80 * r;
    QuotientIs(x, 0x80 * p, q, x - 0x80 * p * q);
  }

  lemma QuotientIs(x: nat, d: nat, q: nat, r: nat)
    requires x == d * q + r && r < d
    ensures x / d == q
  {
    var q', r' := x / d, x % d;
    assert d * (q' - q) == r - r';
    assert q' - q >= 1 ==> d * (q' - q) >= d;
    assert q' - q <= -1 ==> d * (q' - q) + d <= 0;
  }

  lemma {:induction false} ByteFrom(v: U64, n: nat, i: nat)
    requires n <= 8
    requires v < Pow2(64 - 7 * n)
    requires i < |BytesFrom(v, n)|
    ensures BytesFrom(v, n)[i] ==
      if i + 1 < |BytesFrom(v, n)| then 0x80 + v / Pow2(7 * i) % 0x80 else v / Pow2(7 * i)
    decreases i
  {
    hide Pow2, Low7, High7;
    Pow2Zero();
    Parts(v);
    if i > 0 {
      DropChunk(v, n);
      ByteFrom(High7(v), n + 1, i - 1);
      SevenBits(7 * (i - 1));
      QuotientTwice(v, Pow2(7 * (i - 1)));
    }
  }

  lemma Parts(x: nat)
    ensures Low7(x) == x % 0x80 && High7(x) == x / 0x80
  {
  }

  /**
    The bytes hold the number's groups of seven bits, the lowest first, each but the last with its
    high bit set; the last one holds all the bits that are left, which for a ninth byte may be eight.
   */
  lemma VarintByte(v: U64, i: nat)
    requires i < |VarintBytes(v)|
    ensures VarintBytes(v)[i] ==
      if i + 1 < |VarintBytes(v)| then 0x80 + v / Pow2(7 * i) % 0x80 else v / Pow2(7 * i)
  {
    hide Pow2, BytesFrom;
    WordLimit();
    ByteFrom(v, 0, i);
  }

  /** Bytes after a complete number do not matter. */
  lemma {:induction false} LongerFrom(s: seq<Byte>, m: nat, n: nat)
    requires n <= 8
    requires m <= |s|
    requires ValueFrom(s[..m], n).Some?
    ensures ValueFrom(s, n) == ValueFrom(s[..m], n)
    decreases 8 - n
  {
    hide Pow2, Low7, High7;
    if n < 8 && s[0] >= 0x80 {
      assert s[..m][1..] == s[1..][..m - 1];
      LongerFrom(s[1..], m - 1, n + 1);
    }
  }

  lemma VarintOfLonger(s: seq<Byte>, m: nat)
    requires m <= |s|
    requires VarintValue(s[..m]).Some?
    ensures VarintValue(s) == VarintValue(s[..m])
  {
    hide ValueFrom;
    LongerFrom(s, m, 0);
  }

  lemma {:induction false} CutFrom(s: seq<Byte>, k: nat, n: nat)
    requires n <= 8
    requires ValueFrom(s, n).Some?
    requires k < ValueFrom(s, n).value.1
    ensures ValueFrom(s[..k], n) == None
    decreases 8 - n
  {
    hide Pow2, Low7, High7;
    if k > 0 {
      assert s[..k][1..] == s[1..][..k - 1];
      CutFrom(s[1..], k - 1, n + 1);
    }
  }

  /** Part of a number is no number. */
  lemma VarintCut(s: seq<Byte>, k: nat)
    requires VarintValue(s).Some?
    requires k < VarintValue(s).value.1
    ensures VarintValue(s[..k]) == None
  {
    hide ValueFrom;
    CutFrom(s, k, 0);
  }

  // ---- writing, a byte at a time ----

  function ShiftBy7s(input: U64, n: nat): nat {
    Shr(input, 7 * n)
  }

  /** The low eight bits, as a cast to `u8` keeps them. */
  function ToByte(x: nat): Byte {
    x % 0x100
  }

  function HighBitSet(b: Byte): Byte {
    ByteOr(b);
    BitOr(b, 0x80)
  }

  function NthChunkWithHighBit(input: U64, n: nat): Byte {
    HighBitSet(ToByte(ShiftBy7s(input, n)))
  }

  lemma ByteOr(b: Byte)
    ensures BitOr(b, 0x80) == 0x80 + Low7(b) <= 0xFF
    ensures BitAnd(b, 0x7F) == Low7(b)
    ensures BitAnd(b, 0x80) == b - Low7(b)
  {
    hide BitOr, BitAnd, LowBits, Low7;
    Pow2Small();
    OrTopBit(b, 7);
    AndLowMask(b, 7);
    AndHighMask(b, 7, 8);
    LowSeven(b);
  }

  lemma LowSeven(x: nat)
    ensures LowBits(x, 7) == Low7(x)
    ensures Shr(x, 7) == High7(x)
  {
    hide Shl, Shr, LowBits, Low7, High7, Pow2;
    Pow2Small();
    LowBitsBound(x, 7);
    ShlIsProduct(Shr(x, 7), 7);
    Halves(Shr(x, 7), LowBits(x, 7));
  }

  lemma WordShifted(input: U64, n: nat)
    requires n <= 8
    ensures ShiftBy7s(input, n) < Pow2(64 - 7 * n)
    ensures ShiftBy7s(input, n + 1) == High7(ShiftBy7s(input, n))
    decreases n
  {
    hide Pow2, Shr, Low7, High7;
    ShrTwice(input, 7 * n, 7);
    LowSeven(ShiftBy7s(input, n));
    if n == 0 {
      WordLimit();
      ShrTwice(input, 0, 0);
      NoShift(input);
    } else {
      WordShifted(input, n - 1);
      DropChunk(ShiftBy7s(input, n - 1), n - 1);
    }
  }

  lemma NoShift(x: nat)
    ensures Shr(x, 0) == x
  {
  }

  /** What `varint_write` still has to write after `n` bytes. */
  function Unwritten(input: U64, n: nat): (s: seq<Byte>)
    requires n <= 8
    ensures 1 <= |s| <= 9 - n
  {
    WordShifted(input, n);
    Pow2Monotone(64 - 7 * n, 64);
    WordLimit();
    BytesFrom(ShiftBy7s(input, n), n)
  }

  lemma HighBitOfCut(x: nat)
    ensures HighBitSet(ToByte(x)) == 0x80 + Low7(x)
    ensures HighBitSet(Low7(x)) == 0x80 + Low7(x)
    ensures High7(x) == 0 <==> x < 0x80
    ensures x < 0x100 ==> ToByte(x) == x
  {
    hide BitOr, BitAnd, Low7, High7;
    ByteOr(ToByte(x));
    ByteOr(Low7(x));
    CutByte(x);
  }

  /** The shifts and masks of the program produce the bytes of the format, one by one. */
  lemma UnwrittenStep(input: U64, n: nat)
    requires n < 8
    ensures ShiftBy7s(input, n + 1) == 0 ==> Unwritten(input, n) == [ToByte(ShiftBy7s(input, n))]
    ensures ShiftBy7s(input, n + 1) != 0 ==>
      Unwritten(input, n) == [NthChunkWithHighBit(input, n)] + Unwritten(input, n + 1)
  {
    hide Pow2, ShiftBy7s, ToByte, HighBitSet, Low7, High7;
    WordShifted(input, n);
    var v := ShiftBy7s(input, n);
    HighBitOfCut(v);
    Pow2Monotone(64 - 7 * n, 64);
    WordLimit();
    DropChunk(v, n);
    assert Unwritten(input, n) == BytesFrom(v, n);
    assert Unwritten(input, n + 1) == BytesFrom(High7(v), n + 1);
  }

  lemma UnwrittenEnds(input: U64)
    ensures Unwritten(input, 0) == VarintBytes(input)
    ensures ShiftBy7s(input, 8) <= 0xFF
    ensures Unwritten(input, 8) == [ShiftBy7s(input, 8)]
  {
    hide Shr;
    NoShift(input);
    WordShifted(input, 8);
    Pow2Small();
  }

  /** The first byte is masked before its high bit is set, with the same effect. */
  lemma FirstChunk(input: U64)
    ensures BitAnd(input, 0x7F) <= 0xFF
    ensures ShiftBy7s(input, 0) == input
    ensures ShiftBy7s(input, 8) == Shr(input, 56)
    ensures HighBitSet(BitAnd(input, 0x7F)) == NthChunkWithHighBit(input, 0)
  {
    hide Shr, BitAnd, LowBits, HighBitSet, ToByte, Low7, High7;
    NoShift(input);
    Pow2Small();
    AndLowMask(input, 7);
    LowSeven(input);
    HighBitOfCut(input);
  }

  /** `n` bytes have been written at position `at`, and the bytes around them are untouched. */
  ghost predicate Wrote(before: seq<Byte>, now: seq<Byte>, at: nat, n: nat, input: U64)
    requires n <= 8
  {
    && |now| == |before|
    && at + n + |Unwritten(input, n)| <= |now|
    && now[..at] == before[..at]
    && now[at + n..] == before[at + n..]
    && VarintBytes(input) == now[at..at + n] + Unwritten(input, n)
  }

  ghost predicate WroteAll(before: seq<Byte>, now: seq<Byte>, at: nat, n: nat, input: U64) {
    && |now| == |before|
    && at + n <= |now|
    && now[..at] == before[..at]
    && now[at..at + n] == VarintBytes(input)
    && now[at + n..] == before[at + n..]
  }

  lemma WroteMore(before: seq<Byte>, was: seq<Byte>, now: seq<Byte>, at: nat, n: nat, input: U64)
    requires n < 8
    requires Wrote(before, was, at, n, input)
    requires ShiftBy7s(input, n + 1) != 0
    requires now == was[at + n := NthChunkWithHighBit(input, n)]
    ensures Wrote(before, now, at, n + 1, input)
  {
    hide Unwritten, ShiftBy7s, NthChunkWithHighBit, VarintBytes;
    UnwrittenStep(input, n);
    assert now[at..at + n + 1] == was[at..at + n] + [NthChunkWithHighBit(input, n)];
    assert now[at + n + 1..] == was[at + n..][1..];
    assert before[at + n + 1..] == before[at + n..][1..];
  }

  lemma WroteLast(before: seq<Byte>, was: seq<Byte>, now: seq<Byte>, at: nat, n: nat, input: U64)
    requires n <= 8
    requires Wrote(before, was, at, n, input)
    requires n < 8 ==> ShiftBy7s(input, n + 1) == 0
    requires now == was[at + n := ToByte(ShiftBy7s(input, n))]
    ensures WroteAll(before, now, at, n + 1, input)
  {
    hide Unwritten, ShiftBy7s, VarintBytes;
    if n < 8 {
      UnwrittenStep(input, n);
    } else {
      UnwrittenEnds(input);
    }
    assert now[at..at + n + 1] == was[at..at + n] + [ToByte(ShiftBy7s(input, n))];
    assert now[at + n + 1..] == was[at + n..][1..];
    assert before[at + n + 1..] == before[at + n..][1..];
  }

  lemma WroteNothing(before: seq<Byte>, at: nat, input: U64)
    requires at + |VarintBytes(input)| <= |before|
    ensures Wrote(before, before, at, 0, input)
  {
    hide Unwritten, VarintBytes;
    UnwrittenEnds(input);
  }

  lemma WroteRoom(before: seq<Byte>, now: seq<Byte>, at: nat, n: nat, input: U64)
    requires n <= 8
    requires Wrote(before, now, at, n, input)
    ensures at + n < |now|
  {
    hide Unwritten, VarintBytes;
  }

  /** Writes a word into a buffer in the format, one byte after the other, up to the last chunk that is not zero. */
  method VarintWrite(input: U64, buf: array<Byte>, at: nat) returns (n: nat)
    requires at + |VarintBytes(input)| <= buf.Length
    modifies buf
    ensures WroteAll(old(buf[..]), buf[..], at, n, input)
  {
    hide *;
    ghost var before := buf[..];
    FirstChunk(input);
    WroteNothing(before, at, input);
    WroteRoom(before, buf[..], at, 0, input);
    if ShiftBy7s(input, 1) == 0 {
      buf[at] := ToByte(input);
      WroteLast(before, before, buf[..], at, 0, input);
      return 1;
    }
    buf[at] := HighBitSet(BitAnd(input, 0x7F));
    WroteMore(before, before, buf[..], at, 0, input);
    WroteRoom(before, buf[..], at, 1, input);
    ghost var s1 := buf[..];
    if ShiftBy7s(input, 2) == 0 {
      buf[at + 1] := ToByte(ShiftBy7s(input, 1));
      WroteLast(before, s1, buf[..], at, 1, input);
      return 2;
    }
    buf[at + 1] := NthChunkWithHighBit(input, 1);
    WroteMore(before, s1, buf[..], at, 1, input);
    WroteRoom(before, buf[..], at, 2, input);
    ghost var s2 := buf[..];
    if ShiftBy7s(input, 3) == 0 {
      buf[at + 2] := ToByte(ShiftBy7s(input, 2));
      WroteLast(before, s2, buf[..], at, 2, input);
      return 3;
    }
    buf[at + 2] := NthChunkWithHighBit(input, 2);
    WroteMore(before, s2, buf[..], at, 2, input);
    WroteRoom(before, buf[..], at, 3, input);
    ghost var s3 := buf[..];
    if ShiftBy7s(input, 4) == 0 {
      buf[at + 3] := ToByte(ShiftBy7s(input, 3));
      WroteLast(before, s3, buf[..], at, 3, input);
      return 4;
    }
    buf[at + 3] := NthChunkWithHighBit(input, 3);
    WroteMore(before, s3, buf[..], at, 3, input);
    WroteRoom(before, buf[..], at, 4, input);
    ghost var s4 := buf[..];
    if ShiftBy7s(input, 5) == 0 {
      buf[at + 4] := ToByte(ShiftBy7s(input, 4));
      WroteLast(before, s4, buf[..], at, 4, input);
      return 5;
    }
    buf[at + 4] := NthChunkWithHighBit(input, 4);
    WroteMore(before, s4, buf[..], at, 4, input);
    WroteRoom(before, buf[..], at, 5, input);
    ghost var s5 := buf[..];
    if ShiftBy7s(input, 6) == 0 {
      buf[at + 5] := ToByte(ShiftBy7s(input, 5));
      WroteLast(before, s5, buf[..], at, 5, input);
      return 6;
    }
    buf[at + 5] := NthChunkWithHighBit(input, 5);
    WroteMore(before, s5, buf[..], at, 5, input);
    WroteRoom(before, buf[..], at, 6, input);
    ghost var s6 := buf[..];
    if ShiftBy7s(input, 7) == 0 {
      buf[at + 6] := ToByte(ShiftBy7s(input, 6));
      WroteLast(before, s6, buf[..], at, 6, input);
      return 7;
    }
    buf[at + 6] := NthChunkWithHighBit(input, 6);
    WroteMore(before, s6, buf[..], at, 6, input);
    WroteRoom(before, buf[..], at, 7, input);
    ghost var s7 := buf[..];
    if ShiftBy7s(input, 8) == 0 {
      buf[at + 7] := ToByte(ShiftBy7s(input, 7));
      WroteLast(before, s7, buf[..], at, 7, input);
      return 8;
    }
    buf[at + 7] := NthChunkWithHighBit(input, 7);
    WroteMore(before, s7, buf[..], at, 7, input);
    WroteRoom(before, buf[..], at, 8, input);
    ghost var s8 := buf[..];
    buf[at + 8] := ToByte(Shr(input, 56));
    WroteLast(before, s8, buf[..], at, 8, input);
    n := 9;
  }

  // ---- reading ----

  function LowSevenBits(b: Byte): U64 {
    ByteOr(b);
    BitAnd(b, 0x7F)
  }

  predicate IsHighBitSet(b: Byte) {
    BitAnd(b, 0x80) != 0
  }

  /** `value |= chunk << (7 * n)` */
  function WithChunk(value: nat, chunk: nat, n: nat): nat {
    BitOr(value, Shl(chunk, 7 * n))
  }

  /** After `n` bytes, `value` holds their bits and the rest of `s` holds the others. */
  ghost predicate ReadSoFar(s: seq<Byte>, n: nat, value: U64)
    requires n <= 8
  {
    && n <= |s|
    && value < Pow2(7 * n)
    && VarintValue(s) ==
       match ValueFrom(s[n..], n)
       case None => None
       case Some((rest, k)) =>
         WordFromParts(value, rest, n);
         Some((value + Shl(rest, 7 * n), n + k))
  }

  lemma WordFromParts(value: nat, rest: nat, n: nat)
    requires n <= 8
    requires value < Pow2(7 * n)
    requires rest < Pow2(64 - 7 * n)
    ensures value + Shl(rest, 7 * n) <= U64_MAX
  {
    hide Pow2, Shl;
    ShlAdd(rest, 1, 7 * n);
    ShlOrder(rest + 1, Pow2(64 - 7 * n), 7 * n);
    Pow2Add(64 - 7 * n, 7 * n);
    WordLimit();
  }

  lemma ReadNothing(s: seq<Byte>)
    ensures ReadSoFar(s, 0, 0)
  {
    hide ValueFrom;
    assert s[0..] == s;
    Pow2Zero();
  }

  lemma Pow2Zero()
    ensures Pow2(0) == 1
    ensures forall x: nat :: Shl(x, 0) == x
  {
  }

  /** Or-ing in a chunk adds it at its place. */
  lemma AddedChunk(value: nat, chunk: nat, n: nat, width: nat)
    requires value < Pow2(7 * n)
    requires chunk < Pow2(width)
    requires 7 * n + width <= 64
    ensures BitOr(value, Shl(chunk, 7 * n)) == value + Shl(chunk, 7 * n) < Pow2(7 * n + width) <= U64_MAX + 1
  {
    hide Pow2, Shl, BitOr;
    OrDisjoint(value, chunk, 7 * n);
    ShlAdd(chunk, 1, 7 * n);
    ShlOrder(chunk + 1, Pow2(width), 7 * n);
    Pow2Add(width, 7 * n);
    Pow2Monotone(7 * n + width, 64);
    WordLimit();
  }

  lemma ByteBits(b: Byte)
    ensures IsHighBitSet(b) <==> b >= 0x80
    ensures LowSevenBits(b) == Low7(b)
    ensures !IsHighBitSet(b) ==> LowSevenBits(b) == b
  {
    hide BitAnd, Low7;
    ByteOr(b);
  }

  /** One of the first eight bytes: its low bits are added, and its high bit says whether more follow. */
  lemma ReadChunk(s: seq<Byte>, n: nat, value: U64)
    requires n < 8 && n < |s|
    requires ReadSoFar(s, n, value)
    ensures WithChunk(value, LowSevenBits(s[n]), n) <= 0xFFFF_FFFF_FFFF_FFFF
    ensures IsHighBitSet(s[n]) ==> ReadSoFar(s, n + 1, WithChunk(value, LowSevenBits(s[n]), n))
    ensures !IsHighBitSet(s[n]) ==> VarintValue(s) == Some((WithChunk(value, LowSevenBits(s[n]), n), n + 1))
  {
    hide Pow2, Shl, BitOr, IsHighBitSet, LowSevenBits, VarintValue;
    ByteBits(s[n]);
    Pow2Small();
    AddedChunk(value, LowSevenBits(s[n]), n, 7);
    assert s[n..][1..] == s[n + 1..];
    if IsHighBitSet(s[n]) && ValueFrom(s[n + 1..], n + 1).Some? {
      var rest := ValueFrom(s[n + 1..], n + 1).value.0;
      ShlAdd(s[n] - 0x80, 0x80 * rest, 7 * n);
      ShlTwice(rest, 7, 7 * n);
      ShlIsProduct(rest, 7);
    }
  }

  /** The ninth byte is taken as it is. */
  lemma ReadNinth(s: seq<Byte>, value: U64)
    requires |s| > 8
    requires ReadSoFar(s, 8, value)
    ensures WithChunk(value, s[8], 8) <= 0xFFFF_FFFF_FFFF_FFFF
    ensures VarintValue(s) == Some((WithChunk(value, s[8], 8), 9))
  {
    hide Pow2, Shl, BitOr, VarintValue;
    Pow2Small();
    AddedChunk(value, s[8], 8, 8);
  }

  lemma ReadOut(s: seq<Byte>, n: nat, value: U64)
    requires n <= 8 && n == |s|
    requires ReadSoFar(s, n, value)
    ensures VarintValue(s) == None
  {
    hide VarintValue;
  }

  lemma FirstRead(b: Byte)
    ensures WithChunk(0, LowSevenBits(b), 0) == LowSevenBits(b)
  {
    hide LowSevenBits;
  }

  /** Reads from a slice that has room for the longest form, so that no end of input is met. */
  method VarintReadSlice(slice: seq<Byte>) returns (value: U64, n: nat)
    requires |slice| >= 9
    ensures VarintValue(slice) == Some((value, n))
  {
    hide *;
    ReadNothing(slice);
    FirstRead(slice[0]);
    ReadChunk(slice, 0, 0);
    var b := slice[0];
    value := LowSevenBits(b);
    if !IsHighBitSet(b) {
      return value, 1;
    }
    b := slice[1];
    ReadChunk(slice, 1, value);
    value := WithChunk(value, LowSevenBits(b), 1);
    if !IsHighBitSet(b) {
      return value, 2;
    }
    b := slice[2];
    ReadChunk(slice, 2, value);
    value := WithChunk(value, LowSevenBits(b), 2);
    if !IsHighBitSet(b) {
      return value, 3;
    }
    b := slice[3];
    ReadChunk(slice, 3, value);
    value := WithChunk(value, LowSevenBits(b), 3);
    if !IsHighBitSet(b) {
      return value, 4;
    }
    b := slice[4];
    ReadChunk(slice, 4, value);
    value := WithChunk(value, LowSevenBits(b), 4);
    if !IsHighBitSet(b) {
      return value, 5;
    }
    b := slice[5];
    ReadChunk(slice, 5, value);
    value := WithChunk(value, LowSevenBits(b), 5);
    if !IsHighBitSet(b) {
      return value, 6;
    }
    b := slice[6];
    ReadChunk(slice, 6, value);
    value := WithChunk(value, LowSevenBits(b), 6);
    if !IsHighBitSet(b) {
      return value, 7;
    }
    b := slice[7];
    ReadChunk(slice, 7, value);
    value := WithChunk(value, LowSevenBits(b), 7);
    if !IsHighBitSet(b) {
      return value, 8;
    }
    b := slice[8];
    ReadNinth(slice, value);
    value := WithChunk(value, b, 8);
    n := 9;
  }

  /** A source of bytes that is read from the front. */
  class ByteReader {
    const data: seq<Byte>
    var pos: nat

    ghost predicate Valid()
      reads this
    {
      pos <= |data|
    }

    function Rest(): seq<Byte>
      requires Valid()
      reads this
    {
      data[pos..]
    }

    constructor (data: seq<Byte>)
      ensures Valid() && pos == 0 && this.data == data && Rest() == data
    {
      this.data, pos := data, 0;
    }

    method ReadU8() returns (b: Option<Byte>)
      requires Valid()
      modifies this
      ensures Valid()
      ensures b == None ==> pos == old(pos) == |data|
      ensures b.Some? ==> old(pos) < |data| && b.value == data[old(pos)] && pos == old(pos) + 1
    {
      if pos == |data| {
        return None;
      }
      b := Some(data[pos]);
      pos := pos + 1;
    }

    method ReadExact(n: nat) returns (s: Option<seq<Byte>>)
      requires Valid()
      modifies this
      ensures Valid()
      ensures s == None <==> |old(Rest())| < n
      ensures s.Some? ==> s.value == old(Rest())[..n] && Rest() == old(Rest())[n..]
    {
      if |data| - pos < n {
        pos := |data|;
        return None;
      }
      s := Some(data[pos..pos + n]);
      pos := pos + n;
    }
  }

  /** Reads from a stream, a byte at a time, and fails if it ends too early. */
  method VarintRead(reader: ByteReader) returns (r: Option<U64>)
    requires reader.Valid()
    modifies reader
    ensures reader.Valid()
    ensures r == None <==> VarintValue(old(reader.Rest())) == None
    ensures r.Some? ==> VarintValue(old(reader.Rest())) == Some((r.value, reader.pos - old(reader.pos)))
  {
    hide VarintValue, ReadSoFar, WithChunk, IsHighBitSet, LowSevenBits;
    ghost var s := reader.Rest();
    ReadNothing(s);
    var b := reader.ReadU8();
    if b.None? {
      ReadOut(s, 0, 0);
      return None;
    }
    FirstRead(s[0]);
    ReadChunk(s, 0, 0);
    var value: U64 := LowSevenBits(b.value);
    if IsHighBitSet(b.value) {
      b := reader.ReadU8();
      if b.None? {
        ReadOut(s, 1, value);
        return None;
      }
      ReadChunk(s, 1, value);
      value := WithChunk(value, LowSevenBits(b.value), 1);
      if IsHighBitSet(b.value) {
        b := reader.ReadU8();
        if b.None? {
          ReadOut(s, 2, value);
          return None;
        }
        ReadChunk(s, 2, value);
        value := WithChunk(value, LowSevenBits(b.value), 2);
        if IsHighBitSet(b.value) {
          b := reader.ReadU8();
          if b.None? {
            ReadOut(s, 3, value);
            return None;
          }
          ReadChunk(s, 3, value);
          value := WithChunk(value, LowSevenBits(b.value), 3);
          if IsHighBitSet(b.value) {
            b := reader.ReadU8();
            if b.None? {
              ReadOut(s, 4, value);
              return None;
            }
            ReadChunk(s, 4, value);
            value := WithChunk(value, LowSevenBits(b.value), 4);
            if IsHighBitSet(b.value) {
              b := reader.ReadU8();
              if b.None? {
                ReadOut(s, 5, value);
                return None;
              }
              ReadChunk(s, 5, value);
              value := WithChunk(value, LowSevenBits(b.value), 5);
              if IsHighBitSet(b.value) {
                b := reader.ReadU8();
                if b.None? {
                  ReadOut(s, 6, value);
                  return None;
                }
                ReadChunk(s, 6, value);
                value := WithChunk(value, LowSevenBits(b.value), 6);
                if IsHighBitSet(b.value) {
                  b := reader.ReadU8();
                  if b.None? {
                    ReadOut(s, 7, value);
                    return None;
                  }
                  ReadChunk(s, 7, value);
                  value := WithChunk(value, LowSevenBits(b.value), 7);
                  if IsHighBitSet(b.value) {
                    b := reader.ReadU8();
                    if b.None? {
                      ReadOut(s, 8, value);
                      return None;
                    }
                    ReadNinth(s, value);
                    value := WithChunk(value, b.value, 8);
                  }
                }
              }
            }
          }
        }
      }
    }
    r := Some(value);
  }

  /** Both readers take the same word and the same number of bytes from any slice long enough for the fast one. */
  method ReadersAgree(slice: seq<Byte>) returns (value: U64, n: nat, streamed: Option<U64>, taken: nat)
    requires |slice| >= 9
    ensures streamed == Some(value)
    ensures taken == n <= 9
  {
    hide ValueFrom;
    value, n := VarintReadSlice(slice);
    var reader := new ByteReader(slice);
    streamed := VarintRead(reader);
    taken := reader.pos;
  }
}
