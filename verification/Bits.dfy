/**
  Machine words as natural numbers. Shifts and bit operators are defined digit by digit, so
  that everything built on them stays linear; the lemmas say what each means arithmetically.
 */
module Bits {
  const U64_MAX: nat := 0xFFFF_FFFF_FFFF_FFFF

  type U64 = x: int | 0 <= x <= 0xFFFF_FFFF_FFFF_FFFF

  function Min(a: int, b: int): int {
    if a <= b then a else b
  }

  function Max(a: int, b: int): int {
    if a <= b then b else a
  }

  // ---- shifts ----

  /** `x << k` without losing bits: x times 2^k. */
  function Shl(x: nat, k: nat): (y: nat)
    ensures x <= y
  {
    if k == 0 then x else 2 * Shl(x, k - 1)
  }

  /** `x >> k`: the quotient of x by 2^k. */
  function Shr(x: nat, k: nat): (q: nat)
    ensures Shl(q, k) <= x < Shl(q + 1, k)
  {
    if k == 0 then x else Shr(x / 2, k - 1)
  }

  function Pow2(n: nat): (p: nat)
    ensures p >= 1
    ensures p == Shl(1, n)
  {
    if n == 0 then 1 else 2 * Pow2(n - 1)
  }

  /** The low `k` bits of `x`. */
  function LowBits(x: nat, k: nat): (r: nat) {
    x - Shl(Shr(x, k), k)
  }

  lemma {:induction false} ShlAdd(x: nat, y: nat, k: nat)
    ensures Shl(x + y, k) == Shl(x, k) + Shl(y, k)
  {
    if k > 0 {
      ShlAdd(x, y, k - 1);
    }
  }

  lemma {:induction false} ShlTwice(x: nat, j: nat, k: nat)
    ensures Shl(Shl(x, j), k) == Shl(x, j + k)
  {
    if k > 0 {
      ShlTwice(x, j, k - 1);
    }
  }

  lemma {:induction false} ShlOrder(x: nat, y: nat, k: nat)
    ensures Shl(x, k) < Shl(y, k) <==> x < y
    ensures Shl(x, k) <= Shl(y, k) <==> x <= y
  {
    if k > 0 {
      ShlOrder(x, y, k - 1);
    }
  }

  lemma {:induction false} ShlZero(k: nat)
    ensures Shl(0, k) == 0
  {
    if k > 0 {
      ShlZero(k - 1);
    }
  }

  lemma {:induction false} ShlIsProduct(x: nat, k: nat)
    ensures Shl(x, k) == x * Pow2(k)
  {
    if k > 0 {
      ShlIsProduct(x, k - 1);
    }
  }

  lemma Pow2Step(n: nat)
    ensures Pow2(n + 1) == 2 * Pow2(n)
  {
  }

  lemma Pow2Add(a: nat, b: nat)
    ensures Pow2(a + b) == Shl(Pow2(a), b)
  {
    ShlTwice(1, a, b);
  }

  lemma {:induction false} Pow2Monotone(a: nat, b: nat)
    requires a <= b
    ensures Pow2(a) <= Pow2(b)
    ensures a < b ==> 2 * Pow2(a) <= Pow2(b)
  {
    if a < b {
      Pow2Monotone(a, b - 1);
    }
  }

  lemma Pow2Small()
    ensures Pow2(1) == 2
    ensures Pow2(7) == 0x80
    ensures Pow2(8) == 0x100
  {
  }

  lemma Pow2Product(a: nat, b: nat)
    ensures Pow2(a + b) == Pow2(a) * Pow2(b)
  {
    Pow2Add(a, b);
    ShlIsProduct(Pow2(a), b);
  }

  lemma Pow2Values()
    ensures Pow2(7) == 0x80
    ensures Pow2(17) == 0x2_0000
    ensures Pow2(32) == 0x1_0000_0000
    ensures Pow2(56) == 0x100_0000_0000_0000
    ensures Pow2(63) == 0x8000_0000_0000_0000
    ensures Pow2(64) == U64_MAX + 1
  {
    hide Pow2;
    Pow2Small();
    Pow2Product(8, 8);
    Pow2Product(16, 1);
    Pow2Product(16, 16);
    Pow2Product(32, 16);
    Pow2Product(48, 8);
    Pow2Product(56, 7);
    Pow2Product(56, 8);
  }

  /** The bounds of a right shift determine it. */
  lemma ShrUnique(x: nat, k: nat, q: nat)
    requires Shl(q, k) <= x < Shl(q + 1, k)
    ensures Shr(x, k) == q
    ensures LowBits(x, k) == x - Shl(q, k)
  {
    ShlOrder(q, Shr(x, k) + 1, k);
    ShlOrder(Shr(x, k), q + 1, k);
  }

  lemma LowBitsBound(x: nat, k: nat)
    ensures LowBits(x, k) < Pow2(k)
    ensures x == Shl(Shr(x, k), k) + LowBits(x, k)
  {
    ShlAdd(Shr(x, k), 1, k);
  }

  lemma {:induction false} ShrTwice(x: nat, j: nat, k: nat)
    ensures Shr(Shr(x, j), k) == Shr(x, j + k)
  {
    if j > 0 {
      ShrTwice(x / 2, j - 1, k);
    }
  }

  // ---- length in binary digits ----

  /** Number of binary digits of `x`; 0 for 0. */
  function BitLen(x: nat): nat {
    if x == 0 then 0 else 1 + BitLen(x / 2)
  }

  lemma {:induction false} BitLenBounds(x: nat)
    ensures x < Pow2(BitLen(x))
    ensures x > 0 ==> BitLen(x) > 0 && Pow2(BitLen(x) - 1) <= x
  {
    if x > 0 {
      BitLenBounds(x / 2);
    }
  }

  /** The two bounds of `BitLenBounds` determine the length. */
  lemma BitLenUnique(x: nat, n: nat)
    requires x < Pow2(n)
    requires n > 0 ==> Pow2(n - 1) <= x
    ensures BitLen(x) == n
  {
    BitLenBounds(x);
    if BitLen(x) < n {
      Pow2Monotone(BitLen(x), n - 1);
    } else if n < BitLen(x) {
      Pow2Monotone(n, BitLen(x) - 1);
    }
  }

  lemma BitLenAtMost(x: nat, n: nat)
    requires x < Pow2(n)
    ensures BitLen(x) <= n
  {
    BitLenBounds(x);
    Pow2Monotone(n, Max(n, BitLen(x) - 1));
  }

  lemma BitLenOfWord(x: U64)
    ensures BitLen(x) <= 64
  {
    Pow2Values();
    BitLenAtMost(x, 64);
  }

  /** `u64::leading_zeros`. */
  function LeadingZeros(x: U64): nat {
    BitLenOfWord(x);
    64 - BitLen(x)
  }

  // ---- bit operators ----

  function BitOr(a: nat, b: nat): nat
    decreases a + b
  {
    if a == 0 then b
    else if b == 0 then a
    else 2 * BitOr(a / 2, b / 2) + Max(a % 2, b % 2)
  }

  function BitAnd(a: nat, b: nat): nat
    decreases a + b
  {
    if a == 0 || b == 0 then 0
    else 2 * BitAnd(a / 2, b / 2) + Min(a % 2, b % 2)
  }

  function BitXor(a: nat, b: nat): nat
    decreases a + b
  {
    if a == 0 then b
    else if b == 0 then a
    else 2 * BitXor(a / 2, b / 2) + (if a % 2 == b % 2 then 0 else 1)
  }

  /** `!x` on 64-bit words. */
  function BitNot64(x: U64): U64 {
    U64_MAX - x
  }

  /** Or-ing two words gives a number as long as the longer of the two. */
  lemma {:induction false} BitLenOr(a: nat, b: nat)
    ensures BitLen(BitOr(a, b)) == Max(BitLen(a), BitLen(b))
    decreases a + b
  {
    if a > 0 && b > 0 {
      BitLenOr(a / 2, b / 2);
      var h, d := BitOr(a / 2, b / 2), Max(a % 2, b % 2);
      assert (2 * h + d) / 2 == h;
      if h == 0 {
        assert a / 2 == 0 && b / 2 == 0;
      }
    }
  }

  lemma BitOrOfWords(a: U64, b: U64)
    ensures BitOr(a, b) <= U64_MAX
  {
    BitLenOfWord(a);
    BitLenOfWord(b);
    BitLenOr(a, b);
    BitLenBounds(BitOr(a, b));
    Pow2Monotone(BitLen(BitOr(a, b)), 64);
    Pow2Values();
  }

  lemma HalveLowBits(x: nat, k: nat)
    requires k > 0
    ensures LowBits(x, k) == 2 * LowBits(x / 2, k - 1) + x % 2
  {
  }

  lemma AndDigit(a: nat, m: nat, d: nat)
    requires d <= 1
    ensures BitAnd(a, 2 * m + d) == 2 * BitAnd(a / 2, m) + Min(a % 2, d)
  {
    assert (2 * m + d) / 2 == m;
  }

  lemma OrDigit(a: nat, m: nat, d: nat)
    requires d <= 1
    ensures BitOr(a, 2 * m + d) == 2 * BitOr(a / 2, m) + Max(a % 2, d)
  {
    assert (2 * m + d) / 2 == m;
  }

  /** `x & (2^k - 1)` keeps the low `k` bits. */
  lemma {:induction false} AndLowMask(x: nat, k: nat)
    ensures BitAnd(x, Pow2(k) - 1) == LowBits(x, k)
    decreases k
  {
    hide BitAnd, LowBits;
    if k == 0 {
      AndLowMaskOfZero(x);
    } else {
      HalveLowBits(x, k);
      AndLowMask(x / 2, k - 1);
      AndDigit(x, Pow2(k - 1) - 1, 1);
    }
  }

  lemma AndLowMaskOfZero(x: nat)
    ensures BitAnd(x, 0) == 0 == LowBits(x, 0)
    ensures BitOr(x, 0) == x
  {
  }

  /** `x | (2^k - 1)` rounds up to the last number of the block of 2^k that holds `x`. */
  lemma {:induction false} OrLowMask(x: nat, k: nat)
    ensures BitOr(x, Pow2(k) - 1) == x - LowBits(x, k) + Pow2(k) - 1
    decreases k
  {
    hide BitOr, LowBits;
    if k == 0 {
      AndLowMaskOfZero(x);
    } else {
      HalveLowBits(x, k);
      OrLowMask(x / 2, k - 1);
      OrDigit(x, Pow2(k - 1) - 1, 1);
    }
  }

  lemma LowBitsOfSmall(x: nat, k: nat)
    requires x < Pow2(k)
    ensures LowBits(x, k) == x
  {
    ShlZero(k);
    ShrUnique(x, k, 0);
  }

  lemma {:induction false} AndHighMask(x: nat, k: nat, n: nat)
    requires k <= n
    requires x < Pow2(n)
    ensures Pow2(k) <= Pow2(n)
    ensures BitAnd(x, Pow2(n) - Pow2(k)) == x - LowBits(x, k)
    decreases n
  {
    hide BitAnd, LowBits;
    Pow2Monotone(k, n);
    AndLowMaskOfZero(x);
    if k == n {
      LowBitsOfSmall(x, k);
    } else if k == 0 {
      AndLowMask(x, n);
      LowBitsOfSmall(x, n);
    } else {
      AndHighMask(x / 2, k - 1, n - 1);
      HalveLowBits(x, k);
      AndDigit(x, Pow2(n - 1) - Pow2(k - 1), 0);
    }
  }

  /** `x & !(2^k - 1)` rounds down to the first number of the block of 2^k that holds `x`. */
  lemma AndNotLowMask(x: U64, k: nat)
    requires k <= 63
    ensures Pow2(k) - 1 <= U64_MAX
    ensures BitAnd(x, BitNot64(Pow2(k) - 1)) == x - LowBits(x, k)
  {
    Pow2Values();
    Pow2Monotone(k, 64);
    AndHighMask(x, k, 64);
  }

  /** Or-ing numbers without a common bit adds them. */
  lemma {:induction false} OrDisjoint(x: nat, y: nat, k: nat)
    requires x < Pow2(k)
    ensures BitOr(x, Shl(y, k)) == x + Shl(y, k)
    decreases k
  {
    if k > 0 {
      OrDisjoint(x / 2, y, k - 1);
      assert Shl(y, k) / 2 == Shl(y, k - 1) && Shl(y, k) % 2 == 0;
    }
  }

  lemma {:induction false} XorAllOnes(x: nat, k: nat)
    requires x < Pow2(k)
    ensures BitXor(x, Pow2(k) - 1) == Pow2(k) - 1 - x
    decreases k
  {
    if k > 0 {
      XorAllOnes(x / 2, k - 1);
      assert (2 * Pow2(k - 1) - 1) / 2 == Pow2(k - 1) - 1;
    }
  }

  /** Or-ing in the bit above the low `k` sets it, whether or not it was set. */
  lemma {:induction false} OrTopBit(x: nat, k: nat)
    requires x < Pow2(k + 1)
    ensures BitOr(x, Pow2(k)) == LowBits(x, k) + Pow2(k)
    decreases k
  {
    hide BitOr, LowBits;
    if k == 0 {
      OrOne(x);
    } else {
      HalveLowBits(x, k);
      OrTopBit(x / 2, k - 1);
      OrDigit(x, Pow2(k - 1), 0);
    }
  }

  lemma OrOne(x: nat)
    requires x <= 1
    ensures BitOr(x, 1) == 1
    ensures LowBits(x, 0) == 0
  {
  }
}
