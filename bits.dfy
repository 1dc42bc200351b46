/** Fixed-width integer helpers shared by the cipher model: the range of a C
    `int`, its conversion to `unsigned int`, C's truncating remainder, and
    bit counts of 64-bit words.  Bit positions are `bv8`
    values, so that shifting by a position stays within bit-vector
    arithmetic. */
module Bits {
  /** The values of a 32-bit C `int`. */
  type CInt = x: int | -0x8000_0000 <= x < 0x8000_0000

  const TWO_32: int := 0x1_0000_0000

  /** The `unsigned int` a C `int` converts to: its value modulo 2^32.
      The XOR of two's-complement `int`s commutes with this conversion, so
      XOR-ing converted values gives the converted XOR. */
  function ToU32(x: int): bv32 {
    (x % TWO_32) as bv32
  }

  /** C's `%` on `int`, which truncates toward zero (Dafny's `%` is Euclidean). */
  function CRem(x: int, m: int): (r: int)
    requires m > 0
    ensures x >= 0 ==> r == x % m
    ensures x < 0 ==> -m < r <= 0
  {
    if x >= 0 then x % m else -((-x) % m)
  }

  /** Bit `i` of `x`, as the source extracts it: `(x >> i) & 1`. */
  function Bit(x: bv64, i: bv8): bv64
    requires i < 64
  {
    (x >> i) & 1
  }

  /** The bits of `a ^ b` are the positions where `a` and `b` differ. */
  lemma BitOfXorWord(a: bv64, b: bv64, i: bv8)
    requires i < 64
    ensures Bit(a ^ b, i) == 1 <==> Bit(a, i) != Bit(b, i)
  {
  }

  /** Two words are equal exactly when their XOR is zero. */
  lemma XorWordZero(a: bv64, b: bv64)
    ensures a ^ b == 0 <==> a == b
  {
  }

  /** Number of set bits of `x` among positions `0 .. n-1`. */
  function PopCountBelow(x: bv64, n: bv8): (c: nat)
    requires n <= 64
    ensures c <= n as int
  {
    if n == 0 then 0 else PopCountBelow(x, n - 1) + (if Bit(x, n - 1) == 1 then 1 else 0)
  }

  /** Number of set bits of the whole word. */
  function PopCount(x: bv64): nat {
    PopCountBelow(x, 64)
  }

  /** The count below `n` is zero exactly when every bit below `n` is clear. */
  lemma {:induction false} PopCountBelowZero(x: bv64, n: bv8)
    requires n <= 64
    ensures PopCountBelow(x, n) == 0 <==> forall k: bv8 :: k < n ==> Bit(x, k) == 0
  {
    if n > 0 {
      PopCountBelowZero(x, n - 1);
    }
  }

  /** A word whose 64 bits are all clear is zero. */
  lemma AllBitsClear(x: bv64)
    requires forall k: bv8 :: k < 64 ==> Bit(x, k) == 0
    ensures x == 0
  {
    assert Bit(x, 0) == 0 && Bit(x, 1) == 0 && Bit(x, 2) == 0 && Bit(x, 3) == 0 && Bit(x, 4) == 0 && Bit(x, 5) == 0 && Bit(x, 6) == 0 && Bit(x, 7) == 0 &&
      Bit(x, 8) == 0 && Bit(x, 9) == 0 && Bit(x, 10) == 0 && Bit(x, 11) == 0 && Bit(x, 12) == 0 && Bit(x, 13) == 0 && Bit(x, 14) == 0 && Bit(x, 15) == 0 &&
      Bit(x, 16) == 0 && Bit(x, 17) == 0 && Bit(x, 18) == 0 && Bit(x, 19) == 0 && Bit(x, 20) == 0 && Bit(x, 21) == 0 && Bit(x, 22) == 0 && Bit(x, 23) == 0 &&
      Bit(x, 24) == 0 && Bit(x, 25) == 0 && Bit(x, 26) == 0 && Bit(x, 27) == 0 && Bit(x, 28) == 0 && Bit(x, 29) == 0 && Bit(x, 30) == 0 && Bit(x, 31) == 0 &&
      Bit(x, 32) == 0 && Bit(x, 33) == 0 && Bit(x, 34) == 0 && Bit(x, 35) == 0 && Bit(x, 36) == 0 && Bit(x, 37) == 0 && Bit(x, 38) == 0 && Bit(x, 39) == 0 &&
      Bit(x, 40) == 0 && Bit(x, 41) == 0 && Bit(x, 42) == 0 && Bit(x, 43) == 0 && Bit(x, 44) == 0 && Bit(x, 45) == 0 && Bit(x, 46) == 0 && Bit(x, 47) == 0 &&
      Bit(x, 48) == 0 && Bit(x, 49) == 0 && Bit(x, 50) == 0 && Bit(x, 51) == 0 && Bit(x, 52) == 0 && Bit(x, 53) == 0 && Bit(x, 54) == 0 && Bit(x, 55) == 0 &&
      Bit(x, 56) == 0 && Bit(x, 57) == 0 && Bit(x, 58) == 0 && Bit(x, 59) == 0 && Bit(x, 60) == 0 && Bit(x, 61) == 0 && Bit(x, 62) == 0 && Bit(x, 63) == 0;
  }

  /** A word has no set bit exactly when it is zero: a nonzero word has a
      population count between 1 and 64. */
  lemma PopCountZero(x: bv64)
    ensures PopCount(x) <= 64
    ensures PopCount(x) == 0 <==> x == 0
  {
    PopCountBelowZero(x, 64);
    if PopCount(x) == 0 {
      AllBitsClear(x);
    }
  }
}
