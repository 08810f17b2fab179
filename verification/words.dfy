/** 16-bit machine words, bytes and the characters the trap routines print.
    The number a word denotes is given by its bits (`Unsigned`), so that
    arithmetic facts about words are proved from bit facts. */
module Words {

  /** Number of bits in an LC-3 word. */
  const WORD_BITS: nat := 16

  /** 2^n as an unbounded integer. */
  function Pow2(n: nat): (p: nat)
    ensures p >= 1
  {
    if n == 0 then 1 else 2 * Pow2(n - 1)
  }

  /** The powers of two the word layout uses. */
  lemma Pow2Values()
    ensures Pow2(4) == 0x10 && Pow2(8) == 0x100
    ensures Pow2(15) == 0x8000 && Pow2(16) == 0x1_0000
  {
    assert Pow2(4) == 0x10;
    assert Pow2(8) == 0x100;
    assert Pow2(12) == 0x1000;
    assert Pow2(15) == 0x8000;
  }

  /** Bit k of a word (0 or 1). */
  function Bit(w: bv16, k: nat): (b: bv16)
    requires k < WORD_BITS
    ensures b == 0 || b == 1
  {
    (w >> k) & 1
  }

  /** The number held by bits 0 .. k-1 of w. */
  function ValueBelow(w: bv16, k: nat): (v: nat)
    requires k <= WORD_BITS
    ensures v < Pow2(k)
    ensures k > 0 && Bit(w, k - 1) == 1 ==> v >= Pow2(k - 1)
    decreases k
  {
    if k == 0 then 0
    else ValueBelow(w, k - 1) + (if Bit(w, k - 1) == 1 then Pow2(k - 1) else 0)
  }

  lemma {:induction false} Pow2Monotone(j: nat, m: nat)
    requires j <= m
    ensures Pow2(j) <= Pow2(m)
  {
    if j < m { Pow2Monotone(j, m - 1); }
  }

  /** Bits j .. m-1 that are all zero add nothing to the value. */
  lemma {:induction false} ValueBelowZeroBits(w: bv16, j: nat, m: nat)
    requires j <= m <= WORD_BITS
    requires forall k :: j <= k < m ==> Bit(w, k) == 0
    ensures ValueBelow(w, m) == ValueBelow(w, j)
  {
    if j < m { ValueBelowZeroBits(w, j, m - 1); }
  }

  /** Bits j .. m-1 that are all one add 2^m - 2^j to the value. */
  lemma {:induction false} ValueBelowOneBits(w: bv16, j: nat, m: nat)
    requires j <= m <= WORD_BITS
    requires forall k :: j <= k < m ==> Bit(w, k) == 1
    ensures ValueBelow(w, m) == ValueBelow(w, j) + Pow2(m) - Pow2(j)
  {
    if j < m { ValueBelowOneBits(w, j, m - 1); }
  }

  /** Words that agree on bits 0 .. k-1 hold the same value there. */
  lemma {:induction false} ValueBelowAgree(a: bv16, b: bv16, k: nat)
    requires k <= WORD_BITS
    requires forall i :: 0 <= i < k ==> Bit(a, i) == Bit(b, i)
    ensures ValueBelow(a, k) == ValueBelow(b, k)
  {
    if k > 0 { ValueBelowAgree(a, b, k - 1); }
  }

  /** The value of bits 0 .. m-1 is at least that of bits 0 .. j-1. */
  lemma {:induction false} ValueBelowMonotone(w: bv16, j: nat, m: nat)
    requires j <= m <= WORD_BITS
    ensures ValueBelow(w, j) <= ValueBelow(w, m)
  {
    if j < m { ValueBelowMonotone(w, j, m - 1); }
  }

  /** A word is below 2^n exactly when none of its bits from n upwards is set. */
  lemma FitsInBits(w: bv16, n: nat)
    requires n <= WORD_BITS
    ensures Unsigned(w) < Pow2(n) <==> forall k :: n <= k < WORD_BITS ==> Bit(w, k) == 0
  {
    if forall k :: n <= k < WORD_BITS ==> Bit(w, k) == 0 {
      ValueBelowZeroBits(w, n, WORD_BITS);
    } else {
      var k :| n <= k < WORD_BITS && Bit(w, k) != 0;
      SetBitBound(w, n, k);
    }
  }

  /** A set bit k >= n puts the word at or above 2^n. */
  lemma SetBitBound(w: bv16, n: nat, k: nat)
    requires n <= k < WORD_BITS && Bit(w, k) == 1
    ensures Unsigned(w) >= Pow2(n)
  {
    ValueBelowMonotone(w, k + 1, WORD_BITS);
    Pow2Monotone(n, k);
  }

  /** The word read as an unsigned 16-bit number. */
  function Unsigned(w: bv16): (v: nat)
    ensures v < 0x1_0000
  {
    Pow2Values();
    ValueBelow(w, WORD_BITS)
  }

  /** The word read as a 16-bit two's-complement number: bit 15 weighs -2^15. */
  function ToSigned(w: bv16): (i: int)
    ensures -0x8000 <= i < 0x8000
    ensures i < 0 <==> Bit(w, 15) == 1
    ensures Unsigned(w) == if i < 0 then i + 0x1_0000 else i
  {
    SignBitIsTopHalf(w);
    var u := Unsigned(w);
    if u >= 0x8000 then u - 0x1_0000 else u
  }

  /** Bit 15 is set exactly on the upper half of the unsigned range. */
  lemma SignBitIsTopHalf(w: bv16)
    ensures Bit(w, 15) == 1 <==> Unsigned(w) >= 0x8000
  {
    Pow2Values();
    assert Unsigned(w) == ValueBelow(w, 15) + (if Bit(w, 15) == 1 then Pow2(15) else 0);
  }

  /** Rust's `w as u8`: the low 8 bits. */
  function LowByte(w: bv16): (b: bv8)
    ensures b as bv16 == w & 0xFF
  {
    (w & 0xFF) as bv8
  }

  /** The high 8 bits: byte 0 of `w.to_be_bytes()`. */
  function HighByte(w: bv16): (b: bv8)
    ensures b as bv16 == w >> 8
  {
    (w >> 8) as bv8
  }

  /** Rust's `b as char`: the character whose code point is the byte. */
  function ByteChar(b: bv8): (c: char)
    ensures c as int == b as int
  {
    (b as int) as char
  }

  /** Splitting a word into its two bytes loses nothing. */
  lemma ByteSplit(w: bv16)
    ensures w == ((HighByte(w) as bv16) << 8) | (LowByte(w) as bv16)
  {
  }
}
