/** The LC-3 opcode table and sign extension of instruction fields (src/lc3/opcodes.rs). */
module Opcodes {
  import opened Words

  /** The sixteen opcodes, in the order of their 4-bit encodings. */
  datatype OpCode =
    | BR   // 0x0 conditional branch
    | ADD  // 0x1 addition
    | LD   // 0x2 load
    | ST   // 0x3 store
    | JSR  // 0x4 jump to subroutine
    | AND  // 0x5 bitwise AND
    | LDR  // 0x6 load base + offset
    | STR  // 0x7 store base + offset
    | RTI  // 0x8 return from interrupt
    | NOT  // 0x9 bitwise complement
    | LDI  // 0xA load indirect
    | STI  // 0xB store indirect
    | JMP  // 0xC jump / return from subroutine
    | RES  // 0xD reserved, illegal
    | LEA  // 0xE load effective address
    | TRAP // 0xF system call

  /** The declaration order of the enum, which fixes the discriminants. */
  const LISTING: seq<OpCode> :=
    [BR, ADD, LD, ST, JSR, AND, LDR, STR, RTI, NOT, LDI, STI, JMP, RES, LEA, TRAP]

  /** `op as u16`: the implicit discriminant of an opcode. */
  function Ordinal(op: OpCode): (n: nat)
    ensures n < 16
    ensures op == RTI <==> n == 0x8
    ensures op == RES <==> n == 0xD
  {
    match op
    case BR => 0x0
    case ADD => 0x1
    case LD => 0x2
    case ST => 0x3
    case JSR => 0x4
    case AND => 0x5
    case LDR => 0x6
    case STR => 0x7
    case RTI => 0x8
    case NOT => 0x9
    case LDI => 0xA
    case STI => 0xB
    case JMP => 0xC
    case RES => 0xD
    case LEA => 0xE
    case TRAP => 0xF
  }

  /** The discriminants are exactly 0x0 .. 0xF, each taken by the opcode at
      that position of the declaration: a bijection with the 4-bit codes. */
  lemma OrdinalIsListingPosition(op: OpCode, n: nat)
    requires n < 16
    ensures |LISTING| == 16
    ensures LISTING[Ordinal(op)] == op
    ensures Ordinal(LISTING[n]) == n
  {
  }

  /** Two opcodes with the same discriminant are the same opcode. */
  lemma OrdinalInjective(a: OpCode, b: OpCode)
    requires Ordinal(a) == Ordinal(b)
    ensures a == b
  {
    OrdinalIsListingPosition(a, 0);
    OrdinalIsListingPosition(b, 0);
  }

  /** `sign_extend(x, bits)`: when bit (bits - 1) of x is set, the result is
      x with every bit from position `bits` upwards set; otherwise it is x.
      `0xFFFF << bits` must stay inside one word and `bits - 1` must be a
      shift amount, so 1 <= bits <= 15. What the result is bit by bit is
      `SignExtendBits`. */
  function SignExtend(x: bv16, bits: nat): (r: bv16)
    requires 1 <= bits <= 15
    ensures Bit(x, bits - 1) == 0 ==> r == x
  {
    if (x >> (bits - 1)) & 1 == 1 then x | (0xFFFF << bits) else x
  }

  /** Setting the bits from position n upwards leaves each bit below n as it was. */
  lemma HighOnesKeepLowBit(x: bv16, n: nat, k: nat)
    requires k < n <= 15
    ensures Bit(x | (0xFFFF << n), k) == Bit(x, k)
  {
    SmallShiftsOrdered(k, n);
    WordHighOnesKeepLowBit(x, n as bv16, k as bv16);
  }

  /** Setting the bits from position n upwards sets each of them. */
  lemma HighOnesSetHighBit(x: bv16, n: nat, k: nat)
    requires n <= k < WORD_BITS && n <= 15
    ensures Bit(x | (0xFFFF << n), k) == 1
  {
    SmallShiftsOrdered(n, k);
    WordHighOnesSetHighBit(x, n as bv16, k as bv16);
  }

  /** The two facts above with word-sized shift amounts. */
  lemma WordHighOnesKeepLowBit(x: bv16, n: bv16, k: bv16)
    requires k < n <= 15
    ensures ((x | (0xFFFF << n)) >> k) & 1 == (x >> k) & 1
  {
  }

  lemma WordHighOnesSetHighBit(x: bv16, n: bv16, k: bv16)
    requires n <= k < 16
    ensures ((x | (0xFFFF << n)) >> k) & 1 == 1
  {
  }

  /** Shift amounts below 16 keep their order as words. */
  lemma SmallShiftsOrdered(j: nat, m: nat)
    requires j <= m < WORD_BITS
    ensures j as bv16 <= m as bv16 < 16
    ensures j < m ==> j as bv16 < m as bv16
  {
  }

  /** Sign extension bit by bit: bits 0 .. n-1 are kept, and when the sign
      bit n-1 is set every bit above it is set too. */
  lemma SignExtendBits(x: bv16, n: nat)
    requires 1 <= n <= 15
    ensures forall k :: 0 <= k < n ==> Bit(SignExtend(x, n), k) == Bit(x, k)
    ensures Bit(x, n - 1) == 1 ==> forall k :: n <= k < WORD_BITS ==> Bit(SignExtend(x, n), k) == 1
  {
    if Bit(x, n - 1) == 1 {
      assert SignExtend(x, n) == x | (0xFFFF << n);
      forall k | 0 <= k < n
        ensures Bit(SignExtend(x, n), k) == Bit(x, k)
      {
        HighOnesKeepLowBit(x, n, k);
      }
      forall k | n <= k < WORD_BITS
        ensures Bit(SignExtend(x, n), k) == 1
      {
        HighOnesSetHighBit(x, n, k);
      }
    }
  }

  /** The value of an n-bit field read as an n-bit two's-complement number. */
  function FieldSigned(x: bv16, n: nat): (v: int)
    requires 1 <= n <= 15
  {
    if Bit(x, n - 1) == 1 then Unsigned(x) - Pow2(n) else Unsigned(x)
  }

  /** Sign extension keeps the signed value: for a field below 2^n, the
      16-bit result read as two's complement is the field's n-bit signed value. */
  lemma SignExtendTwosComplement(x: bv16, n: nat)
    requires 1 <= n <= 15
    requires Unsigned(x) < Pow2(n)
    ensures ToSigned(SignExtend(x, n)) == FieldSigned(x, n)
  {
    if Bit(x, n - 1) == 1 {
      FitsInBits(x, n);
      SignExtendNegative(x, n);
    } else {
      FitsInBits(x, n);
      assert Bit(x, 15) == 0;
    }
  }

  /** An n-bit field (no bit set from n upwards) with its sign bit set
      extends to a word with bit 15 set whose unsigned value is the field's
      plus 2^16 - 2^n. */
  lemma SignExtendNegative(x: bv16, n: nat)
    requires 1 <= n <= 15
    requires forall k :: n <= k < WORD_BITS ==> Bit(x, k) == 0
    requires Bit(x, n - 1) == 1
    ensures Bit(SignExtend(x, n), 15) == 1
    ensures Unsigned(SignExtend(x, n)) == Unsigned(x) + 0x1_0000 - Pow2(n)
  {
    var r := SignExtend(x, n);
    SignExtendBits(x, n);
    Pow2Values();
    ValueBelowAgree(r, x, n);
    ValueBelowOneBits(r, n, WORD_BITS);
    ValueBelowZeroBits(x, n, WORD_BITS);
  }

  /** Extending an already extended field changes nothing. */
  lemma SignExtendIdempotent(x: bv16, n: nat)
    requires 1 <= n <= 15
    ensures SignExtend(SignExtend(x, n), n) == SignExtend(x, n)
  {
  }

  /** All-ones fields of the widths the instruction formats use extend to -1,
      and the 5-bit field 0x10 extends to -16. */
  lemma SignExtendExamples()
    ensures SignExtend(0x1F, 5) == 0xFFFF && SignExtend(0x3F, 6) == 0xFFFF
    ensures SignExtend(0x1FF, 9) == 0xFFFF && SignExtend(0x7FF, 11) == 0xFFFF
    ensures SignExtend(0x10, 5) == 0xFFF0
  {
  }
}
