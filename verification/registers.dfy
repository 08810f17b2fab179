/** Named access to the register file, the condition flags and the
    memory-mapped keyboard registers (src/lc3/registers.rs; vm.rs and
    cpu.rs repeat the same `Register` and `Flag` declarations). */
module Registers {

  /** The ten register slots: eight general registers, PC and COND. */
  datatype Register = R0 | R1 | R2 | R3 | R4 | R5 | R6 | R7 | PC | COND

  /** Length of the register array `[u16; 10]`. */
  const REG_COUNT: nat := 10

  /** `reg as usize`: the slot a register names. */
  function Slot(r: Register): (i: nat)
    ensures i < REG_COUNT
    ensures r == PC <==> i == 8
    ensures r == COND <==> i == 9
  {
    match r
    case R0 => 0
    case R1 => 1
    case R2 => 2
    case R3 => 3
    case R4 => 4
    case R5 => 5
    case R6 => 6
    case R7 => 7
    case PC => 8
    case COND => 9
  }

  /** The register stored in slot i, the inverse of `Slot`. */
  function RegisterAt(i: nat): (r: Register)
    requires i < REG_COUNT
    ensures Slot(r) == i
  {
    [R0, R1, R2, R3, R4, R5, R6, R7, PC, COND][i]
  }

  /** Each register has its own slot, and every slot belongs to one register. */
  lemma SlotBijective(r: Register, s: Register)
    ensures RegisterAt(Slot(r)) == r
    ensures Slot(r) == Slot(s) ==> r == s
  {
  }

  /** Indexing a slice of length `len` by register r stays in bounds. */
  predicate Indexable(len: nat, r: Register)
  {
    Slot(r) < len
  }

  /** Every register can index a slice exactly when it has at least ten
      slots; a shorter slice fails on COND, and one shorter than nine on PC. */
  lemma IndexableIffTenSlots(len: nat)
    ensures (forall r :: Indexable(len, r)) <==> len >= REG_COUNT
    ensures len < 9 ==> !Indexable(len, PC)
  {
    if len < REG_COUNT {
      assert !Indexable(len, COND);
    }
  }

  /** `Index<Register> for [u16]`: the value in the register's slot. */
  function Read(regs: seq<bv16>, r: Register): (v: bv16)
    requires Indexable(|regs|, r)
    ensures v in regs
  {
    regs[Slot(r)]
  }

  /** `regs[r] = v` through `IndexMut<Register> for [u16]`: only slot r changes. */
  method Write(regs: array<bv16>, r: Register, v: bv16)
    requires Indexable(regs.Length, r)
    modifies regs
    ensures Read(regs[..], r) == v
    ensures forall s :: s != r && Indexable(regs.Length, s) ==> Read(regs[..], s) == Read(old(regs[..]), s)
    ensures forall i :: 0 <= i < regs.Length && i != Slot(r) ==> regs[i] == old(regs[i])
  {
    regs[Slot(r)] := v;
  }

  /** Reading back after a write: the written register yields the new value,
      every other register its old one. */
  lemma ReadAfterWrite(regs: seq<bv16>, r: Register, s: Register, v: bv16)
    requires Indexable(|regs|, r) && Indexable(|regs|, s)
    ensures Read(regs[Slot(r) := v], s) == if s == r then v else Read(regs, s)
  {
    SlotBijective(r, s);
  }

  /** The three condition flags of the COND register. */
  datatype Flag = POS | ZERO | NEG

  /** The flag's discriminant: POS = 1 << 0, ZERO = 1 << 1, NEG = 1 << 2. */
  function FlagValue(f: Flag): (v: bv16)
    ensures v != 0 && v & (v - 1) == 0
  {
    match f
    case POS => 1 << 0
    case ZERO => 1 << 1
    case NEG => 1 << 2
  }

  /** Distinct flags occupy distinct bits, so no two of them overlap. */
  lemma FlagsDisjoint(f: Flag, g: Flag)
    ensures f != g <==> FlagValue(f) & FlagValue(g) == 0
  {
  }

  /** The memory-mapped keyboard registers. */
  datatype MMRegister = KBSR | KBDR

  /** The memory address of a memory-mapped register. */
  function Address(m: MMRegister): (a: bv16)
    ensures m == KBSR <==> a == 0xFE00
    ensures m == KBDR <==> a == 0xFE02
  {
    match m
    case KBSR => 0xFE00
    case KBDR => 0xFE02
  }
}
