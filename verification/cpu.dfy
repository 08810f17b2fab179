/** The second machine-state structure (src/lc3/cpu.rs): RAM sized for the
    whole 16-bit address space and the register array. It repeats the
    `Register`, `Flag` and `OpCode` declarations, modelled once in the
    Registers and Opcodes modules. */
module Cpu {
  import opened Registers

  /** 65536 cells: one per 16-bit address. */
  const RAM_SIZE: nat := 0x1_0000

  class Cpu {
    var ram: array<bv16>
    var regs: array<bv16>

    /** The fixed-size arrays `[u16; RAM_SIZE]` and `[u16; 10]`, owned separately. */
    ghost predicate Valid()
      reads this
    {
      ram.Length == RAM_SIZE && regs.Length == REG_COUNT && ram != regs
    }

    /** `Cpu::new`: every RAM cell and every register zero. */
    constructor ()
      ensures Valid() && fresh(ram) && fresh(regs)
      ensures Ram() == seq(RAM_SIZE, _ => 0)
      ensures Regs() == seq(REG_COUNT, _ => 0)
    {
      ram := new bv16[RAM_SIZE](_ => 0);
      regs := new bv16[REG_COUNT](_ => 0);
    }

    /** `ram()`: the current RAM contents, cell by cell; reading changes nothing. */
    function Ram(): (s: seq<bv16>)
      requires Valid()
      reads this, ram
      ensures |s| == RAM_SIZE
      ensures forall i :: 0 <= i < |s| ==> s[i] == ram[i]
    {
      ram[..]
    }

    /** `regs()`: the current register contents, slot by slot. */
    function Regs(): (s: seq<bv16>)
      requires Valid()
      reads this, regs
      ensures |s| == REG_COUNT
      ensures forall i :: 0 <= i < |s| ==> s[i] == regs[i]
    {
      regs[..]
    }
  }

  /** Every 16-bit address names a RAM cell, and every register a register
      slot: no access through an address or a register name is out of bounds. */
  lemma EveryAddressInRam(c: Cpu, a: bv16, r: Register)
    requires c.Valid()
    ensures a as int < |c.Ram()|
    ensures Indexable(|c.Regs()|, r)
  {
  }
}
