/** The virtual machine state and its run loop (src/lc3/vm.rs). The
    fetch/decode/execute step is a stub in this version of the emulator:
    a cycle reads PC, passes it to a memory read that returns its argument,
    and changes nothing. */
module Vm {
  import opened Registers

  /** The architectural load address; declared but never used. */
  const PC_START: bv16 := 0x3000

  /** `u16::MAX as usize`: the number of memory cells, one short of the
      65536 words a 16-bit address can name. */
  const MEM_SIZE: nat := 0xFFFF

  /** A snapshot of everything a machine holds. */
  datatype MachineState = MachineState(mem: seq<bv16>, regs: seq<bv16>, halted: bool)

  class VirtualMachine {
    var mem: array<bv16>
    var regs: array<bv16>
    var isHalted: bool

    /** The fixed-size arrays `[u16; MEM_SIZE]` and `[u16; 10]`, owned separately. */
    ghost predicate Valid()
      reads this
    {
      mem.Length == MEM_SIZE && regs.Length == REG_COUNT && mem != regs
    }

    ghost function State(): MachineState
      reads this, mem, regs
    {
      MachineState(mem[..], regs[..], isHalted)
    }

    /** `VirtualMachine::new`: all memory and every register zero (PC too,
        since PC_START is not applied), not halted. */
    constructor ()
      ensures Valid() && fresh(mem) && fresh(regs)
      ensures State() == MachineState(seq(MEM_SIZE, _ => 0), seq(REG_COUNT, _ => 0), false)
      ensures Read(regs[..], PC) == 0 && Read(regs[..], PC) != PC_START
    {
      mem := new bv16[MEM_SIZE](_ => 0);
      regs := new bv16[REG_COUNT](_ => 0);
      isHalted := false;
    }

    /** `memory_read`: a stub that returns the address it is given, whatever
        memory holds; it reads no state. */
    function MemoryRead(addr: bv16): (w: bv16)
      ensures w == addr
    {
      addr
    }

    /** `cycle`: reads PC and "fetches" through the stub; the decode and
        execute steps are not written, so the machine is left as it was
        (hence no modifies clause). */
    method Cycle()
      requires Valid()
      ensures State() == old(State())
    {
      var instr := MemoryRead(Read(regs[..], PC));
    }

    /** `run`: while not halted, perform one cycle and then halt. From a
        running machine that is exactly one cycle, from a halted one none;
        memory and registers keep their contents. `cycles` counts the
        calls to `Cycle`. */
    method Run() returns (ghost cycles: nat)
      requires Valid()
      modifies this
      ensures Valid() && mem == old(mem) && regs == old(regs)
      ensures State() == old(State()).(halted := true)
      ensures cycles == if old(isHalted) then 0 else 1
    {
      cycles := 0;
      while !isHalted
        invariant Valid() && mem == old(mem) && regs == old(regs)
        invariant State() == old(State()).(halted := isHalted)
        invariant cycles == if old(isHalted) || !isHalted then 0 else 1
        decreases if isHalted then 0 else 1
      {
        Cycle();
        isHalted := true;
        cycles := cycles + 1;
      }
    }
  }

  /** Every register indexes the machine's register array in bounds. */
  lemma RegistersInBounds(vm: VirtualMachine, r: Register)
    requires vm.Valid()
    ensures Indexable(vm.regs.Length, r)
  {
    IndexableIffTenSlots(vm.regs.Length);
  }

  /** The memory has no cell for the top address: an address indexes memory
      in bounds exactly when it is not 0xFFFF. */
  lemma TopAddressOutsideMemory(vm: VirtualMachine, a: bv16)
    requires vm.Valid()
    ensures a as int < vm.mem.Length <==> a != 0xFFFF
  {
    // The only address whose index is 0xFFFF is 0xFFFF itself.
    assert a as int == 0xFFFF ==> a == 0xFFFF;
  }
}
