/** The trap vectors and the character I/O trap routines (src/lc3/traps.rs).
    The terminal is not modelled: the byte a routine reads from standard
    input is a parameter, and what it prints is returned as text. */
module Traps {
  import opened Words
  import opened Registers

  /** The six trap service routines. */
  datatype TrapVector = GETC | OUT | PUTS | IN | PUTSP | HALT

  /** The explicit discriminant of each vector (also `Trap` in vm.rs). */
  function Code(t: TrapVector): (v: bv16)
    ensures 0x20 <= v <= 0x25
  {
    match t
    case GETC => 0x20
    case OUT => 0x21
    case PUTS => 0x22
    case IN => 0x23
    case PUTSP => 0x24
    case HALT => 0x25
  }

  /** The outcome of decoding a trap vector: the source panics on an
      unknown value, which is `Unknown` here. */
  datatype Decoded = Known(vector: TrapVector) | Unknown(value: bv16)

  /** `TrapVector::from_u16`: exactly 0x20 .. 0x25 decode, each to the vector
      whose discriminant it is; every other value is rejected. */
  function FromU16(value: bv16): (d: Decoded)
    ensures d.Known? <==> 0x20 <= value <= 0x25
    ensures d.Known? ==> Code(d.vector) == value
    ensures d.Unknown? ==> d.value == value
  {
    match value
    case 0x20 => Known(GETC)
    case 0x21 => Known(OUT)
    case 0x22 => Known(PUTS)
    case 0x23 => Known(IN)
    case 0x24 => Known(PUTSP)
    case 0x25 => Known(HALT)
    case _ => Unknown(value)
  }

  /** Decoding a vector's discriminant gives that vector back. */
  lemma FromU16OfCode(t: TrapVector)
    ensures FromU16(Code(t)) == Known(t)
  {
  }

  /** Text printed to standard output, one character per `print!`. */
  type Text = seq<char>

  /** The character a cell prints as: `(w as u8) as char`. */
  function LowChar(w: bv16): (c: char)
    ensures c as int == LowByte(w) as int
  {
    ByteChar(LowByte(w))
  }

  /** `trap_getc`: R0 receives the input byte zero-extended; nothing is
      printed and no other slot changes. */
  method TrapGetc(regs: array<bv16>, input: bv8)
    requires Indexable(regs.Length, R0)
    modifies regs
    ensures regs[Slot(R0)] == input as bv16
    ensures forall i :: 0 <= i < regs.Length && i != Slot(R0) ==> regs[i] == old(regs[i])
  {
    Write(regs, R0, input as bv16);
  }

  /** `trap_out`: prints exactly one character, the low byte of R0, and
      writes nothing. */
  method TrapOut(regs: array<bv16>) returns (out: Text)
    requires Indexable(regs.Length, R0)
    ensures |out| == 1
    ensures out[0] as int == LowByte(regs[Slot(R0)]) as int
  {
    out := [LowChar(Read(regs[..], R0))];
  }

  /** What `trap_puts` prints from `start`: the low byte of every cell up to
      the end of memory, with no terminator check. */
  function PutsOutput(mem: seq<bv16>, start: nat): (out: Text)
    ensures |out| == if start < |mem| then |mem| - start else 0
    ensures forall k :: 0 <= k < |out| ==> out[k] == LowChar(mem[start + k])
    decreases |mem| - start
  {
    if start >= |mem| then [] else [LowChar(mem[start])] + PutsOutput(mem, start + 1)
  }

  /** `trap_puts`: walks memory from index r0 to its end, printing each
      cell's low byte; memory is only read. */
  method TrapPuts(r0: bv16, memory: array<bv16>) returns (out: Text)
    ensures out == PutsOutput(memory[..], r0 as int)
  {
    ghost var mem := memory[..];
    var idx: int := r0 as int;
    out := [];
    while idx < memory.Length
      invariant r0 as int <= idx
      invariant out + PutsOutput(mem, idx) == PutsOutput(mem, r0 as int)
      decreases memory.Length - idx
    {
      PutsOutputStep(mem, idx);
      out := out + [LowChar(memory[idx])];
      idx := idx + 1;
    }
  }

  /** One step of PUTS: the text from a cell is its character followed by
      the text from the next cell. */
  lemma PutsOutputStep(mem: seq<bv16>, idx: nat)
    requires idx < |mem|
    ensures forall out: Text :: out + PutsOutput(mem, idx) == (out + [LowChar(mem[idx])]) + PutsOutput(mem, idx + 1)
  {
    assert PutsOutput(mem, idx) == [LowChar(mem[idx])] + PutsOutput(mem, idx + 1);
  }

  /** The prompt `trap_in` prints before reading. */
  const IN_PROMPT: Text := "Enter a character: "

  /** `trap_in`: prints the prompt, then R0 receives the input byte
      zero-extended; the byte itself is not echoed and no other slot changes. */
  method TrapIn(regs: array<bv16>, input: bv8) returns (out: Text)
    requires Indexable(regs.Length, R0)
    modifies regs
    ensures out == IN_PROMPT
    ensures regs[Slot(R0)] == input as bv16
    ensures forall i :: 0 <= i < regs.Length && i != Slot(R0) ==> regs[i] == old(regs[i])
  {
    out := IN_PROMPT;
    Write(regs, R0, input as bv16);
  }

  /** What one packed cell prints under PUTSP: its low byte, then its high
      byte unless that is zero. */
  function CellText(w: bv16): (t: Text)
    ensures 1 <= |t| <= 2
    ensures t[0] == LowChar(w)
    ensures |t| == 2 <==> HighByte(w) != 0
    ensures |t| == 2 ==> t[1] == ByteChar(HighByte(w))
  {
    var bytes := [HighByte(w), LowByte(w)];
    [ByteChar(bytes[1])] + (if bytes[0] != 0 then [ByteChar(bytes[0])] else [])
  }

  /** The length of the run of nonzero cells from `start`: how many cells
      PUTSP (and PUTS as intended) consumes before the first zero cell or the
      end of memory. */
  function NonzeroRun(mem: seq<bv16>, start: nat): (n: nat)
    decreases |mem| - start
  {
    if start >= |mem| || mem[start] == 0 then 0 else 1 + NonzeroRun(mem, start + 1)
  }

  /** The run from `start` lies in memory and holds only nonzero cells, and
      the cell after it is zero unless memory ends there. */
  lemma {:induction false} NonzeroRunBounds(mem: seq<bv16>, start: nat)
    ensures NonzeroRun(mem, start) == 0 || start + NonzeroRun(mem, start) <= |mem|
    ensures forall k :: start <= k < start + NonzeroRun(mem, start) ==> mem[k] != 0
    ensures start + NonzeroRun(mem, start) < |mem| ==> mem[start + NonzeroRun(mem, start)] == 0
    decreases |mem| - start
  {
    if start < |mem| && mem[start] != 0 {
      NonzeroRunBounds(mem, start + 1);
    }
  }

  /** What `trap_putsp` prints from `start`: each packed cell's text, up to
      the first zero cell or the end of memory. */
  function PutspOutput(mem: seq<bv16>, start: nat): (out: Text)
    ensures NonzeroRun(mem, start) <= |out| <= 2 * NonzeroRun(mem, start)
    decreases |mem| - start
  {
    if start >= |mem| || mem[start] == 0 then []
    else CellText(mem[start]) + PutspOutput(mem, start + 1)
  }

  /** PUTSP reads nothing past its terminator: memories that agree from
      `start` up to a zero cell print the same text. */
  lemma {:induction false} PutspStopsAtTerminator(mem: seq<bv16>, mem': seq<bv16>, start: nat, j: nat)
    requires start <= j < |mem| && j < |mem'|
    requires mem[j] == 0
    requires forall k :: start <= k <= j ==> mem'[k] == mem[k]
    ensures PutspOutput(mem', start) == PutspOutput(mem, start)
    decreases j - start
  {
    if start < j && mem[start] != 0 {
      PutspStopsAtTerminator(mem, mem', start + 1, j);
    }
  }

  /** `trap_putsp`: walks memory from the address in R0, printing each
      packed cell, until a zero cell or the end of memory; memory and
      registers are only read. */
  method TrapPutsp(regs: array<bv16>, memory: array<bv16>) returns (out: Text)
    requires Indexable(regs.Length, R0)
    ensures out == PutspOutput(memory[..], regs[Slot(R0)] as int)
  {
    ghost var mem := memory[..];
    var start: int := Read(regs[..], R0) as int;
    var idx := start;
    out := [];
    while idx < memory.Length && memory[idx] != 0
      invariant start <= idx
      invariant out + PutspOutput(mem, idx) == PutspOutput(mem, start)
      decreases memory.Length - idx
    {
      var cell := memory[idx];
      var printed := [LowChar(cell)];
      if HighByte(cell) != 0 {
        printed := printed + [ByteChar(HighByte(cell))];
      }
      assert printed == CellText(cell);
      PutspOutputStep(mem, idx);
      out := out + printed;
      idx := idx + 1;
    }
  }

  /** One step of PUTSP: the text from a nonzero cell is that cell's text
      followed by the text from the next cell. */
  lemma PutspOutputStep(mem: seq<bv16>, idx: nat)
    requires idx < |mem| && mem[idx] != 0
    ensures forall out: Text :: out + PutspOutput(mem, idx) == (out + CellText(mem[idx])) + PutspOutput(mem, idx + 1)
  {
    assert PutspOutput(mem, idx) == CellText(mem[idx]) + PutspOutput(mem, idx + 1);
  }

  /** PUTSP on 'H' (low byte) and 'i' (high byte) packed in one cell,
      followed by a zero cell, prints "Hi". */
  lemma PutspHi()
    ensures PutspOutput([0x6948, 0x0000], 0) == "Hi"
  {
  }

  /** PUTS as the routine is meant to behave: print the low byte of each
      cell up to, not including, the first zero cell (or the end of memory). */
  function PutsUntilZero(mem: seq<bv16>, start: nat): (out: Text)
    ensures |out| == NonzeroRun(mem, start)
    ensures |out| == 0 || start + |out| <= |mem|
    decreases |mem| - start
  {
    if start >= |mem| || mem[start] == 0 then [] else [LowChar(mem[start])] + PutsUntilZero(mem, start + 1)
  }

  /** Character k of the intended PUTS text is the low byte of cell start + k. */
  lemma {:induction false} PutsUntilZeroChars(mem: seq<bv16>, start: nat)
    ensures forall k :: 0 <= k < |PutsUntilZero(mem, start)| ==> PutsUntilZero(mem, start)[k] == LowChar(mem[start + k])
    decreases |mem| - start
  {
    if start < |mem| && mem[start] != 0 {
      PutsUntilZeroChars(mem, start + 1);
    }
  }

  /** Corrected `trap_puts`: stops at the zero cell that ends the string. */
  method TrapPutsTerminated(r0: bv16, memory: array<bv16>) returns (out: Text)
    ensures out == PutsUntilZero(memory[..], r0 as int)
  {
    ghost var mem := memory[..];
    var idx: int := r0 as int;
    out := [];
    while idx < memory.Length && memory[idx] != 0
      invariant r0 as int <= idx
      invariant out + PutsUntilZero(mem, idx) == PutsUntilZero(mem, r0 as int)
      decreases memory.Length - idx
    {
      PutsUntilZeroStep(mem, idx);
      out := out + [LowChar(memory[idx])];
      idx := idx + 1;
    }
  }

  /** One step of the corrected PUTS. */
  lemma PutsUntilZeroStep(mem: seq<bv16>, idx: nat)
    requires idx < |mem| && mem[idx] != 0
    ensures forall out: Text :: out + PutsUntilZero(mem, idx) == (out + [LowChar(mem[idx])]) + PutsUntilZero(mem, idx + 1)
  {
    assert PutsUntilZero(mem, idx) == [LowChar(mem[idx])] + PutsUntilZero(mem, idx + 1);
  }

  /** `trap_puts` as written runs past the terminator: on "Hi", 0, '!' it
      prints the zero and the '!' as well, where the corrected routine
      prints "Hi". */
  lemma PutsRunsPastTerminator()
    ensures PutsOutput([0x48, 0x69, 0x00, 0x21], 0) == "Hi\0!"
    ensures PutsUntilZero([0x48, 0x69, 0x00, 0x21], 0) == "Hi"
  {
  }
}
