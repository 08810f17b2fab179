# LC-3 emulator core, modelled in Dafny

This project models the early core of a Rust emulator for the LC-3, the 16-bit
teaching computer of Patt and Patel's *Introduction to Computing Systems*.
In this version the fetch/decode/execute engine is still a stub: `cycle` only
reads PC, and `memory_read` returns its argument. The model follows the code,
not the LC-3 opcode table. It covers:

- **Opcodes** (`opcodes.dfy`, src/lc3/opcodes.rs): the sixteen opcodes and
  their discriminants, and `sign_extend`. Lemmas state what `SignExtend` does
  bit by bit, and prove its two's-complement meaning by induction over the
  bits of a word.
- **Registers** (`registers.dfy`, src/lc3/registers.rs): the ten named
  register slots. `Index<Register>` is a read of a slot, and `IndexMut<Register>`
  becomes a method that writes exactly one slot of the register array. The
  module also holds the condition flags and the memory-mapped keyboard
  registers. vm.rs and cpu.rs repeat the same `Register` and `Flag`
  declarations and `Index`/`IndexMut` impls, so they are modelled once, here.
- **Traps** (`traps.dfy`, src/lc3/traps.rs): `TrapVector::from_u16` and the
  five I/O routines. The routines take the register and memory slices as
  arrays. Routines that only read have no `modifies` clause, so the verifier
  checks that they write nothing. The byte read from standard input is a
  parameter. What a routine prints is returned as text, one character per
  printed `u8 as char`. The `Trap` enum of vm.rs is `TrapVector` with the
  same discriminants.
- **Vm** (`vm.dfy`, src/lc3/vm.rs): the `VirtualMachine` class, with memory, the
  register array and the halted flag. It has the constructor, the stub
  memory read, the stub cycle and the run loop.
- **Cpu** (`cpu.dfy`, src/lc3/cpu.rs): the `Cpu` class, with RAM sized for
  the whole 16-bit address space, its constructor and its two read accessors.
  Its `OpCode` enum is the one in `Opcodes`.
- **Words** (`words.dfy`): shared helpers. These are bits of a word, the
  number a word denotes (`Unsigned`, the sum of its bits' weights),
  two's-complement reading, and bytes and characters.

Where the code and the usual LC-3 description differ, the model follows the code:
- PUTS prints to the end of memory. See Findings below.
- PUTSP stops at a zero word, not at a zero low byte. A cell whose low byte
  is zero but whose high byte is not prints a NUL character and then the high byte.
- IN prints a prompt and does not echo the byte it reads.
- A new machine's PC is 0, not 0x3000.
- The VM has 65535 memory cells.
- `run` halts after one cycle whatever the cycle did.

## Model

| member | source | states |
|---|---|---|
| Opcodes.Ordinal | src/lc3/opcodes.rs:1-18 | each opcode's discriminant is below 16; RTI is exactly 0x8 and RES exactly 0xD |
| Opcodes.OrdinalIsListingPosition | src/lc3/opcodes.rs:1-18 | the discriminants are the declaration positions 0x0..0xF, both ways: a bijection between opcodes and 4-bit codes |
| Opcodes.OrdinalInjective | src/lc3/cpu.rs:60-77 | two opcodes with the same discriminant are equal |
| Opcodes.SignExtend | src/lc3/opcodes.rs:21-26 | for 1 <= bits <= 15: with the sign bit (bits - 1) clear the result is x itself |
| Opcodes.SignExtendBits | src/lc3/opcodes.rs:21-26 | the low n bits of the result are those of x, and with the sign bit set every bit from n up is 1 |
| Opcodes.SignExtendNegative | src/lc3/opcodes.rs:22-24 | an n-bit field (no bit set from n upwards) with its sign bit set extends to a word with bit 15 set whose unsigned value is the field's plus 2^16 - 2^n |
| Opcodes.SignExtendTwosComplement | src/lc3/opcodes.rs:20-25 | for x < 2^n, the result read as 16-bit two's complement equals x read as an n-bit signed field |
| Opcodes.SignExtendIdempotent | src/lc3/opcodes.rs:22-25 | extending twice gives the same as extending once |
| Opcodes.SignExtendExamples | src/lc3/opcodes.rs:21-25 | all-ones 5-, 6-, 9- and 11-bit fields extend to 0xFFFF; the 5-bit 0x10 extends to 0xFFF0 |
| Registers.Slot | src/lc3/registers.rs:4-15 | every register's slot is below 10; PC is exactly slot 8 and COND exactly slot 9 |
| Registers.RegisterAt | src/lc3/registers.rs:4-15 | every slot 0..9 belongs to a register whose slot it is |
| Registers.SlotBijective | src/lc3/registers.rs:17-22 | slot-to-register undoes register-to-slot, and distinct registers have distinct slots |
| Registers.IndexableIffTenSlots | src/lc3/registers.rs:17-22 | every register indexes a slice in bounds exactly when the slice has at least 10 slots; a slice shorter than 9 fails on PC |
| Registers.Read | src/lc3/registers.rs:17-22 | reading a register yields a value held in the slice; every register is in bounds exactly on slices of at least 10 slots (`IndexableIffTenSlots`), and reading after a write gives the written value for that register and the old one for every other (`ReadAfterWrite`) |
| Registers.Write | src/lc3/registers.rs:25-28 | a write through a register changes its slot to the value and leaves every other slot and every other register as it was |
| Registers.ReadAfterWrite | src/lc3/registers.rs:17-28 | after a write, reading the written register gives the new value and reading any other gives the old one |
| Registers.FlagValue | src/lc3/registers.rs:32-36 | every flag value is a single bit (a nonzero power of two) |
| Registers.FlagsDisjoint | src/lc3/registers.rs:32-36 | two flags share no bit exactly when they are different flags |
| Registers.Address | src/lc3/registers.rs:39-42 | KBSR is exactly address 0xFE00 and KBDR exactly 0xFE02, so they are distinct |
| Traps.Code | src/lc3/traps.rs:5-12 | every vector's discriminant lies in 0x20..0x25 |
| Traps.FromU16 | src/lc3/traps.rs:15-24 | a value decodes exactly when it is in 0x20..0x25, and then to the vector with that discriminant; any other value is rejected, carrying the value |
| Traps.FromU16OfCode | src/lc3/traps.rs:5-22 | decoding a vector's discriminant gives back that vector |
| Traps.TrapGetc | src/lc3/traps.rs:29-33 | R0 becomes the input byte zero-extended to a word; every other slot is unchanged |
| Traps.LowChar | src/lc3/traps.rs:38-46 | `(w as u8) as char` is the character whose code point is the word's low byte |
| Traps.TrapOut | src/lc3/traps.rs:37-39 | prints exactly one character, whose code is R0's low byte; writes nothing |
| Traps.PutsOutput | src/lc3/traps.rs:42-49 | PUTS from r0 prints len - r0 characters (none when r0 >= len), character k being the low byte of cell r0 + k |
| Traps.TrapPuts | src/lc3/traps.rs:42-49 | the loop prints exactly the text above and writes no memory |
| Traps.TrapIn | src/lc3/traps.rs:52-57 | prints the prompt "Enter a character: " and nothing else; R0 becomes the input byte zero-extended; every other slot is unchanged |
| Traps.CellText | src/lc3/traps.rs:65-70 | a packed cell prints its low byte, then its high byte exactly when that byte is nonzero |
| Traps.NonzeroRunBounds | src/lc3/traps.rs:62-64 | the cells PUTSP consumes are all nonzero and inside memory, and it stops at the first zero cell or at the end of memory |
| Traps.PutspOutput | src/lc3/traps.rs:61-73 | PUTSP prints between one and two characters per consumed cell |
| Traps.PutspStopsAtTerminator | src/lc3/traps.rs:64 | two memories that agree from the start up to a zero cell give the same PUTSP text: nothing past the terminator is read |
| Traps.TrapPutsp | src/lc3/traps.rs:61-73 | the loop starting at R0 prints exactly the PUTSP text of memory and writes neither memory nor registers |
| Traps.PutspHi | src/lc3/traps.rs:61-73 | 'H' and 'i' packed low-then-high in one cell, followed by a zero cell, print "Hi" |
| Traps.PutsRunsPastTerminator | src/lc3/traps.rs:45-48 | on cells 'H', 'i', 0, '!' the routine as written prints "Hi\0!", where the intended routine prints "Hi" |
| Traps.PutsUntilZero | src/lc3/traps.rs:41-49 | intended PUTS text: one character per cell of the nonzero run from r0 (the run PUTSP consumes), all inside memory |
| Traps.PutsUntilZeroChars | src/lc3/traps.rs:45-47 | character k of the intended PUTS text is the low byte of cell r0 + k |
| Traps.TrapPutsTerminated | src/lc3/traps.rs:41-49 | the corrected loop prints exactly the intended PUTS text and writes no memory |
| Words.LowByte | src/lc3/traps.rs:38 | `as u8` keeps exactly the low 8 bits of the word |
| Words.HighByte | src/lc3/traps.rs:65 | the big-endian first byte is exactly the high 8 bits of the word |
| Words.ByteChar | src/lc3/traps.rs:46 | `as char` gives the character whose code point is the byte |
| Words.ByteSplit | src/lc3/traps.rs:65-69 | the two bytes put back together give the word, so PUTSP's split loses nothing |
| Vm.VirtualMachine.constructor | src/lc3/vm.rs:18-24 | a new machine has 65535 zero cells and ten zero registers, so PC is 0 and not PC_START; it is not halted |
| Vm.VirtualMachine.MemoryRead | src/lc3/vm.rs:58-60 | the stub yields the address it is given, whatever memory holds, and reads no state |
| Vm.VirtualMachine.Cycle | src/lc3/vm.rs:49-55 | a cycle leaves memory, registers and the halted flag as they were |
| Vm.VirtualMachine.Run | src/lc3/vm.rs:40-44 | a running machine performs exactly one cycle and a halted one none; afterwards it is halted, with memory and registers unchanged |
| Vm.RegistersInBounds | src/lc3/vm.rs:73-98 | every register indexes the machine's 10-slot register array in bounds |
| Vm.TopAddressOutsideMemory | src/lc3/vm.rs:8-12 | an address, used as an index, is inside memory exactly when it is not 0xFFFF: every access needs addr < 65535 |
| Cpu.Cpu.constructor | src/lc3/cpu.rs:11-16 | a new Cpu has 65536 zero RAM cells and ten zero registers |
| Cpu.Cpu.Ram | src/lc3/cpu.rs:18-20 | returns all 65536 cells, each equal to the current RAM cell; reading changes nothing |
| Cpu.Cpu.Regs | src/lc3/cpu.rs:22-24 | returns the 10 current register values, slot by slot; reading changes nothing |
| Cpu.EveryAddressInRam | src/lc3/cpu.rs:3-7 | every 16-bit address, used as an index, is inside RAM, and every register a valid register index |

## Left out

- Terminal I/O. GETC and IN take the input byte as a parameter. When the read fails (`read_exact(..).unwrap()` panics at end of input), the routine panics. That path is not modelled.
- Printed characters are returned as text. Rust writes each `u8 as char` to stdout in UTF-8. That encoding, and stdout buffering, are not modelled.
- `load_img` (src/lc3/vm.rs:27-37) is left out. It reads the file and prints its bytes, but never fills memory. File I/O is outside the model.
- The `println!` of the machine at the end of `run`, and the `Display` impl (src/lc3/vm.rs:45, 63-71), are left out. They only format text.
- src/main.rs is not part of this model: terminal raw mode, argument handling and exit codes.
- src/lc3/errors.rs and src/lc3/mod.rs are not part of this model. They hold a one-variant error type and module declarations.
- Opcode execution, condition-flag updates and keyboard status polling are left out. The code has none of them: the decode and execute steps of `cycle` are comments.
- Opcodes.SignExtend: the source is written with a C-like signature (`fn sign_extend(u16 x, i8 bits)`) and does not compile as Rust. The model gives its evident 16-bit meaning and admits widths 1 to 15.
- Traps.FromU16: the panic on an unknown vector is the `Unknown` result.
- Opcodes.SignExtendTwosComplement, Opcodes.SignExtendNegative: they state word values through `Unsigned`, the bit-sum reading of a word, while memory and register indices use Dafny's `as int` of the word. The model does not prove that the two readings agree.
- Registers.Read, Registers.Write, Traps.TrapGetc, Traps.TrapOut, Traps.TrapIn, Traps.TrapPutsp: in the source, indexing a register slice shorter than the register's slot panics (src/lc3/registers.rs:21, 27). Here the slot being in bounds is a precondition, so that panic is not modelled. `Registers.IndexableIffTenSlots` states which slice lengths fail.
- Vm.VirtualMachine.Run: the number of cycles is a ghost count of calls to `Cycle`. The source keeps no such counter.

## Findings

| source | as written | input that shows it | evidently intended | confidence | as-written member | corrected member |
|---|---|---|---|---|---|---|
| src/lc3/traps.rs:45-48 | the PUTS loop prints every cell from r0 to the end of memory and never checks for a zero cell | cells 0x48, 0x69, 0x0000, 0x21 from r0 = 0 print "Hi", NUL, "!" | print the string up to its zero terminator ("Hi"), as PUTSP does at line 64 | high, not executed | Traps.PutsRunsPastTerminator | Traps.TrapPutsTerminated |
| src/lc3/vm.rs:8 | `MEM_SIZE = u16::MAX`, i.e. 65535 cells | address 0xFFFF has no cell, so reading it would be out of bounds | one cell per 16-bit address (65536), as `RAM_SIZE` in src/lc3/cpu.rs:3 | medium, not executed | Vm.TopAddressOutsideMemory | Cpu.EveryAddressInRam |
