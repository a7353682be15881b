# A verified model of the nes-emu 6502 core and NES bus

This project models the core of a small NES emulator written in Rust. That core has two parts:

- **The 6502 CPU** (`src/cpu.rs`). It has the status-flag masks, a register file (accumulator, X, Y, program counter, stack pointer, status register) and the operand resolvers for the addressing modes. Its `step` fetches one opcode, executes it and returns the cycle count. It handles 36 opcodes, covering 11 instructions: the LDA/LDX/LDY loads, the STA/STX/STY stores, and the TAX, TAY, TSX, TXA and TXS transfers.
- **The NES bus** (`src/bus.rs`). It holds 2 KiB of work RAM at 0x0000..0x07FF and seven PPU register bytes behind the window 0x2000..0x2007.

The model has three modules:

- `Bits` (`bits.dfy`): Rust's `u8` and `u16` as the bounded integer types `Byte` and `Word`. The wrapping additions and the byte masks are written out as remainders and quotients. The module also holds small wrap-around lemmas.
- `Cpu` (`cpu.dfy`), in two layers:
  1. Functions on values. `GetAddress` and `CrossPageBoundaryCyclePenalty` are the two pure Rust functions. One `Resolve*` function per resolver gives the address, penalty and new program counter the resolver produces. `Decode` is the opcode table. `Execute` is one step, from registers and a 64 KiB memory.
  2. A `CPU` class. Its fields are the registers and its bus is a 65536-cell array. Its methods transcribe the Rust methods statement by statement. Each method's postcondition ties its effect to the value layer: every resolver method yields exactly what its `Resolve*` function gives for the old program counter and the memory. `Step` ends in exactly the state `Execute` gives for the old registers and memory. `step`'s one `match` is split across eight methods with identical statements in each arm. They are `Lda` (immediate, absolute, zero page, 0xA1), `LdaIndexed` (the four indexed LDA modes), `Ldx`, `Ldy`, `Sta` (absolute, zero page, zero page,X, (zp,X)), `StaIndexed` (absolute,X, absolute,Y, (zp),Y), `StxSty` (STX and STY together) and `TransferRegisters`. LDA and STA are split in two only to keep each proof small.

  Lemmas about the value layer state what the results mean: byte order, carries, page crossing, the 6502 page-wrap quirk of the indirect jump, and the effect of each instruction family on every register, flag, memory cell and cycle count. Example lemmas restate the Rust unit tests of the resolvers.
- `NesBus` (`bus.dfy`): a `Bus` class holding the RAM and PPU arrays. `Read` is a function of its state. `Write` is a method that updates one array cell in place.

A host calls `step` repeatedly and adds up the cycles it returns; `Cpu.Run` is that loop, n calls long. No such loop exists in the repository (`src/main.rs` only logs), so `Run` is not source behaviour. The model uses it only to carry per-step facts over many steps: a bound on the total cycle count, and the status bits that never change.

The Rust code departs from the real 6502 in these points, and the model follows the code:

- Opcode 0xA1, LDA (zp,X), resolves the pointer and then loads the byte after the operand, as if immediate (src/cpu.rs:259-267).
- The (zp,X) and (zp),Y pointers take their high byte with a 16-bit increment, so a pointer at 0xFF reads 0x0100 instead of wrapping to 0x0000 (src/cpu.rs:163, :173).
- Transfers report 0 cycles.
- STX absolute takes 3 cycles, and STX zero page and STX zero page,Y take 2 each.

Also modelled as written, and matching the 6502:

- TXS sets no flags.
- Stores never charge the page-cross cycle: STA absolute,X and absolute,Y always take 5 cycles and STA (zp),Y always takes 6.

On the bus side, a PPU read masks the address with 0x0001 (src/bus.rs:24), so PPU registers 2 to 6 can be written but never read back. The model follows the code here too.

## Model

| member | source | states |
|---|---|---|
| Cpu.FlagSetBits | src/cpu.rs:72-74 | setting or clearing a flag makes exactly its bits equal to the requested value and keeps every other status bit |
| Cpu.GetFlagAfterSetFlag | src/cpu.rs:68-74 | reading a nonzero flag right after setting it to a value gives that value |
| Cpu.CPU.GetFlag | src/cpu.rs:68-70 | a flag reads as set exactly when setting it would leave the status register unchanged, that is when all its bits are already set |
| Cpu.CPU.SetFlag | src/cpu.rs:72-74 | the status register becomes the old one with the flag's bits set or cleared; no other field changes |
| Cpu.ZeroAndNegativeFlags | src/cpu.rs:76-79 | after the update, Zero is set iff the value is 0, Negative is set iff bit 7 of the value is set, and the six other flags are unchanged |
| Cpu.ZeroAndNegativeExamples | src/cpu.rs:76-79 | the value 0x00 gives Zero without Negative; 0x80 gives Negative without Zero |
| Cpu.CPU.SetZeroAndNegativeFlag | src/cpu.rs:76-79 | only the status register changes, to the Zero/Negative update for the value |
| Cpu.CPU.constructor | src/cpu.rs:55-66 | the power-on state: pc 0, A, X and Y 0, sp 0xFD, status Unused and Interrupt-disable (0x24), and the given bus |
| Cpu.CPU.IncPc | src/cpu.rs:81-83 | pc advances by one, wrapping from 0xFFFF to 0 |
| Cpu.GetAddressBytes | src/cpu.rs:85-87 | the address built from two bytes has them as its offset and page, and splitting any address and rebuilding it gives it back |
| Cpu.PenaltyIsPageChange | src/cpu.rs:97-104 | the penalty is 0 or 1, and it is 1 exactly when the two addresses lie in different pages |
| Cpu.AbsoluteOperand | src/cpu.rs:89-95 | the first operand byte is the offset and the second the page of the address; pc moves on by 2; no penalty |
| Cpu.CPU.AddrAbsolute | src/cpu.rs:89-95 | returns the absolute operand read at the old pc and leaves pc after the two operand bytes |
| Cpu.AbsoluteIndexedOperand | src/cpu.rs:106-122 | the address is the absolute address plus the index, wrapping at 64 KiB; pc moves on by 2; the penalty is 1 exactly when the page changes, which happens exactly when adding the index to the low byte carries |
| Cpu.CPU.AddrAbsoluteX | src/cpu.rs:106-113 | returns the absolute,X address and penalty for the old pc and the current X |
| Cpu.CPU.AddrAbsoluteY | src/cpu.rs:115-122 | returns the absolute,Y address and penalty for the old pc and the current Y |
| Cpu.AbsoluteIndirectTarget | src/cpu.rs:124-134 | the target's low byte comes from the pointer; its high byte comes from the next offset within the pointer's own page, wrapping to offset 0, never from the next page |
| Cpu.CPU.AddrAbsoluteIndirect | src/cpu.rs:124-134 | pc becomes the indirect target read through the two operand bytes at the old pc |
| Cpu.ZeroPageOperand | src/cpu.rs:136-140 | the address is the operand byte, in page 0; pc moves on by 1 |
| Cpu.CPU.AddrZeroPage | src/cpu.rs:136-140 | returns the zero-page operand at the old pc and advances pc by 1 |
| Cpu.ZeroPageIndexedOperand | src/cpu.rs:142-154 | the address is operand plus index modulo 0x100, so never outside page 0; pc moves on by 1; no penalty |
| Cpu.CPU.AddrZeroPageX | src/cpu.rs:142-147 | returns the zero page,X address for the old pc and X |
| Cpu.CPU.AddrZeroPageY | src/cpu.rs:149-154 | returns the zero page,Y address for the old pc and Y |
| Cpu.ZeroPageXIndirectOperand | src/cpu.rs:156-166 | the pointer is operand plus X modulo 0x100; the address's low byte is read at the pointer and its high byte at pointer + 1, without wrapping back into page 0 |
| Cpu.ZeroPageXIndirectPointerAtFF | src/cpu.rs:156-166 | a pointer at 0xFF takes the address from cells 0x00FF and 0x0100 |
| Cpu.CPU.AddrZeroPageXIndirect | src/cpu.rs:156-166 | returns the (zp,X) address for the old pc and X and advances pc by 1 |
| Cpu.ZeroPageYIndirectOperand | src/cpu.rs:168-185 | the address is the base read through the zero-page pointer, plus Y, wrapping at 64 KiB; the penalty is 0 or 1, and it is 1 exactly when adding Y to the base's low byte carries |
| Cpu.CPU.AddrZeroPageYIndirect | src/cpu.rs:168-185 | returns the (zp),Y address and penalty for the old pc and Y and advances pc by 1 |
| Cpu.RelativeOperand | src/cpu.rs:187-201 | the offset is a signed byte in -128..127; the target is the pc after the offset byte plus the offset, wrapping at 64 KiB; pc becomes the target; the penalty is 1 exactly when the target leaves the page of that pc |
| Cpu.RelativeReachesEveryTargetInRange | src/cpu.rs:187-201 | every target from 128 bytes back to 127 bytes forward of the pc after the offset byte is the target of some offset byte; with RelativeOperand these are exactly the reachable targets |
| Cpu.CPU.AddrRelative | src/cpu.rs:187-201 | returns the relative target and penalty for the old pc, and pc becomes the target |
| Cpu.ImplementedOpcodes | src/cpu.rs:203-453 | step handles exactly the opcodes of the set IMPLEMENTED; every other byte takes the panic arm |
| Cpu.ImplementedOpcodeCount | src/cpu.rs:208-449 | IMPLEMENTED holds 36 distinct opcodes, the arms of step's match before its panic arm |
| Cpu.ResolveOperand | src/cpu.rs:89-201 | every addressing mode moves pc past exactly its operand bytes and reports a penalty of at most 1; only absolute,X, absolute,Y and (zp),Y report any |
| Cpu.ExecuteAdvancesPc | src/cpu.rs:203-453 | after a step, pc is past the whole instruction (opcode plus operand bytes), wrapping at 64 KiB |
| Cpu.ExecuteCycles | src/cpu.rs:203-453 | no implemented instruction takes more than 6 cycles, penalty included |
| Cpu.RunCycles | src/cpu.rs:203-453 | n successive steps that do not reach an unhandled opcode take at most 6 n cycles in total |
| Cpu.ExecuteKeepsOtherFlags | src/cpu.rs:76-79 | a step changes no status bit except Zero and Negative, the only ones set_zero_and_negative_flag touches |
| Cpu.ExecuteKeepsUnused | src/cpu.rs:55-79 | the Unused bit, set by new, stays set across any step |
| Cpu.RunKeepsOtherFlags | src/cpu.rs:76-79 | over any n steps, no status bit except Zero and Negative changes |
| Cpu.RunKeepsUnused | src/cpu.rs:55-79 | the Unused bit stays set over any n steps |
| Cpu.SignedStepPage | src/cpu.rs:193-198 | adding a signed step of less than a page to an address changes its page exactly when the step takes the low byte below 0 or above 0xFF |
| Cpu.ExecuteLoad | src/cpu.rs:209-356 | a load puts the byte at the effective address into its register and sets Zero/Negative from that byte; the other flags and registers and all of memory are unchanged; cycles are the base count plus the penalty, so at most one more, and exactly the base count for the modes without a penalty |
| Cpu.ExecuteStore | src/cpu.rs:357-423 | a store writes its register to the effective address and changes no other cell; only pc changes among the registers; cycles are the base count, even when the page is crossed |
| Cpu.ExecuteTransfer | src/cpu.rs:424-447 | a transfer copies the source register into the destination and changes no other register; TXS keeps the status register, and the others set Zero/Negative from the copied value; pc advances by 1; memory is unchanged; 0 cycles |
| Cpu.LdaXIndirectLoadsNextByte | src/cpu.rs:259-267 | opcode 0xA1 loads the byte two past the opcode, whatever X and the pointer hold; pc advances by 3; 6 cycles |
| Cpu.LdaImmediateExample | src/cpu.rs:209-216 | LDA #$80 loads 0x80, sets Negative, clears Zero and takes 2 cycles |
| Cpu.LdaAbsoluteXPageCrossExample | src/cpu.rs:225-233 | LDA $00FF,X with X = 1 at 0x0600 loads from 0x0100, ends at pc 0x0603, and takes 4 + 1 cycles for the page cross |
| Cpu.CPU.Step | src/cpu.rs:203-453 | the fields and the bus after a step are exactly those Execute gives for the old registers and memory, and the returned cycles are Execute's count |
| Cpu.CPU.Lda | src/cpu.rs:209-267 | LDA immediate, absolute, zero page and 0xA1 have the effect Execute gives |
| Cpu.CPU.LdaIndexed | src/cpu.rs:225-274 | LDA absolute,X, absolute,Y, zero page,X and (zp),Y have the effect Execute gives |
| Cpu.CPU.Ldx | src/cpu.rs:275-315 | the five LDX opcodes have the effect Execute gives |
| Cpu.CPU.Ldy | src/cpu.rs:316-356 | the five LDY opcodes have the effect Execute gives |
| Cpu.CPU.Sta | src/cpu.rs:357-392 | STA absolute, zero page, zero page,X and (zp,X) write the bus as Execute gives |
| Cpu.CPU.StaIndexed | src/cpu.rs:362-392 | STA absolute,X, absolute,Y and (zp),Y write the bus as Execute gives, dropping the penalty the resolver reports |
| Cpu.CPU.StxSty | src/cpu.rs:393-423 | the STX and STY opcodes write the bus as Execute gives, with the cycle counts 3, 2, 2 and 4, 3, 4 |
| Cpu.CPU.TransferRegisters | src/cpu.rs:424-447 | TAX, TAY, TSX, TXA and TXS have the effect Execute gives |
| Cpu.AbsoluteExample | src/cpu.rs:500-513 | operand bytes 0x34, 0x12 at 0x1000 give address 0x1234 and pc 0x1002 |
| Cpu.AbsoluteIndexedExamples | src/cpu.rs:515-573 | 0x00FD + 1 gives 0x00FE with no penalty; 0x00FF + 1 gives 0x0100 with penalty 1 |
| Cpu.AbsoluteIndirectExamples | src/cpu.rs:575-602 | pointer 0x12FD reads 0x12FD/0x12FE; pointer 0x12FF reads 0x12FF/0x1200; both give 0x2321 |
| Cpu.ZeroPageExamples | src/cpu.rs:605-641 | operand 0x23 addresses 0x0023; 0xFD plus 4 wraps to 0x0001 |
| Cpu.ZeroPageXIndirectExample | src/cpu.rs:644-659 | operand 0xFC plus X = 2 is pointer 0xFE, giving address 0x1234 |
| Cpu.ZeroPageYIndirectExample | src/cpu.rs:662-675 | base 0x02FF plus Y = 1 gives 0x0300 with penalty 1 |
| Cpu.RelativeExamples | src/cpu.rs:678-703 | offset 0x0A from 0x1001 gives 0x100B with no penalty; offset 0xF1 (-15) gives 0x0FF2 with penalty 1 |
| NesBus.WritableAddresses | src/bus.rs:29-35 | a write succeeds exactly on 0x0000..0x07FF and 0x2000..0x2006; 0x2007 indexes past the seven-byte PPU array; every writable address is readable |
| NesBus.Bus.constructor | src/bus.rs:12-17 | fresh RAM of 2048 zero bytes and a fresh PPU array of 7 zero bytes |
| NesBus.Bus.Read | src/bus.rs:21-27 | a RAM address reads its own cell; a PPU address reads register 0 when even and register 1 when odd |
| NesBus.Bus.PpuReadsAlias | src/bus.rs:24 | any two PPU addresses of the same parity read the same byte |
| NesBus.Bus.Write | src/bus.rs:29-35 | a RAM write sets that cell only; a PPU write sets register address - 0x2000 only; reading the address back gives the value for RAM and for 0x2000/0x2001, and the old byte for 0x2002..0x2006 |

## Left out

- The `println!` in `addr_relative` (src/cpu.rs:191) prints to the console and has no effect on state.
- The `stack` field and `STACK_SIZE_IN_BYTES` (src/cpu.rs:4, 49) are never read or written, so they are not modelled.
- The `bitflags` library is not modelled. The status register is a `bv8`, and the library's `contains` and `set` are written out as mask operations.
- The CPU's generic `Memory` parameter is modelled as a 65536-byte array. The test `MockBus` (src/cpu.rs:461-479) has 0xFFFF cells, so in the Rust tests address 0xFFFF would be out of bounds. The model gives every 16-bit address a cell. The CPU model is not composed with `NesBus.Bus`; the Bus's own panics are preconditions of its model.
- Panics are preconditions. `Step` and `Execute` require an opcode that `step` handles. `Read` and `Write` require an address the bus maps, and `Write` also requires an index inside the PPU array.
- `Resolve*` penalties: the Rust resolvers without a penalty return only an address. The model gives them a penalty of 0 so that all modes share one result type.
- src/main.rs only logs, and src/nes.rs is a struct with no logic; neither is part of this model.
- `u64` cycle counts are unbounded `nat`s; no step comes near the `u64` range.
