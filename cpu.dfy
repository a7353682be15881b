/** The 6502 core of the emulator: status-flag masks, operand resolution for the
    addressing modes, and the one-instruction step over a 64 KiB byte memory.

    The module has two layers.  The functions (GetAddress, the Resolve* family,
    Decode, Execute) compute, on values, what each piece of the CPU computes, and
    the lemmas beside them state what those values mean.  The class CPU holds
    the registers as fields and the memory as an array and transcribes the Rust
    methods statement by statement; each of its methods is proved to agree with
    the corresponding function. */
module Cpu {
  import opened Bits

  datatype Option<T> = None | Some(value: T)

  // ---------------------------------------------------------------------------
  // Status register

  /** The bit masks of the eight flags (CpuFlags). */
  const CARRY: bv8 := 0x01
  const ZERO: bv8 := 0x02
  const INTERRUPT_DISABLE: bv8 := 0x04
  const DECIMAL_MODE: bv8 := 0x08
  const BREAK: bv8 := 0x10
  const UNUSED: bv8 := 0x20
  const OVERFLOW: bv8 := 0x40
  const NEGATIVE: bv8 := 0x80

  /** Setting or clearing the bits of `flag` in `sr` (the bitflags `set`
      operation). */
  function FlagSet(sr: bv8, flag: bv8, value: bool): bv8
  {
    if value then sr | flag else sr & !flag
  }

  /** FlagSet forces the bits of `flag` to `value` and keeps every other bit. */
  lemma FlagSetBits(sr: bv8, flag: bv8, value: bool)
    ensures FlagSet(sr, flag, value) & flag == (if value then flag else 0)
    ensures FlagSet(sr, flag, value) & !flag == sr & !flag
  {
  }

  /** Reading a nonzero flag back after setting it to `value` gives `value`
      (get_flag's test, sr & flag == flag, on the new status register). */
  lemma GetFlagAfterSetFlag(sr: bv8, flag: bv8, value: bool)
    requires flag != 0
    ensures (FlagSet(sr, flag, value) & flag == flag) == value
  {
    FlagSetBits(sr, flag, value);
  }

  /** The status byte after set_zero_and_negative_flag(value). */
  function ZeroAndNegative(sr: bv8, value: Byte): bv8
  {
    // for a byte, (value & 0x80) != 0 is value >= 0x80
    FlagSet(FlagSet(sr, ZERO, value == 0), NEGATIVE, value >= 0x80)
  }

  /** Zero tells whether the value is 0, Negative copies its bit 7, and the six
      other flags keep their state. */
  lemma ZeroAndNegativeFlags(sr: bv8, value: Byte)
    ensures var r := ZeroAndNegative(sr, value);
            && (r & ZERO != 0 <==> value == 0)
            && (r & NEGATIVE != 0 <==> value >= 0x80)
            && r & !(ZERO | NEGATIVE) == sr & !(ZERO | NEGATIVE)
  {
  }

  lemma ZeroAndNegativeExamples(sr: bv8)
    ensures ZeroAndNegative(sr, 0x00) & (ZERO | NEGATIVE) == ZERO
    ensures ZeroAndNegative(sr, 0x80) & (ZERO | NEGATIVE) == NEGATIVE
  {
  }

  // ---------------------------------------------------------------------------
  // Registers, memory and addresses

  /** The register file: accumulator, index registers, program counter, stack
      pointer and status register. */
  datatype Registers = Registers(ac: Byte, x: Byte, y: Byte, pc: Word, sp: Byte, sr: bv8)

  /** The 64 KiB address space the CPU reads and writes. */
  type Memory = m: seq<Byte> | |m| == 0x10000 witness seq(0x10000, _ => 0)

  /** The 16-bit address with low byte `lsb` and high byte `msb`. */
  function GetAddress(lsb: Byte, msb: Byte): Word
  {
    // (msb as u16) << 8 | lsb as u16
    msb * 0x100 + lsb
  }

  /** GetAddress and the split of an address into page and offset are inverse. */
  lemma GetAddressBytes(lsb: Byte, msb: Byte, a: Word)
    ensures Offset(GetAddress(lsb, msb)) == lsb && Page(GetAddress(lsb, msb)) == msb
    ensures GetAddress(Offset(a), Page(a)) == a
  {
  }

  /** The extra cycle charged when `effective` does not lie in the page of `base`. */
  function CrossPageBoundaryCyclePenalty(base: Word, effective: Word): nat
  {
    // base & 0xFF00 != effective & 0xFF00
    if base - base % 0x100 != effective - effective % 0x100 then 1 else 0
  }

  lemma PenaltyIsPageChange(base: Word, effective: Word)
    ensures CrossPageBoundaryCyclePenalty(base, effective) <= 1
    ensures CrossPageBoundaryCyclePenalty(base, effective) == 1 <==> Page(base) != Page(effective)
  {
  }

  /** What an addressing-mode resolver yields: the effective address, the
      page-cross penalty it reports (0 for the modes that report none) and the
      program counter after the operand bytes. */
  datatype Operand = Operand(address: Word, penalty: nat, pc: Word)

  // ---------------------------------------------------------------------------
  // Addressing modes, on values.  `pc` is the address of the first operand
  // byte.  Each function follows the Rust resolver; the lemma after it states
  // what its result is.

  /** absolute */
  function ResolveAbsolute(mem: Memory, pc: Word): Operand
  {
    var lsb := mem[pc];
    var next := WrappingAddWord(pc, 1);
    var msb := mem[next];
    Operand(GetAddress(lsb, msb), 0, WrappingAddWord(next, 1))
  }

  /** The two operand bytes are the address, low byte first; pc moves on by 2. */
  lemma AbsoluteOperand(mem: Memory, pc: Word)
    ensures var o := ResolveAbsolute(mem, pc);
            && Offset(o.address) == mem[pc]
            && Page(o.address) == mem[(pc + 1) % 0x10000]
            && o.pc == (pc + 2) % 0x10000
            && o.penalty == 0
  {
  }

  /** absolute,X and absolute,Y */
  function ResolveAbsoluteIndexed(mem: Memory, pc: Word, index: Byte): Operand
  {
    var base := ResolveAbsolute(mem, pc);
    var effective := WrappingAddWord(base.address, index);
    Operand(effective, CrossPageBoundaryCyclePenalty(base.address, effective), base.pc)
  }

  /** The absolute address plus the index, wrapping at 64 KiB; the penalty is 1
      exactly when the page changes, which is exactly when adding the index to
      the low byte carries. */
  lemma {:induction false} AbsoluteIndexedOperand(mem: Memory, pc: Word, index: Byte)
    ensures var base := ResolveAbsolute(mem, pc).address;
            var o := ResolveAbsoluteIndexed(mem, pc, index);
            && o.address == (base + index) % 0x10000
            && o.pc == (pc + 2) % 0x10000
            && o.penalty <= 1
            && (o.penalty == 1 <==> Page(base) != Page(o.address))
            && (o.penalty == 1 <==> Offset(base) + index >= 0x100)
  {
    var base := ResolveAbsolute(mem, pc).address;
    AbsoluteOperand(mem, pc);
    WrapWord(base as int + index);
    var e := (base + index) % 0x10000;
    PenaltyIsPageChange(base, e);
    PageOffsetSplit(base);
    var page, within := Page(base), Offset(base) + index;
    if within >= 0x100 {
      WrapByte(page as int + 1);
      var p := (page + 1) % 0x100;
      assert e == p * 0x100 + (within - 0x100);
      PageOffsetOf(p, within - 0x100);
    } else {
      assert e == page * 0x100 + within;
      PageOffsetOf(page, within);
    }
  }

  /** absolute indirect: the new program counter */
  function ResolveAbsoluteIndirect(mem: Memory, pc: Word): Word
  {
    var ptr := ResolveAbsolute(mem, pc).address;
    var lsb := mem[ptr];
    // ptr & 0x00FF == 0x00FF ? ptr & 0xFF00 : ptr.wrapping_add(1)
    var high := if ptr % 0x100 == 0xFF then ptr - ptr % 0x100 else WrappingAddWord(ptr, 1);
    GetAddress(lsb, mem[high])
  }

  /** The target's low byte is at the pointer; its high byte is read from the
      pointer's own page, at the next offset wrapping within that page, so it
      never comes from the next page. */
  lemma AbsoluteIndirectTarget(mem: Memory, pc: Word)
    ensures var ptr := ResolveAbsolute(mem, pc).address;
            var target := ResolveAbsoluteIndirect(mem, pc);
            && Offset(target) == mem[ptr]
            && Page(target) == mem[Page(ptr) * 0x100 + (Offset(ptr) + 1) % 0x100]
  {
    var ptr := ResolveAbsolute(mem, pc).address;
    var high := if ptr % 0x100 == 0xFF then ptr - ptr % 0x100 else WrappingAddWord(ptr, 1);
    PageOffsetSplit(ptr);
    WrapByte(Offset(ptr) + 1);
    if Offset(ptr) != 0xFF {
      WrapWord(ptr + 1);
    }
    assert high == Page(ptr) * 0x100 + (Offset(ptr) + 1) % 0x100;
    PageOffsetOf(mem[high], mem[ptr]);
  }

  /** zero page */
  function ResolveZeroPage(mem: Memory, pc: Word): Operand
  {
    Operand(GetAddress(mem[pc], 0), 0, WrappingAddWord(pc, 1))
  }

  /** The operand byte zero-extended; pc moves on by 1. */
  lemma ZeroPageOperand(mem: Memory, pc: Word)
    ensures var o := ResolveZeroPage(mem, pc);
            && o.address == mem[pc] && Page(o.address) == 0
            && o.pc == (pc + 1) % 0x10000 && o.penalty == 0
  {
  }

  /** zero page,X and zero page,Y */
  function ResolveZeroPageIndexed(mem: Memory, pc: Word, index: Byte): Operand
  {
    Operand(WrappingAddByte(mem[pc], index), 0, WrappingAddWord(pc, 1))
  }

  /** Operand plus index wrapping within page 0, which it never leaves. */
  lemma ZeroPageIndexedOperand(mem: Memory, pc: Word, index: Byte)
    ensures var o := ResolveZeroPageIndexed(mem, pc, index);
            && o.address == (mem[pc] + index) % 0x100 && Page(o.address) == 0
            && o.pc == (pc + 1) % 0x10000 && o.penalty == 0
  {
  }

  /** (zero page,X) */
  function ResolveZeroPageXIndirect(mem: Memory, pc: Word, x: Byte): Operand
  {
    var zp := WrappingAddByte(mem[pc], x);
    var lsb := mem[zp];
    var msb := mem[WrappingAddWord(zp, 1)];
    Operand(GetAddress(lsb, msb), 0, WrappingAddWord(pc, 1))
  }

  /** Operand plus X, wrapping in page 0, is a pointer; the address is read from
      it, the high byte with a 16-bit increment, so from zp + 1 and never
      wrapped back into page 0. */
  lemma ZeroPageXIndirectOperand(mem: Memory, pc: Word, x: Byte)
    ensures var zp := (mem[pc] + x) % 0x100;
            var o := ResolveZeroPageXIndirect(mem, pc, x);
            && Offset(o.address) == mem[zp] && Page(o.address) == mem[zp + 1]
            && o.pc == (pc + 1) % 0x10000 && o.penalty == 0
  {
  }

  /** A pointer at 0xFF takes its high byte from 0x0100. */
  lemma ZeroPageXIndirectPointerAtFF(mem: Memory, pc: Word, x: Byte)
    requires (mem[pc] + x) % 0x100 == 0xFF
    ensures ResolveZeroPageXIndirect(mem, pc, x).address == GetAddress(mem[0xFF], mem[0x100])
  {
  }

  /** (zero page),Y */
  function ResolveZeroPageYIndirect(mem: Memory, pc: Word, y: Byte): Operand
  {
    var zp := mem[pc];
    var lsb := mem[zp];
    var msb := mem[WrappingAddWord(zp, 1)];
    var base := GetAddress(lsb, msb);
    // y.overflowing_add(lsb), then the carry into the high byte
    var overflow := y + lsb >= 0x100;
    var newLsb := WrappingAddByte(y, lsb);
    var newMsb := WrappingAddByte(msb, if overflow then 1 else 0);
    // u16::from_le_bytes([newLsb, newMsb])
    var effective := GetAddress(newLsb, newMsb);
    Operand(effective, CrossPageBoundaryCyclePenalty(base, effective), WrappingAddWord(pc, 1))
  }

  /** The base address read from the zero-page pointer plus Y, wrapping at
      64 KiB; the penalty is 1 exactly when adding Y to the low byte carries. */
  lemma {:induction false} ZeroPageYIndirectOperand(mem: Memory, pc: Word, y: Byte)
    ensures var zp := mem[pc];
            var base := GetAddress(mem[zp], mem[zp + 1]);
            var o := ResolveZeroPageYIndirect(mem, pc, y);
            && o.address == (base + y) % 0x10000
            && o.penalty <= 1
            && (o.penalty == 1 <==> mem[zp] + y >= 0x100)
            && o.pc == (pc + 1) % 0x10000
  {
    var zp := mem[pc];
    WrapWord(zp as int + 1);
    var lsb, msb := mem[zp], mem[zp + 1];
    var base := GetAddress(lsb, msb);
    var o := ResolveZeroPageYIndirect(mem, pc, y);
    WrapByte(y as int + lsb);
    WrapByte(msb as int + 1);
    WrapWord(base as int + y);
    WrapWord(pc + 1);
    PageOffsetOf(msb, lsb);
    PenaltyIsPageChange(base, o.address);
    if lsb + y >= 0x100 {
      var newMsb := (msb + 1) % 0x100;
      assert o.address == newMsb * 0x100 + (lsb + y - 0x100);
      PageOffsetOf(newMsb, lsb + y - 0x100);
    } else {
      assert o.address == msb * 0x100 + (lsb + y);
      PageOffsetOf(msb, lsb + y);
    }
  }

  /** The operand byte read as a two's-complement i8. */
  function AsI8(b: Byte): int
  {
    if b < 0x80 then b else b - 0x100
  }

  /** relative: the operand is also the new program counter */
  function ResolveRelative(mem: Memory, pc: Word): Operand
  {
    var offset := AsI8(mem[pc]);
    var base := WrappingAddWord(pc, 1);
    // u16::wrapping_add_signed adds `offset as i16 as u16`, wrapping
    var effective := WrappingAddWord(base, (offset + 0x10000) % 0x10000);
    Operand(effective, CrossPageBoundaryCyclePenalty(base, effective), effective)
  }

  /** The program counter after the offset byte plus the signed offset, wrapping
      at 64 KiB; the penalty is 1 exactly when the target leaves the page of
      that program counter, that is when offset and low byte together fall
      outside 0..0xFF. */
  lemma {:induction false} RelativeOperand(mem: Memory, pc: Word)
    ensures var base := (pc + 1) % 0x10000;
            var offset := AsI8(mem[pc]);
            var o := ResolveRelative(mem, pc);
            && -0x80 <= offset < 0x80
            && o.address == (base + offset) % 0x10000
            && o.pc == o.address
            && o.penalty <= 1
            && (o.penalty == 1 <==> Page(base) != Page(o.address))
            && (o.penalty == 1 <==> Offset(base) + offset < 0 || Offset(base) + offset >= 0x100)
  {
    WrapWord(pc + 1);
    var base := (pc + 1) % 0x10000;
    var offset := AsI8(mem[pc]);
    WrapWord(offset + 0x10000);
    WrapWord(base + (offset + 0x10000) % 0x10000);
    WrapWord(base + offset);
    var e := (base + offset) % 0x10000;
    assert ResolveRelative(mem, pc).address == e;
    PenaltyIsPageChange(base, e);
    SignedStepPage(base, offset);
  }

  /** Adding a small signed step to an address changes its page exactly when
      the step takes the offset out of 0..0xFF. */
  lemma SignedStepPage(base: Word, step: int)
    requires -0x100 <= step < 0x100
    ensures var e := (base + step) % 0x10000;
            Page(base) != Page(e) <==> Offset(base) + step < 0 || Offset(base) + step >= 0x100
  {
    var e := (base + step) % 0x10000;
    WrapWord(base + step);
    PageOffsetSplit(base);
    var page, within := Page(base), Offset(base) + step;
    if within < 0 {
      WrapByte(page - 1);
      var p := (page - 1) % 0x100;
      assert e == p * 0x100 + (within + 0x100);
      PageOffsetOf(p, within + 0x100);
    } else if within >= 0x100 {
      WrapByte(page + 1);
      var p := (page + 1) % 0x100;
      assert e == p * 0x100 + (within - 0x100);
      PageOffsetOf(p, within - 0x100);
    } else {
      assert e == page * 0x100 + within;
      PageOffsetOf(page, within);
    }
  }

  /** Where a branch at `pc` goes when its offset byte is `offset`. */
  function BranchTarget(mem: Memory, pc: Word, offset: Byte): Word
  {
    ResolveRelative(mem[pc := offset], pc).address
  }

  /** Every target from 128 bytes back to 127 bytes forward of the program
      counter after the offset byte is reached by some offset byte; with
      RelativeOperand, these are exactly the targets a branch can reach. */
  lemma RelativeReachesEveryTargetInRange(mem: Memory, pc: Word, d: int)
    requires -0x80 <= d < 0x80
    ensures exists b: Byte :: BranchTarget(mem, pc, b) == (pc + 1 + d) % 0x10000
  {
    var b: Byte := if d < 0 then d + 0x100 else d;
    var m: Memory := mem[pc := b];
    assert AsI8(m[pc]) == d;
    RelativeOperand(m, pc);
    WrapWord(pc as int + 1);
    WrapWord(pc as int + 1 + d);
    WrapWord((pc + 1) % 0x10000 + d);
    assert BranchTarget(mem, pc, b) == (pc + 1 + d) % 0x10000;
  }

  // ---------------------------------------------------------------------------
  // The instruction table and one step, on values

  /** The registers an instruction reads or writes; S is the stack pointer. */
  datatype Reg = A | X | Y | S

  /** The operand forms the implemented opcodes use.  XIndirectThenImmediate is
      how opcode 0xA1 behaves: it resolves a (zero page,X) pointer, discards the
      address, and takes the next byte at the program counter as its operand. */
  datatype Mode =
    | Immediate
    | ZeroPage | ZeroPageX | ZeroPageY
    | Absolute | AbsoluteX | AbsoluteY
    | XIndirect | IndirectY
    | XIndirectThenImmediate

  /** An implemented instruction with its base cycle count. */
  datatype Instruction =
    | Load(dst: Reg, mode: Mode, cycles: nat)
    | Store(src: Reg, mode: Mode, cycles: nat)
    | Transfer(src: Reg, dst: Reg)

  /** The opcode table of step: every byte with a handler, and nothing for the
      bytes on which step panics. */
  function Decode(opcode: Byte): Option<Instruction>
  {
    match opcode
    // LDA
    case 0xA9 => Some(Load(A, Immediate, 2))
    case 0xAD => Some(Load(A, Absolute, 4))
    case 0xBD => Some(Load(A, AbsoluteX, 4))
    case 0xB9 => Some(Load(A, AbsoluteY, 4))
    case 0xA5 => Some(Load(A, ZeroPage, 3))
    case 0xB5 => Some(Load(A, ZeroPageX, 4))
    case 0xA1 => Some(Load(A, XIndirectThenImmediate, 6))
    case 0xB1 => Some(Load(A, IndirectY, 5))
    // LDX
    case 0xA2 => Some(Load(X, Immediate, 2))
    case 0xAE => Some(Load(X, Absolute, 4))
    case 0xBE => Some(Load(X, AbsoluteY, 4))
    case 0xA6 => Some(Load(X, ZeroPage, 3))
    case 0xB6 => Some(Load(X, ZeroPageY, 4))
    // LDY
    case 0xA0 => Some(Load(Y, Immediate, 2))
    case 0xAC => Some(Load(Y, Absolute, 4))
    case 0xBC => Some(Load(Y, AbsoluteX, 4))
    case 0xA4 => Some(Load(Y, ZeroPage, 3))
    case 0xB4 => Some(Load(Y, ZeroPageX, 4))
    // STA
    case 0x8D => Some(Store(A, Absolute, 4))
    case 0x9D => Some(Store(A, AbsoluteX, 5))
    case 0x99 => Some(Store(A, AbsoluteY, 5))
    case 0x85 => Some(Store(A, ZeroPage, 3))
    case 0x95 => Some(Store(A, ZeroPageX, 4))
    case 0x81 => Some(Store(A, XIndirect, 6))
    case 0x91 => Some(Store(A, IndirectY, 6))
    // STX
    case 0x8E => Some(Store(X, Absolute, 3))
    case 0x86 => Some(Store(X, ZeroPage, 2))
    case 0x96 => Some(Store(X, ZeroPageY, 2))
    // STY
    case 0x8C => Some(Store(Y, Absolute, 4))
    case 0x84 => Some(Store(Y, ZeroPage, 3))
    case 0x94 => Some(Store(Y, ZeroPageX, 4))
    // TAX, TAY, TSX, TXA, TXS
    case 0xAA => Some(Transfer(A, X))
    case 0xA8 => Some(Transfer(A, Y))
    case 0xBA => Some(Transfer(S, X))
    case 0x8A => Some(Transfer(X, A))
    case 0x9A => Some(Transfer(X, S))
    case _ => None
  }

  /** The bytes step has a handler for, in ascending order. */
  const OPCODES: seq<Byte> := [
    0x81, 0x84, 0x85, 0x86, 0x8A, 0x8C, 0x8D, 0x8E,
    0x91, 0x94, 0x95, 0x96, 0x99, 0x9A, 0x9D,
    0xA0, 0xA1, 0xA2, 0xA4, 0xA5, 0xA6, 0xA8, 0xA9, 0xAA, 0xAC, 0xAD, 0xAE,
    0xB1, 0xB4, 0xB5, 0xB6, 0xB9, 0xBA, 0xBC, 0xBD, 0xBE
  ]

  const IMPLEMENTED: set<Byte> := set b: Byte | b in OPCODES

  predicate Ascending(s: seq<Byte>)
  {
    forall i :: 0 < i < |s| ==> s[i - 1] < s[i]
  }

  lemma {:induction false} AscendingHead(s: seq<Byte>, j: nat)
    requires Ascending(s) && 0 < j < |s|
    ensures s[0] < s[j]
  {
    if j > 1 { AscendingHead(s, j - 1); }
  }

  /** An ascending sequence has no repeated element, so it has as many
      distinct elements as it is long. */
  lemma {:induction false} AscendingElementCount(s: seq<Byte>)
    requires Ascending(s)
    ensures |set b: Byte | b in s| == |s|
  {
    if s != [] {
      AscendingElementCount(s[1..]);
      var rest := set b: Byte | b in s[1..];
      forall j | 0 <= j < |s[1..]| ensures s[0] < s[1..][j] {
        AscendingHead(s, j + 1);
      }
      assert s[0] !in rest;
      assert (set b: Byte | b in s) == rest + {s[0]};
    }
  }

  /** step has a handler for exactly the bytes of IMPLEMENTED; every other
      byte reaches its panic arm. */
  lemma ImplementedOpcodes(opcode: Byte)
    ensures Decode(opcode).Some? <==> opcode in IMPLEMENTED
  {
  }

  /** There are 36 such bytes. */
  lemma ImplementedOpcodeCount()
    ensures |IMPLEMENTED| == 36
  {
    assert Ascending(OPCODES);
    AscendingElementCount(OPCODES);
  }

  function GetReg(r: Registers, reg: Reg): Byte
  {
    match reg
    case A => r.ac
    case X => r.x
    case Y => r.y
    case S => r.sp
  }

  function SetReg(r: Registers, reg: Reg, value: Byte): Registers
  {
    match reg
    case A => r.(ac := value)
    case X => r.(x := value)
    case Y => r.(y := value)
    case S => r.(sp := value)
  }

  /** The number of operand bytes that follow the opcode. */
  function OperandLength(mode: Mode): nat
  {
    match mode
    case Absolute | AbsoluteX | AbsoluteY | XIndirectThenImmediate => 2
    case _ => 1
  }

  /** The modes whose resolver reports a page-cross penalty. */
  predicate ReportsPenalty(mode: Mode)
  {
    mode.AbsoluteX? || mode.AbsoluteY? || mode.IndirectY?
  }


  /** The operand of `mode`, with `r.pc` the address just after the opcode. */
  function Resolve(mode: Mode, r: Registers, mem: Memory): Operand
  {
    match mode
    case Immediate => Operand(r.pc, 0, WrappingAddWord(r.pc, 1))
    case ZeroPage => ResolveZeroPage(mem, r.pc)
    case ZeroPageX => ResolveZeroPageIndexed(mem, r.pc, r.x)
    case ZeroPageY => ResolveZeroPageIndexed(mem, r.pc, r.y)
    case Absolute => ResolveAbsolute(mem, r.pc)
    case AbsoluteX => ResolveAbsoluteIndexed(mem, r.pc, r.x)
    case AbsoluteY => ResolveAbsoluteIndexed(mem, r.pc, r.y)
    case XIndirect => ResolveZeroPageXIndirect(mem, r.pc, r.x)
    case IndirectY => ResolveZeroPageYIndirect(mem, r.pc, r.y)
    case XIndirectThenImmediate =>
      var discarded := ResolveZeroPageXIndirect(mem, r.pc, r.x);
      Operand(discarded.pc, 0, WrappingAddWord(discarded.pc, 1))
  }

  /** Every mode consumes its operand bytes and reports a penalty of at most
      one cycle, and only the three indexed modes that can cross a page report
      one at all. */
  lemma {:induction false} ResolveOperand(mode: Mode, r: Registers, mem: Memory)
    ensures var o := Resolve(mode, r, mem);
            && o.pc == (r.pc + OperandLength(mode)) % 0x10000
            && o.penalty <= 1
            && (!ReportsPenalty(mode) ==> o.penalty == 0)
  {
    match mode
    case Immediate =>
    case ZeroPage => ZeroPageOperand(mem, r.pc);
    case ZeroPageX => ZeroPageIndexedOperand(mem, r.pc, r.x);
    case ZeroPageY => ZeroPageIndexedOperand(mem, r.pc, r.y);
    case Absolute => AbsoluteOperand(mem, r.pc);
    case AbsoluteX => AbsoluteIndexedOperand(mem, r.pc, r.x);
    case AbsoluteY => AbsoluteIndexedOperand(mem, r.pc, r.y);
    case XIndirect => ZeroPageXIndirectOperand(mem, r.pc, r.x);
    case IndirectY => ZeroPageYIndirectOperand(mem, r.pc, r.y);
    case XIndirectThenImmediate => ZeroPageXIndirectOperand(mem, r.pc, r.x);
  }

  /** The registers, memory and cycle count after one step. */
  datatype Outcome = Outcome(regs: Registers, mem: Memory, cycles: nat)

  /** One step from registers `r` and memory `mem`: fetch the opcode at r.pc,
      execute it, and report the cycles it takes. */
  function Execute(r: Registers, mem: Memory): Outcome
    requires Decode(mem[r.pc]).Some?
  {
    var fetched := r.(pc := WrappingAddWord(r.pc, 1));
    match Decode(mem[r.pc]).value
    case Load(dst, mode, cycles) =>
      var o := Resolve(mode, fetched, mem);
      var value := mem[o.address];
      var loaded := SetReg(fetched.(pc := o.pc), dst, value);
      Outcome(loaded.(sr := ZeroAndNegative(fetched.sr, value)), mem, cycles + o.penalty)
    case Store(src, mode, cycles) =>
      var o := Resolve(mode, fetched, mem);
      Outcome(fetched.(pc := o.pc), mem[o.address := GetReg(fetched, src)], cycles)
    case Transfer(src, dst) =>
      var value := GetReg(fetched, src);
      var moved := SetReg(fetched, dst, value);
      Outcome(if dst == S then moved else moved.(sr := ZeroAndNegative(moved.sr, value)), mem, 0)
  }

  /** The length in bytes of an instruction, opcode included. */
  function Length(ins: Instruction): nat
  {
    match ins
    case Load(_, mode, _) => 1 + OperandLength(mode)
    case Store(_, mode, _) => 1 + OperandLength(mode)
    case Transfer(_, _) => 1
  }

  /** Every step moves the program counter past the whole instruction. */
  lemma ExecuteAdvancesPc(r: Registers, mem: Memory)
    requires Decode(mem[r.pc]).Some?
    ensures Execute(r, mem).regs.pc == (r.pc + Length(Decode(mem[r.pc]).value)) % 0x10000
  {
    var ins := Decode(mem[r.pc]).value;
    var fetched := r.(pc := (r.pc + 1) % 0x10000);
    WrapWord(r.pc as int + 1);
    if !ins.Transfer? {
      var o := Resolve(ins.mode, fetched, mem);
      ResolveOperand(ins.mode, fetched, mem);
      WrapWord(r.pc as int + 1 + OperandLength(ins.mode));
      assert o.pc == (r.pc + Length(ins)) % 0x10000;
      assert Execute(r, mem).regs.pc == o.pc;
    }
  }

  /** A load puts the byte at the effective address into its register, sets
      Zero and Negative from it and changes nothing else but the program
      counter; it takes its base cycles plus the resolver's penalty, which is
      at most one and only ever charged in the indexed modes. */
  lemma ExecuteLoad(r: Registers, mem: Memory)
    requires Decode(mem[r.pc]).Some? && Decode(mem[r.pc]).value.Load?
    ensures var ins := Decode(mem[r.pc]).value;
            var o := Resolve(ins.mode, r.(pc := (r.pc + 1) % 0x10000), mem);
            var out := Execute(r, mem);
            var value := mem[o.address];
            && GetReg(out.regs, ins.dst) == value
            && (out.regs.sr & ZERO != 0 <==> value == 0)
            && (out.regs.sr & NEGATIVE != 0 <==> value >= 0x80)
            && out.regs.sr & !(ZERO | NEGATIVE) == r.sr & !(ZERO | NEGATIVE)
            && (forall reg :: reg != ins.dst ==> GetReg(out.regs, reg) == GetReg(r, reg))
            && out.mem == mem
            && out.cycles == ins.cycles + o.penalty
            && out.cycles <= ins.cycles + 1
            && (ReportsPenalty(ins.mode) || out.cycles == ins.cycles)
  {
    var ins := Decode(mem[r.pc]).value;
    var fetched := r.(pc := (r.pc + 1) % 0x10000);
    var o := Resolve(ins.mode, fetched, mem);
    ResolveOperand(ins.mode, fetched, mem);
    var value := mem[o.address];
    ZeroAndNegativeFlags(r.sr, value);
    var loaded := SetReg(fetched.(pc := o.pc), ins.dst, value);
    assert Execute(r, mem) == Outcome(loaded.(sr := ZeroAndNegative(r.sr, value)), mem, ins.cycles + o.penalty);
    forall reg | reg != ins.dst ensures GetReg(loaded, reg) == GetReg(r, reg) {
      SetRegOthers(fetched.(pc := o.pc), ins.dst, value, reg);
    }
  }

  /** SetReg writes its register and no other. */
  lemma SetRegOthers(r: Registers, dst: Reg, value: Byte, reg: Reg)
    ensures GetReg(SetReg(r, dst, value), dst) == value
    ensures reg != dst ==> GetReg(SetReg(r, dst, value), reg) == GetReg(r, reg)
  {
  }

  /** A store writes its register to the effective address and to no other
      byte, leaves every register but the program counter alone, and takes its
      base cycles whether or not the address crossed a page. */
  lemma ExecuteStore(r: Registers, mem: Memory)
    requires Decode(mem[r.pc]).Some? && Decode(mem[r.pc]).value.Store?
    ensures var ins := Decode(mem[r.pc]).value;
            var o := Resolve(ins.mode, r.(pc := (r.pc + 1) % 0x10000), mem);
            var out := Execute(r, mem);
            && out.mem[o.address] == GetReg(r, ins.src)
            && (forall a: Word :: a != o.address ==> out.mem[a] == mem[a])
            && out.regs == r.(pc := o.pc)
            && out.cycles == ins.cycles
  {
  }

  /** A transfer copies one register into another in zero reported cycles; all
      but TXS then set Zero and Negative from the copied value. */
  lemma ExecuteTransfer(r: Registers, mem: Memory)
    requires Decode(mem[r.pc]).Some? && Decode(mem[r.pc]).value.Transfer?
    ensures var ins := Decode(mem[r.pc]).value;
            var out := Execute(r, mem);
            var value := GetReg(r, ins.src);
            && GetReg(out.regs, ins.dst) == value
            && (forall reg :: reg != ins.dst ==> GetReg(out.regs, reg) == GetReg(r, reg))
            && (ins.dst == S ==> out.regs.sr == r.sr)
            && (ins.dst != S ==> out.regs.sr == ZeroAndNegative(r.sr, value))
            && out.regs.pc == (r.pc + 1) % 0x10000
            && out.mem == mem
            && out.cycles == 0
  {
  }

  /** The cycles any one step takes: at most 6, the (zero page),Y load with a
      page cross and the 0xA1 load being the longest. */
  lemma {:induction false} ExecuteCycles(r: Registers, mem: Memory)
    requires Decode(mem[r.pc]).Some?
    ensures Execute(r, mem).cycles <= 6
  {
    var ins := Decode(mem[r.pc]).value;
    if ins.Load? {
      ResolveOperand(ins.mode, r.(pc := (r.pc + 1) % 0x10000), mem);
    }
  }

  /** `o` with `c` more cycles. */
  function AddCycles(o: Option<Outcome>, c: nat): Option<Outcome>
  {
    match o
    case None => None
    case Some(out) => Some(out.(cycles := out.cycles + c))
  }

  /** What a caller gets by calling step `n` times and adding up the cycles it
      returns; None when one of the steps reaches an opcode without a handler,
      where the emulator panics. */
  function Run(r: Registers, mem: Memory, n: nat): Option<Outcome>
    decreases n
  {
    if n == 0 then Some(Outcome(r, mem, 0))
    else if Decode(mem[r.pc]).None? then None
    else
      var first := Execute(r, mem);
      AddCycles(Run(first.regs, first.mem, n - 1), first.cycles)
  }

  /** n steps take at most 6 n cycles. */
  lemma {:induction false} RunCycles(r: Registers, mem: Memory, n: nat)
    ensures Run(r, mem, n).Some? ==> Run(r, mem, n).value.cycles <= 6 * n
    decreases n
  {
    if n > 0 && Decode(mem[r.pc]).Some? {
      var first := Execute(r, mem);
      ExecuteCycles(r, mem);
      RunCycles(first.regs, first.mem, n - 1);
    }
  }

  /** A step changes at most the Zero and Negative flags: loads and transfers
      other than TXS set those two, and nothing else in step touches the
      status register. */
  lemma {:induction false} ExecuteKeepsOtherFlags(r: Registers, mem: Memory)
    requires Decode(mem[r.pc]).Some?
    ensures Execute(r, mem).regs.sr & !(ZERO | NEGATIVE) == r.sr & !(ZERO | NEGATIVE)
  {
    match Decode(mem[r.pc]).value
    case Load(_, _, _) => ExecuteLoad(r, mem);
    case Store(_, _, _) => ExecuteStore(r, mem);
    case Transfer(src, dst) =>
      ExecuteTransfer(r, mem);
      ZeroAndNegativeFlags(r.sr, GetReg(r, src));
  }

  /** The Unused bit, set at power-on, stays set across a step. */
  lemma ExecuteKeepsUnused(r: Registers, mem: Memory)
    requires Decode(mem[r.pc]).Some? && r.sr & UNUSED == UNUSED
    ensures Execute(r, mem).regs.sr & UNUSED == UNUSED
  {
    ExecuteKeepsOtherFlags(r, mem);
  }

  /** Over any number of steps too, only Zero and Negative change. */
  lemma {:induction false} RunKeepsOtherFlags(r: Registers, mem: Memory, n: nat)
    ensures Run(r, mem, n).Some? ==>
              Run(r, mem, n).value.regs.sr & !(ZERO | NEGATIVE) == r.sr & !(ZERO | NEGATIVE)
    decreases n
  {
    if n > 0 && Decode(mem[r.pc]).Some? {
      var first := Execute(r, mem);
      ExecuteKeepsOtherFlags(r, mem);
      RunKeepsOtherFlags(first.regs, first.mem, n - 1);
    }
  }

  /** So the Unused bit reads 1 after any number of steps from power-on. */
  lemma RunKeepsUnused(r: Registers, mem: Memory, n: nat)
    requires r.sr & UNUSED == UNUSED
    ensures Run(r, mem, n).Some? ==> Run(r, mem, n).value.regs.sr & UNUSED == UNUSED
  {
    RunKeepsOtherFlags(r, mem, n);
  }

  /** Opcode 0xA1 loads the byte two past the opcode, whatever the pointer. */
  lemma LdaXIndirectLoadsNextByte(r: Registers, mem: Memory)
    requires mem[r.pc] == 0xA1
    ensures var out := Execute(r, mem);
            && out.regs.ac == mem[(r.pc + 2) % 0x10000]
            && out.regs.pc == (r.pc + 3) % 0x10000
            && out.cycles == 6
  {
    assert Decode(0xA1) == Some(Load(A, XIndirectThenImmediate, 6));
    var fetched := r.(pc := (r.pc + 1) % 0x10000);
    var discarded := ResolveZeroPageXIndirect(mem, fetched.pc, r.x);
    ZeroPageXIndirectOperand(mem, fetched.pc, r.x);
    WrapWord(r.pc as int + 1);
    WrapWord(r.pc as int + 2);
    WrapWord(r.pc as int + 3);
    assert discarded.pc == (r.pc + 2) % 0x10000;
    var o := Operand(discarded.pc, 0, (r.pc + 3) % 0x10000);
    assert Resolve(XIndirectThenImmediate, fetched, mem) == o;
    var value := mem[discarded.pc];
    assert Execute(r, mem) == Outcome(fetched.(pc := o.pc, ac := value, sr := ZeroAndNegative(r.sr, value)), mem, 6);
  }

  lemma LdaImmediateExample(r: Registers, mem: Memory)
    requires mem[r.pc] == 0xA9 && mem[(r.pc + 1) % 0x10000] == 0x80
    ensures var out := Execute(r, mem);
            && out.regs.ac == 0x80
            && out.regs.sr & NEGATIVE != 0 && out.regs.sr & ZERO == 0
            && out.cycles == 2
  {
    ZeroAndNegativeFlags(r.sr, 0x80);
  }

  lemma LdaAbsoluteXPageCrossExample(r: Registers, mem: Memory)
    requires r.pc == 0x0600 && r.x == 1
    requires mem[0x0600] == 0xBD && mem[0x0601] == 0xFF && mem[0x0602] == 0x00
    ensures var out := Execute(r, mem);
            && out.regs.ac == mem[0x0100]
            && out.regs.pc == 0x0603
            && out.cycles == 5
  {
  }

  // ---------------------------------------------------------------------------
  // The resolver unit tests, as lemmas over any memory holding the test bytes

  lemma AbsoluteExample(mem: Memory)
    requires mem[0x1000] == 0x34 && mem[0x1001] == 0x12
    ensures ResolveAbsolute(mem, 0x1000) == Operand(0x1234, 0, 0x1002)
  {
  }

  lemma AbsoluteIndexedExamples(mem: Memory, lsb: Byte)
    requires mem[0x1000] == lsb && mem[0x1001] == 0x00
    ensures lsb == 0xFD ==> ResolveAbsoluteIndexed(mem, 0x1000, 0x01) == Operand(0x00FE, 0, 0x1002)
    ensures lsb == 0xFF ==> ResolveAbsoluteIndexed(mem, 0x1000, 0x01) == Operand(0x0100, 1, 0x1002)
  {
    assert ResolveAbsolute(mem, 0x1000) == Operand(lsb, 0, 0x1002);
  }

  lemma AbsoluteIndirectExamples(mem: Memory)
    requires mem[0x1001] == 0x12
    ensures mem[0x1000] == 0xFD && mem[0x12FD] == 0x21 && mem[0x12FE] == 0x23 ==>
              ResolveAbsoluteIndirect(mem, 0x1000) == 0x2321
    ensures mem[0x1000] == 0xFF && mem[0x12FF] == 0x21 && mem[0x1200] == 0x23 ==>
              ResolveAbsoluteIndirect(mem, 0x1000) == 0x2321
  {
  }

  lemma ZeroPageExamples(mem: Memory)
    ensures mem[0x1000] == 0x23 ==> ResolveZeroPage(mem, 0x1000).address == 0x0023
    ensures mem[0x1000] == 0xFD ==> ResolveZeroPageIndexed(mem, 0x1000, 0x04).address == 0x0001
  {
  }

  lemma ZeroPageXIndirectExample(mem: Memory)
    requires mem[0x1000] == 0xFC && mem[0x00FE] == 0x34 && mem[0x00FF] == 0x12
    ensures ResolveZeroPageXIndirect(mem, 0x1000, 0x02).address == 0x1234
  {
  }

  lemma ZeroPageYIndirectExample(mem: Memory)
    requires mem[0x0001] == 0xAB && mem[0x00AB] == 0xFF && mem[0x00AC] == 0x02
    ensures var o := ResolveZeroPageYIndirect(mem, 0x0001, 0x01);
            o.address == 0x0300 && o.penalty == 1
  {
  }

  lemma RelativeExamples(mem: Memory)
    ensures mem[0x1000] == 0x0A ==> ResolveRelative(mem, 0x1000) == Operand(0x100B, 0, 0x100B)
    // -15 as a byte
    ensures mem[0x1000] == 0xF1 ==> ResolveRelative(mem, 0x1000) == Operand(0x0FF2, 1, 0x0FF2)
  {
  }

  // ---------------------------------------------------------------------------
  // The CPU object

  /** The CPU as the emulator holds it: registers as fields, and the bus as a
      64 KiB array of bytes. */
  class CPU {
    var ac: Byte
    var x: Byte
    var y: Byte
    var pc: Word
    var sp: Byte
    var sr: bv8
    const bus: array<Byte>

    ghost predicate Valid()
      reads this
    {
      bus.Length == 0x10000
    }

    /** The registers as a value. */
    function Regs(): Registers
      reads this
    {
      Registers(ac, x, y, pc, sp, sr)
    }

    /** The memory as a value. */
    function Mem(): Memory
      reads this, bus
      requires Valid()
    {
      bus[..]
    }

    /** Power-on state: everything zero except the stack pointer, 0xFD, and the
        status register, Unused and Interrupt-disable (0x24). */
    constructor (bus: array<Byte>)
      requires bus.Length == 0x10000
      ensures Valid() && this.bus == bus
      ensures ac == 0 && x == 0 && y == 0 && pc == 0 && sp == 0xFD
      ensures sr == UNUSED | INTERRUPT_DISABLE && sr == 0x24
    {
      pc := 0;
      sp := 0xFD;
      ac := 0;
      x := 0;
      y := 0;
      sr := UNUSED | INTERRUPT_DISABLE;
      this.bus := bus;
    }

    /** Whether every bit of `flag` is set. */
    function GetFlag(flag: bv8): (b: bool)
      reads this
      ensures b <==> FlagSet(sr, flag, true) == sr
    {
      sr & flag == flag
    }

    method SetFlag(flag: bv8, value: bool)
      modifies this`sr
      ensures sr == FlagSet(old(sr), flag, value)
    {
      sr := if value then sr | flag else sr & !flag;
    }

    method SetZeroAndNegativeFlag(value: Byte)
      modifies this`sr
      ensures sr == ZeroAndNegative(old(sr), value)
    {
      SetFlag(ZERO, value == 0);
      SetFlag(NEGATIVE, value >= 0x80);
    }

    method IncPc()
      modifies this`pc
      ensures pc == (old(pc) + 1) % 0x10000
    {
      pc := WrappingAddWord(pc, 1);
    }

    method AddrAbsolute() returns (address: Word)
      requires Valid()
      modifies this`pc
      ensures Operand(address, 0, pc) == ResolveAbsolute(Mem(), old(pc))
    {
      var lsb := bus[pc];
      IncPc();
      var msb := bus[pc];
      IncPc();
      address := GetAddress(lsb, msb);
    }

    method AddrAbsoluteX() returns (address: Word, penalty: nat)
      requires Valid()
      modifies this`pc
      ensures Operand(address, penalty, pc) == ResolveAbsoluteIndexed(Mem(), old(pc), x)
    {
      var base := AddrAbsolute();
      address := WrappingAddWord(base, x);
      penalty := CrossPageBoundaryCyclePenalty(base, address);
    }

    method AddrAbsoluteY() returns (address: Word, penalty: nat)
      requires Valid()
      modifies this`pc
      ensures Operand(address, penalty, pc) == ResolveAbsoluteIndexed(Mem(), old(pc), y)
    {
      var base := AddrAbsolute();
      address := WrappingAddWord(base, y);
      penalty := CrossPageBoundaryCyclePenalty(base, address);
    }

    method AddrAbsoluteIndirect()
      requires Valid()
      modifies this`pc
      ensures pc == ResolveAbsoluteIndirect(Mem(), old(pc))
    {
      var base := AddrAbsolute();
      var lsb := bus[base];
      var msb;
      if base % 0x100 == 0xFF {
        msb := bus[base - base % 0x100];
      } else {
        msb := bus[WrappingAddWord(base, 1)];
      }
      pc := GetAddress(lsb, msb);
    }

    method AddrZeroPage() returns (address: Word)
      requires Valid()
      modifies this`pc
      ensures Operand(address, 0, pc) == ResolveZeroPage(Mem(), old(pc))
    {
      var lsb := bus[pc];
      IncPc();
      address := GetAddress(lsb, 0);
    }

    method AddrZeroPageX() returns (address: Word)
      requires Valid()
      modifies this`pc
      ensures Operand(address, 0, pc) == ResolveZeroPageIndexed(Mem(), old(pc), x)
    {
      var lsb := bus[pc];
      IncPc();
      address := WrappingAddByte(lsb, x);
    }

    method AddrZeroPageY() returns (address: Word)
      requires Valid()
      modifies this`pc
      ensures Operand(address, 0, pc) == ResolveZeroPageIndexed(Mem(), old(pc), y)
    {
      var lsb := bus[pc];
      IncPc();
      address := WrappingAddByte(lsb, y);
    }

    method AddrZeroPageXIndirect() returns (address: Word)
      requires Valid()
      modifies this`pc
      ensures Operand(address, 0, pc) == ResolveZeroPageXIndirect(Mem(), old(pc), x)
    {
      var base := bus[pc];
      IncPc();
      var pointer := WrappingAddByte(base, x);
      var lsb := bus[pointer];
      var msb := bus[WrappingAddWord(pointer, 1)];
      address := GetAddress(lsb, msb);
    }

    method AddrZeroPageYIndirect() returns (address: Word, penalty: nat)
      requires Valid()
      modifies this`pc
      ensures Operand(address, penalty, pc) == ResolveZeroPageYIndirect(Mem(), old(pc), y)
    {
      var zp := bus[pc];
      IncPc();
      var lsb := bus[zp];
      var msb := bus[WrappingAddWord(zp, 1)];
      var base := GetAddress(lsb, msb);
      var overflow := y + lsb >= 0x100;
      var newLsb := WrappingAddByte(y, lsb);
      var newMsb := WrappingAddByte(msb, if overflow then 1 else 0);
      address := GetAddress(newLsb, newMsb);
      penalty := CrossPageBoundaryCyclePenalty(base, address);
    }

    method AddrRelative() returns (address: Word, penalty: nat)
      requires Valid()
      modifies this`pc
      ensures Operand(address, penalty, pc) == ResolveRelative(Mem(), old(pc))
    {
      var offset := AsI8(bus[pc]);
      IncPc();
      var base := pc;
      address := WrappingAddWord(base, (offset + 0x10000) % 0x10000);
      penalty := CrossPageBoundaryCyclePenalty(base, address);
      pc := address;
    }

    /** Executes the instruction at pc and returns the cycles it took.  The
        opcode must be one step has a handler for; on any other byte the
        emulator panics.  Each instruction family is carried out by the method
        after this one that bears its name. */
    method Step() returns (cycles: nat)
      requires Valid()
      requires Decode(bus[pc]).Some?
      modifies this, bus
      ensures Outcome(Regs(), Mem(), cycles) == Execute(old(Regs()), old(Mem()))
    {
      ghost var before, memory := Regs(), Mem();
      var opcode := bus[pc];
      IncPc();
      match opcode {
        case 0xA9 | 0xAD | 0xA5 | 0xA1 =>
          cycles := Lda(opcode, before, memory);
        case 0xBD | 0xB9 | 0xB5 | 0xB1 =>
          cycles := LdaIndexed(opcode, before, memory);
        case 0xA2 | 0xAE | 0xBE | 0xA6 | 0xB6 =>
          cycles := Ldx(opcode, before, memory);
        case 0xA0 | 0xAC | 0xBC | 0xA4 | 0xB4 =>
          cycles := Ldy(opcode, before, memory);
        case 0x8D | 0x85 | 0x95 | 0x81 =>
          cycles := Sta(opcode, before, memory);
        case 0x9D | 0x99 | 0x91 =>
          cycles := StaIndexed(opcode, before, memory);
        case 0x8E | 0x86 | 0x96 | 0x8C | 0x84 | 0x94 =>
          cycles := StxSty(opcode, before, memory);
        case 0xAA | 0xA8 | 0xBA | 0x8A | 0x9A =>
          cycles := TransferRegisters(opcode, before, memory);
        case _ =>
          assert false;
      }
    }

    /** The state Step hands to a family method: the opcode at `before.pc` has
        been fetched and the program counter advanced past it. */
    ghost predicate Fetched(opcode: Byte, before: Registers, memory: Memory)
      reads this, bus
    {
      Valid() && Mem() == memory && memory[before.pc] == opcode
      && Regs() == before.(pc := (before.pc + 1) % 0x10000)
    }

    /** LDA in its unindexed addressing modes: immediate, absolute, zero page and
        the (zero page,X) form of 0xA1. */
    method Lda(opcode: Byte, ghost before: Registers, ghost memory: Memory) returns (cycles: nat)
      requires opcode in {0xA9, 0xAD, 0xA5, 0xA1}
      requires Fetched(opcode, before, memory)
      modifies this
      ensures Outcome(Regs(), Mem(), cycles) == Execute(before, memory)
    {
      cycles := 0;
      match opcode {
        case 0xA9 =>
          assert Decode(opcode) == Some(Load(A, Immediate, 2));
          var value := bus[pc];
          IncPc();
          cycles := 2;
          ac := value;
          SetZeroAndNegativeFlag(ac);
        case 0xAD =>
          assert Decode(opcode) == Some(Load(A, Absolute, 4));
          var address := AddrAbsolute();
          var value := bus[address];
          cycles := 4;
          ac := value;
          SetZeroAndNegativeFlag(value);
        case 0xA5 =>
          assert Decode(opcode) == Some(Load(A, ZeroPage, 3));
          var address := AddrZeroPage();
          cycles := 3;
          var value := bus[address];
          ac := value;
          SetZeroAndNegativeFlag(value);
        case 0xA1 =>
          assert Decode(opcode) == Some(Load(A, XIndirectThenImmediate, 6));
          // the resolved address is not used: the operand is the byte at pc
          var discarded := AddrZeroPageXIndirect();
          cycles := 6;
          var value := bus[pc];
          IncPc();
          ac := value;
          SetZeroAndNegativeFlag(value);
      }
    }


    /** LDA in its indexed addressing modes. */
    method LdaIndexed(opcode: Byte, ghost before: Registers, ghost memory: Memory) returns (cycles: nat)
      requires opcode in {0xBD, 0xB9, 0xB5, 0xB1}
      requires Fetched(opcode, before, memory)
      modifies this
      ensures Outcome(Regs(), Mem(), cycles) == Execute(before, memory)
    {
      cycles := 0;
      match opcode {
        case 0xBD =>
          assert Decode(opcode) == Some(Load(A, AbsoluteX, 4));
          var address, p := AddrAbsoluteX();
          cycles := cycles + 4 + p;
          var value := bus[address];
          ac := value;
          SetZeroAndNegativeFlag(value);
        case 0xB9 =>
          assert Decode(opcode) == Some(Load(A, AbsoluteY, 4));
          var address, p := AddrAbsoluteY();
          cycles := cycles + 4 + p;
          var value := bus[address];
          ac := value;
          SetZeroAndNegativeFlag(value);
        case 0xB5 =>
          assert Decode(opcode) == Some(Load(A, ZeroPageX, 4));
          var address := AddrZeroPageX();
          cycles := 4;
          var value := bus[address];
          ac := value;
          SetZeroAndNegativeFlag(value);
        case 0xB1 =>
          assert Decode(opcode) == Some(Load(A, IndirectY, 5));
          var address, p := AddrZeroPageYIndirect();
          cycles := 5 + p;
          ac := bus[address];
          SetZeroAndNegativeFlag(ac);
      }
    }


    /** LDX in its five addressing modes. */
    method Ldx(opcode: Byte, ghost before: Registers, ghost memory: Memory) returns (cycles: nat)
      requires opcode in {0xA2, 0xAE, 0xBE, 0xA6, 0xB6}
      requires Fetched(opcode, before, memory)
      modifies this
      ensures Outcome(Regs(), Mem(), cycles) == Execute(before, memory)
    {
      cycles := 0;
      match opcode {
        case 0xA2 =>
          assert Decode(opcode) == Some(Load(X, Immediate, 2));
          var value := bus[pc];
          IncPc();
          cycles := 2;
          x := value;
          SetZeroAndNegativeFlag(x);
        case 0xAE =>
          assert Decode(opcode) == Some(Load(X, Absolute, 4));
          var address := AddrAbsolute();
          var value := bus[address];
          cycles := 4;
          x := value;
          SetZeroAndNegativeFlag(value);
        case 0xBE =>
          assert Decode(opcode) == Some(Load(X, AbsoluteY, 4));
          var address, p := AddrAbsoluteY();
          cycles := cycles + 4 + p;
          var value := bus[address];
          x := value;
          SetZeroAndNegativeFlag(value);
        case 0xA6 =>
          assert Decode(opcode) == Some(Load(X, ZeroPage, 3));
          var address := AddrZeroPage();
          cycles := 3;
          var value := bus[address];
          x := value;
          SetZeroAndNegativeFlag(value);
        case 0xB6 =>
          assert Decode(opcode) == Some(Load(X, ZeroPageY, 4));
          var address := AddrZeroPageY();
          cycles := 4;
          var value := bus[address];
          x := value;
          SetZeroAndNegativeFlag(value);
      }
    }

    /** LDY in its five addressing modes. */
    method Ldy(opcode: Byte, ghost before: Registers, ghost memory: Memory) returns (cycles: nat)
      requires opcode in {0xA0, 0xAC, 0xBC, 0xA4, 0xB4}
      requires Fetched(opcode, before, memory)
      modifies this
      ensures Outcome(Regs(), Mem(), cycles) == Execute(before, memory)
    {
      cycles := 0;
      match opcode {
        case 0xA0 =>
          assert Decode(opcode) == Some(Load(Y, Immediate, 2));
          var value := bus[pc];
          IncPc();
          cycles := 2;
          y := value;
          SetZeroAndNegativeFlag(y);
        case 0xAC =>
          assert Decode(opcode) == Some(Load(Y, Absolute, 4));
          var address := AddrAbsolute();
          var value := bus[address];
          cycles := 4;
          y := value;
          SetZeroAndNegativeFlag(value);
        case 0xBC =>
          assert Decode(opcode) == Some(Load(Y, AbsoluteX, 4));
          var address, p := AddrAbsoluteX();
          cycles := cycles + 4 + p;
          var value := bus[address];
          y := value;
          SetZeroAndNegativeFlag(value);
        case 0xA4 =>
          assert Decode(opcode) == Some(Load(Y, ZeroPage, 3));
          var address := AddrZeroPage();
          cycles := 3;
          var value := bus[address];
          y := value;
          SetZeroAndNegativeFlag(value);
        case 0xB4 =>
          assert Decode(opcode) == Some(Load(Y, ZeroPageX, 4));
          var address := AddrZeroPageX();
          cycles := 4;
          var value := bus[address];
          y := value;
          SetZeroAndNegativeFlag(value);
      }
    }

    /** STA in its unindexed addressing modes: absolute, zero page, zero
        page,X and (zero page,X). */
    method Sta(opcode: Byte, ghost before: Registers, ghost memory: Memory) returns (cycles: nat)
      requires opcode in {0x8D, 0x85, 0x95, 0x81}
      requires Fetched(opcode, before, memory)
      modifies this`pc, bus
      ensures Outcome(Regs(), Mem(), cycles) == Execute(before, memory)
    {
      cycles := 0;
      match opcode {
        case 0x8D =>
          assert Decode(opcode) == Some(Store(A, Absolute, 4));
          var address := AddrAbsolute();
          cycles := 4;
          bus[address] := ac;
        case 0x85 =>
          assert Decode(opcode) == Some(Store(A, ZeroPage, 3));
          var address := AddrZeroPage();
          cycles := 3;
          bus[address] := ac;
        case 0x95 =>
          assert Decode(opcode) == Some(Store(A, ZeroPageX, 4));
          var address := AddrZeroPageX();
          cycles := 4;
          bus[address] := ac;
        case 0x81 =>
          assert Decode(opcode) == Some(Store(A, XIndirect, 6));
          var address := AddrZeroPageXIndirect();
          cycles := 6;
          bus[address] := ac;
      }
    }

    /** STA absolute,X, absolute,Y and (zero page),Y; the penalty the
        resolvers report is dropped. */
    method StaIndexed(opcode: Byte, ghost before: Registers, ghost memory: Memory) returns (cycles: nat)
      requires opcode in {0x9D, 0x99, 0x91}
      requires Fetched(opcode, before, memory)
      modifies this`pc, bus
      ensures Outcome(Regs(), Mem(), cycles) == Execute(before, memory)
    {
      cycles := 0;
      match opcode {
        case 0x9D =>
          assert Decode(opcode) == Some(Store(A, AbsoluteX, 5));
          var address, _ := AddrAbsoluteX();
          cycles := 5;
          bus[address] := ac;
        case 0x99 =>
          assert Decode(opcode) == Some(Store(A, AbsoluteY, 5));
          var address, _ := AddrAbsoluteY();
          cycles := 5;
          bus[address] := ac;
        case 0x91 =>
          assert Decode(opcode) == Some(Store(A, IndirectY, 6));
          var address, _ := AddrZeroPageYIndirect();
          cycles := 6;
          bus[address] := ac;
      }
    }

    /** STX and STY, each in three addressing modes. */
    method StxSty(opcode: Byte, ghost before: Registers, ghost memory: Memory) returns (cycles: nat)
      requires opcode in {0x8E, 0x86, 0x96, 0x8C, 0x84, 0x94}
      requires Fetched(opcode, before, memory)
      modifies this`pc, bus
      ensures Outcome(Regs(), Mem(), cycles) == Execute(before, memory)
    {
      cycles := 0;
      match opcode {
        // STX
        case 0x8E =>
          assert Decode(opcode) == Some(Store(X, Absolute, 3));
          var address := AddrAbsolute();
          cycles := 3;
          bus[address] := x;
        case 0x86 =>
          assert Decode(opcode) == Some(Store(X, ZeroPage, 2));
          var address := AddrZeroPage();
          cycles := 2;
          bus[address] := x;
        case 0x96 =>
          assert Decode(opcode) == Some(Store(X, ZeroPageY, 2));
          var address := AddrZeroPageY();
          cycles := 2;
          bus[address] := x;
        // STY
        case 0x8C =>
          assert Decode(opcode) == Some(Store(Y, Absolute, 4));
          var address := AddrAbsolute();
          cycles := 4;
          bus[address] := y;
        case 0x84 =>
          assert Decode(opcode) == Some(Store(Y, ZeroPage, 3));
          var address := AddrZeroPage();
          cycles := 3;
          bus[address] := y;
        case 0x94 =>
          assert Decode(opcode) == Some(Store(Y, ZeroPageX, 4));
          var address := AddrZeroPageX();
          cycles := 4;
          bus[address] := y;
      }
    }

    /** TAX, TAY, TSX, TXA and TXS; the cycle count stays 0. */
    method TransferRegisters(opcode: Byte, ghost before: Registers, ghost memory: Memory) returns (cycles: nat)
      requires opcode in {0xAA, 0xA8, 0xBA, 0x8A, 0x9A}
      requires Fetched(opcode, before, memory)
      modifies this`x, this`y, this`ac, this`sp, this`sr
      ensures Outcome(Regs(), Mem(), cycles) == Execute(before, memory)
    {
      cycles := 0;
      match opcode {
        case 0xAA =>
          assert Decode(opcode) == Some(Transfer(A, X));
          x := ac;
          SetZeroAndNegativeFlag(x);
        case 0xA8 =>
          assert Decode(opcode) == Some(Transfer(A, Y));
          y := ac;
          SetZeroAndNegativeFlag(y);
        case 0xBA =>
          assert Decode(opcode) == Some(Transfer(S, X));
          x := sp;
          SetZeroAndNegativeFlag(x);
        case 0x8A =>
          assert Decode(opcode) == Some(Transfer(X, A));
          ac := x;
          SetZeroAndNegativeFlag(ac);
        case 0x9A =>
          assert Decode(opcode) == Some(Transfer(X, S));
          sp := x;
      }
    }
  }
}
