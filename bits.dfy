/** Fixed-width unsigned integers of the emulator (Rust's u8 and u16), as bounded
    integers, with the wrapping operations the Rust code calls written out as
    remainders. */
module Bits {

  /** An 8-bit unsigned value (u8): a register or a memory cell. */
  type Byte = x: int | 0 <= x < 0x100

  /** A 16-bit unsigned value (u16): an address or the program counter. */
  type Word = x: int | 0 <= x < 0x10000

  /** u8::wrapping_add */
  function WrappingAddByte(a: Byte, b: Byte): Byte
  {
    (a + b) % 0x100
  }

  /** u16::wrapping_add */
  function WrappingAddWord(a: Word, b: Word): Word
  {
    (a + b) % 0x10000
  }

  /** The page an address lies in: its high byte, (a & 0xFF00) >> 8. */
  function Page(a: Word): Byte
  {
    a / 0x100
  }

  /** The offset of an address within its page: its low byte, a & 0x00FF. */
  function Offset(a: Word): Byte
  {
    a % 0x100
  }

  /** A sum that overshoots 16 bits by less than one lap wraps once; a negative
      one wraps up once. */
  lemma WrapWord(a: int)
    requires -0x10000 <= a < 0x20000
    ensures a % 0x10000 == if a < 0 then a + 0x10000 else if a < 0x10000 then a else a - 0x10000
  {
  }

  /** The same for 8 bits. */
  lemma WrapByte(a: int)
    requires -0x100 <= a < 0x200
    ensures a % 0x100 == if a < 0 then a + 0x100 else if a < 0x100 then a else a - 0x100
  {
  }

  /** The page and offset of the address with high byte `p` and low byte `o`. */
  lemma PageOffsetOf(p: Byte, o: Byte)
    ensures Page(p * 0x100 + o) == p && Offset(p * 0x100 + o) == o
  {
  }

  /** Every address is its page and offset put back together. */
  lemma PageOffsetSplit(a: Word)
    ensures a == Page(a) * 0x100 + Offset(a)
  {
  }
}
