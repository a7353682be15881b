/** The NES memory map as the emulator's Bus implements it: 2 KiB of work RAM at
    0x0000..0x07FF and a window of PPU registers at 0x2000..0x2007 backed by a
    seven-byte array.  Every other address makes the Rust code panic; here those
    addresses are excluded by preconditions. */
module NesBus {
  import opened Bits

  /** The addresses `read` handles without panicking. */
  predicate Readable(address: Word)
  {
    address <= 0x07FF || 0x2000 <= address <= 0x2007
  }

  /** The addresses `write` handles without panicking: the write into the PPU
      array indexes it with address & 0x000F, which must lie inside its seven
      cells. */
  predicate Writable(address: Word)
  {
    address <= 0x07FF || (0x2000 <= address <= 0x2007 && address % 0x10 < 7)
  }

  /** Writes succeed on all of RAM and on the first seven PPU registers, and
      fail on 0x2007, whose index 7 lies past the end of the PPU array. */
  lemma {:induction false} WritableAddresses(address: Word)
    ensures Writable(address) <==> address <= 0x07FF || 0x2000 <= address <= 0x2006
    ensures Writable(address) ==> Readable(address)
  {
    if 0x2000 <= address <= 0x2007 {
      assert address % 0x10 == address - 0x2000;
    }
  }

  class Bus {
    /** Work RAM. */
    const ram: array<Byte>
    /** The PPU registers. */
    const ppu: array<Byte>

    ghost predicate Valid()
      reads this
    {
      ram.Length == 0x800 && ppu.Length == 7
    }

    /** A bus with zeroed RAM and zeroed PPU registers. */
    constructor ()
      ensures Valid() && fresh(ram) && fresh(ppu)
      ensures ram[..] == seq(0x800, _ => 0) && ppu[..] == seq(7, _ => 0)
    {
      ram := new Byte[0x800](_ => 0);
      ppu := new Byte[7](_ => 0);
    }

    /** The byte at `address`.  A RAM address reads its own RAM cell; the mask
        0x07FF changes no address in that range.  A PPU address reads register
        0 when it is even and register 1 when it is odd, since it is masked with
        0x0001. */
    function Read(address: Word): (v: Byte)
      reads this, ram, ppu
      requires Valid() && Readable(address)
      ensures address <= 0x07FF ==> v == ram[address]
      ensures 0x2000 <= address ==> v == if address % 2 == 0 then ppu[0] else ppu[1]
    {
      if address <= 0x07FF then ram[address % 0x800] else ppu[address % 2]
    }

    /** Two PPU addresses of the same parity read the same byte. */
    lemma PpuReadsAlias(a: Word, b: Word)
      requires Valid() && 0x2000 <= a <= 0x2007 && 0x2000 <= b <= 0x2007
      requires a % 2 == b % 2
      ensures Read(a) == Read(b)
    {
    }

    /** Stores `value` at `address`.  A RAM write changes that RAM cell and
        nothing else; so a read of the same address then returns `value`.  A PPU
        write changes register address - 0x2000 and nothing else; for the
        registers from 2 on, a read of the same address does not see it. */
    method Write(address: Word, value: Byte)
      requires Valid() && Writable(address)
      modifies ram, ppu
      ensures address <= 0x07FF ==> ram[..] == old(ram[..])[address := value] && ppu[..] == old(ppu[..])
      ensures 0x2000 <= address ==> ppu[..] == old(ppu[..])[address - 0x2000 := value] && ram[..] == old(ram[..])
      ensures address <= 0x2001 ==> Read(address) == value
      ensures 0x2002 <= address ==> Read(address) == old(Read(address))
    {
      if address <= 0x07FF {
        ram[address % 0x800] := value;
      } else {
        ppu[address % 0x10] := value;
      }
    }
  }
}
