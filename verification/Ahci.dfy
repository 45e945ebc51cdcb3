/**
 Disk reads through AHCI (device/ahci.cpp): sector arithmetic, the physical region
 descriptor table (section 4.2.3.3 of the AHCI 1.3.1 specification), the command's LBA and
 sector count, and the copy to the caller. The device and the disk are modelled: it moves
 the commanded number of sectors to the addresses the table lists.
 */
module Ahci {
  import opened Machine

  const SECTOR := 512
  const ENTRY_SECTORS := 16
  const ENTRY_BYTES := 8192
  const U22 := 0x40_0000

  function AlignLeft(value: nat, alignment: nat): nat
    requires alignment > 0
  {
    value / alignment * alignment
  }

  function AlignRight(value: nat, alignment: nat): nat
    requires alignment > 0
  {
    (value + alignment - 1) / alignment * alignment
  }

  // ----- The descriptor table -----

  /** One entry: low and high address words and the byte count less one. */
  datatype Prd = Prd(dba: nat, dbau: nat, dbc: nat)

  function Address(e: Prd): nat { e.dba + e.dbau * U32 }

  function Length(e: Prd): nat { e.dbc + 1 }

  function Total(prdt: seq<Prd>): nat
  {
    if prdt == [] then 0 else Length(prdt[0]) + Total(prdt[1..])
  }

  /** Address the device writes byte k of a transfer to. */
  function AddressOf(prdt: seq<Prd>, k: nat): nat
    requires k < Total(prdt)
  {
    if k < Length(prdt[0]) then Address(prdt[0]) + k else AddressOf(prdt[1..], k - Length(prdt[0]))
  }

  function EntryFor(addr: nat, bytes: nat): Prd
    requires bytes > 0
  {
    Prd(addr % U32, addr / U32 % U32, (bytes - 1) % U22)
  }

  lemma {:induction false} EntryFields(addr: nat, bytes: nat)
    requires addr < U64 && 0 < bytes <= ENTRY_BYTES
    ensures Address(EntryFor(addr, bytes)) == addr && Length(EntryFor(addr, bytes)) == bytes
  {
  }

  /** The table read() builds for count sectors at addr. */
  function Table(addr: nat, count: nat): (t: seq<Prd>)
    requires count > 0
    ensures |t| == (count - 1) / ENTRY_SECTORS + 1
    decreases count
  {
    if count <= ENTRY_SECTORS then [EntryFor(addr, count * SECTOR)]
    else [EntryFor(addr, ENTRY_BYTES)] + Table(addr + ENTRY_BYTES, count - ENTRY_SECTORS)
  }

  /** The entries tile exactly count * 512 contiguous bytes. */
  lemma {:induction false} TableTiles(addr: nat, count: nat)
    requires count > 0 && addr + count * SECTOR <= U64
    ensures Total(Table(addr, count)) == count * SECTOR
    ensures forall k: nat :: k < count * SECTOR ==> AddressOf(Table(addr, count), k) == addr + k
    decreases count
  {
    var t := Table(addr, count);
    if count <= ENTRY_SECTORS {
      EntryFields(addr, count * SECTOR);
      assert t[1..] == [];
    } else {
      EntryFields(addr, ENTRY_BYTES);
      TableTiles(addr + ENTRY_BYTES, count - ENTRY_SECTORS);
      assert t[1..] == Table(addr + ENTRY_BYTES, count - ENTRY_SECTORS);
    }
  }

  /** The command: its table, its LBA bytes and the sector count taken after the loop. */
  datatype Command = Command(prdt: seq<Prd>, lba: seq<nat>, count: nat)

  lemma {:induction false} TableStep(addr: nat, count: nat)
    requires count > 0
    ensures count <= ENTRY_SECTORS ==> Table(addr, count) == [EntryFor(addr, count * SECTOR)]
    ensures count > ENTRY_SECTORS ==>
      Table(addr, count) == [EntryFor(addr, ENTRY_BYTES)] + Table(addr + ENTRY_BYTES, count - ENTRY_SECTORS)
  {
  }

  /** The loop of read() over the descriptor table, and the sectors its last entry is left with. */
  method BuildTable(sectors: nat, bufPhy: nat) returns (prdt: seq<Prd>, count: nat)
    requires 1 <= sectors <= ENTRY_SECTORS * 65535
    ensures prdt == Table(bufPhy, sectors)
    ensures count == (sectors - 1) % ENTRY_SECTORS + 1
  {
    hide Table, EntryFor;
    count := sectors;
    var addr := bufPhy;
    var prdtl := ((count - 1) / 16 % U16 + 1) % U16;
    assert prdtl == (sectors - 1) / 16 + 1;
    prdt := [];
    var i := 0;
    while i < prdtl - 1
      invariant 0 <= i <= prdtl - 1 && |prdt| == i
      invariant count == sectors - 16 * i && addr == bufPhy + ENTRY_BYTES * i && 0 < count
      invariant prdt + Table(addr, count) == Table(bufPhy, sectors)
    {
      TableStep(addr, count);
      prdt := prdt + [EntryFor(addr, 8 * 1024)];
      addr := addr + 4 * 1024 * 2;
      count := count - 16;
      i := i + 1;
    }
    TableStep(addr, count);
    prdt := prdt + [EntryFor(addr, count * 512)];
  }

  function LbaBytes(startl: nat, starth: nat): (b: seq<nat>)
    ensures |b| == 6
  {
    [startl % 256, startl / 0x100 % 256, startl / 0x1_0000 % 256, startl / 0x100_0000 % 256,
     starth % 256, starth / 0x100 % 256]
  }

  /** The part of read() that fills the command table and the FIS. */
  method BuildCommand(startl: nat, starth: nat, sectors: nat, bufPhy: nat) returns (c: Command)
    requires startl < U32 && starth < U32
    requires 1 <= sectors <= ENTRY_SECTORS * 65535
    ensures c.prdt == Table(bufPhy, sectors)
    ensures c.lba == LbaBytes(startl, starth)
    ensures c.count == (sectors - 1) % ENTRY_SECTORS + 1
  {
    var prdt, count := BuildTable(sectors, bufPhy);
    c := Command(prdt,
                 [startl % 256, startl / 0x100 % 256, startl / 0x1_0000 % 256, startl / 0x100_0000 % 256,
                  starth % 256, starth / 0x100 % 256],
                 count % 256 + count / 256 % 256 * 256);
  }

  /** The sector the device starts at. */
  function Lba(b: seq<nat>): nat
    requires |b| == 6
  {
    b[0] + b[1] * 0x100 + b[2] * 0x1_0000 + b[3] * 0x100_0000 + b[4] * 0x1_0000_0000 + b[5] * 0x100_0000_0000
  }

  lemma {:induction false} FourLbaBytes(l: nat)
    requires l < U32
    ensures l % 256 + l / 0x100 % 256 * 0x100 + l / 0x1_0000 % 256 * 0x1_0000 + l / 0x100_0000 % 256 * 0x100_0000 == l
  {
    assert l / 0x1_0000 == l / 0x100_0000 * 256 + l / 0x1_0000 % 256;
    assert l / 0x100 == l / 0x1_0000 * 256 + l / 0x100 % 256;
  }

  /** The six bytes carry every sector number below 2^48. */
  lemma {:induction false} LbaRoundTrip(sector: nat)
    requires sector < 0x1_0000_0000_0000
    ensures Lba(LbaBytes(sector % U32, sector / U32 % U32)) == sector
  {
    var h := sector / U32;
    assert h < 0x1_0000 && h == h % 256 + h / 0x100 % 256 * 0x100;
    FourLbaBytes(sector % U32);
  }

  // ----- A whole read -----

  type Byte = bv8

  /** The device's part: the commanded sectors, byte by byte, to the table's addresses. */
  method Transfer(disk: seq<Byte>, c: Command, mem: array<Byte>, ghost base: nat)
    requires |c.lba| == 6 && (Lba(c.lba) + c.count) * SECTOR <= |disk|
    requires c.count * SECTOR <= Total(c.prdt) && base + c.count * SECTOR <= mem.Length
    requires forall k: nat :: k < c.count * SECTOR ==> AddressOf(c.prdt, k) == base + k
    modifies mem
    ensures forall a :: 0 <= a < mem.Length ==>
      mem[a] == (if base <= a < base + c.count * SECTOR then disk[Lba(c.lba) * SECTOR + (a - base)] else old(mem[a]))
  {
    var k := 0;
    var first := Lba(c.lba) * SECTOR;
    while k < c.count * SECTOR
      invariant 0 <= k <= c.count * SECTOR
      invariant forall a :: 0 <= a < mem.Length ==>
        mem[a] == (if base <= a < base + k then disk[first + (a - base)] else old(mem[a]))
    {
      mem[AddressOf(c.prdt, k)] := disk[first + k];
      k := k + 1;
    }
  }

  /** First sector and number of sectors a byte range touches. */
  function FirstSector(start: nat): nat { AlignLeft(start, SECTOR) / SECTOR }

  /** The range touches a sector; only size 0 on a sector boundary does not. */
  predicate Touches(start: nat, size: nat) { size > 0 || start % SECTOR != 0 }

  function SectorCount(start: nat, size: nat): nat
    requires Touches(start, size)
  {
    (AlignRight(start + size, SECTOR) - AlignLeft(start, SECTOR)) / SECTOR
  }

  lemma {:induction false} SectorMath(start: nat, size: nat)
    requires Touches(start, size)
    ensures FirstSector(start) == start / SECTOR && SectorCount(start, size) >= 1
    ensures start - AlignLeft(start, SECTOR) == start % SECTOR
    ensures start % SECTOR + size <= SectorCount(start, size) * SECTOR
    ensures (SectorCount(start, size) - 1) * SECTOR < start % SECTOR + size
    ensures FirstSector(start) * SECTOR + SectorCount(start, size) * SECTOR == AlignRight(start + size, SECTOR)
  {
  }

  /** Bytes the command transfers: the sectors left in the count after the loop. */
  function Moved(start: nat, size: nat): (n: nat)
    requires Touches(start, size)
    ensures n <= ENTRY_BYTES
  {
    SectorMath(start, size);
    ((SectorCount(start, size) - 1) % ENTRY_SECTORS + 1) * SECTOR
  }

  /** What Read hands to its caller when the buffer held `before`. */
  function Output(disk: seq<Byte>, before: seq<Byte>, start: nat, size: nat): (out: seq<Byte>)
    requires Touches(start, size) && AlignRight(start + size, SECTOR) <= |disk|
    requires |before| == start % SECTOR + size
    ensures |out| == size
  {
    SectorMath(start, size);
    seq(size, i requires 0 <= i < size =>
      if start % SECTOR + i < Moved(start, size) then disk[start + i] else before[start % SECTOR + i])
  }

  /** read() with a device that completes: the sectors that reach the buffer. */
  method ReadSectors(disk: seq<Byte>, mem: array<Byte>, buf: nat, sectorStart: nat, sectorCount: nat)
    requires 1 <= sectorCount <= ENTRY_SECTORS * 65535 && sectorStart < 0x1_0000_0000_0000
    requires (sectorStart + sectorCount) * SECTOR <= |disk|
    requires buf + sectorCount * SECTOR <= U64 && buf + ((sectorCount - 1) % ENTRY_SECTORS + 1) * SECTOR <= mem.Length
    modifies mem
    ensures forall a :: 0 <= a < mem.Length ==>
      mem[a] == (if buf <= a < buf + ((sectorCount - 1) % ENTRY_SECTORS + 1) * SECTOR
                 then disk[sectorStart * SECTOR + (a - buf)] else old(mem[a]))
  {
    LbaRoundTrip(sectorStart);
    hide Lba, LbaBytes;
    var c := BuildCommand(sectorStart % U32, sectorStart / U32 % U32, sectorCount, buf);
    TableTiles(buf, sectorCount);
    assert c.count <= sectorCount;
    Transfer(disk, c, mem, buf);
  }

  /**
   AHCIDevice::Read when the command succeeds, with the buffer at address buf. Memory must
   hold what the command transfers, at most 8 KiB, and what is copied out of the buffer.
   */
  method Read(disk: seq<Byte>, mem: array<Byte>, buf: nat, start: nat, size: nat) returns (out: seq<Byte>)
    requires Touches(start, size) && start + size + SECTOR <= U64
    requires AlignRight(start + size, SECTOR) <= |disk| <= 0x1_0000_0000_0000 * SECTOR
    requires SectorCount(start, size) <= ENTRY_SECTORS * 65535 && buf + SectorCount(start, size) * SECTOR <= U64
    requires buf + Moved(start, size) <= mem.Length && buf + start % SECTOR + size <= mem.Length
    modifies mem
    ensures out == Output(disk, old(mem[buf..buf + start % SECTOR + size]), start, size)
  {
    SectorMath(start, size);
    var startAddr := AlignLeft(start, SECTOR);
    var endAddr := AlignRight(start + size, SECTOR);
    var startOffset := start - startAddr;
    var sectorStart := startAddr / SECTOR;
    var sectorCount := endAddr / SECTOR - sectorStart;
    assert sectorCount == SectorCount(start, size) && sectorStart == FirstSector(start);
    hide AlignLeft, AlignRight, SectorCount, FirstSector;
    ReadSectors(disk, mem, buf, sectorStart, sectorCount);
    out := mem[buf + startOffset..buf + startOffset + size];
  }

  lemma {:induction false} Flipped(b: Byte)
    ensures b ^ 1 != b
  {
  }

  /**
   Whatever the buffer held, Read returns the bytes of the disk exactly when the range
   touches at most 16 sectors.
   */
  lemma {:induction false} ReadCorrectIff(disk: seq<Byte>, start: nat, size: nat)
    requires Touches(start, size) && AlignRight(start + size, SECTOR) <= |disk|
    ensures start + size <= |disk|
    ensures (forall before: seq<Byte> :: |before| == start % SECTOR + size ==>
              Output(disk, before, start, size) == disk[start..start + size])
       <==> SectorCount(start, size) <= ENTRY_SECTORS
  {
    SectorMath(start, size);
    var count := SectorCount(start, size);
    assert count <= ENTRY_SECTORS ==> Moved(start, size) == count * SECTOR;
    if count > ENTRY_SECTORS {
      assert Moved(start, size) <= (count - 1) * SECTOR <= start % SECTOR + (size - 1);
      var stale := disk[start + size - 1] ^ 1;
      var before := seq(start % SECTOR + size, _ => stale);
      assert Output(disk, before, start, size)[size - 1] == stale;
      assert disk[start..start + size][size - 1] == disk[start + size - 1];
      Flipped(disk[start + size - 1]);
    }
  }
}
