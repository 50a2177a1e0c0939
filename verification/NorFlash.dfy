// A serial NOR flash chip: erase sets whole sectors to ones, program can only clear bits and
// wraps inside its page, and both are ignored while the chip is busy or not write-enabled.
module NorFlash {
  import opened Arith
  import opened Buffers

  const BLOCK := 512
  const PARAM_SECTOR := 4096
  const ONES: bv8 := 0xFF

  /** sectorBlocks is the sector size in blocks; hybrid chips overlay the first paramSectors
      4 KiB sectors on sector 0, whose own erase command then spares them. */
  datatype Geometry = Geometry(sectorBlocks: nat, sectorCount: nat, pageSize: nat, paramSectors: nat,
                               hybrid: bool, addressLength: nat, bulkErase: bool)

  predicate ValidGeometry(g: Geometry) {
    && 64 <= g.sectorBlocks && 1 <= g.sectorCount
    && (g.pageSize == 256 || g.pageSize == 512)
    && (g.paramSectors == 0 || g.paramSectors == 8)
    && (g.hybrid ==> g.paramSectors == 8)
    && g.sectorBlocks <= 0x1000
    && BlockCount(g) * BLOCK <= 0x8000_0000
    && (g.addressLength == 4 || (g.addressLength == 3 && BlockCount(g) * BLOCK <= 0x100_0000))
  }

  function BlockCount(g: Geometry): nat {
    Times(g.sectorCount, g.sectorBlocks)
  }

  /** First byte of a sector. */
  function SectorByte(g: Geometry, sector: nat): nat {
    Times(sector, g.sectorBlocks) * BLOCK
  }

  /** refused counts erase and program commands that arrived while the chip was busy or not
      write-enabled. */
  datatype Chip = Chip(mem: seq<bv8>, wel: bool, busy: bool, refused: nat)

  function Erased(s: seq<bv8>, lo: int, hi: int): (r: seq<bv8>)
    ensures |r| == |s|
  {
    Filled(s, lo, hi, ONES)
  }

  /** The bytes from off on and-ed with data: all that programming can do. */
  function Programmed(s: seq<bv8>, off: nat, data: seq<bv8>): (r: seq<bv8>)
    requires off + |data| <= |s|
    ensures |r| == |s|
  {
    seq(|s|, i requires 0 <= i < |s| => if off <= i < off + |data| then s[i] & data[i - off] else s[i])
  }

  // ---------------------------------------------------------------- address bytes

  /** Address bytes as sent, most significant first. */
  function AddressBytes(address: nat, length: nat): (r: seq<nat>)
    ensures |r| == length
  {
    if length == 0 then [] else AddressBytes(address / 256, length - 1) + [address % 256]
  }

  function AddressOf(bytes: seq<nat>): nat {
    if bytes == [] then 0 else AddressOf(bytes[..|bytes| - 1]) * 256 + bytes[|bytes| - 1]
  }

  lemma AddressRoundTrip(g: Geometry, address: nat)
    requires ValidGeometry(g) && address < BlockCount(g) * BLOCK
    ensures AddressOf(AddressBytes(address, g.addressLength)) == address
  {
    BytesRoundTrip(address / 256 / 256 / 256, 1);
    BytesRoundTrip(address / 256 / 256, g.addressLength - 2);
    BytesRoundTrip(address / 256, g.addressLength - 1);
    BytesRoundTrip(address, g.addressLength);
  }

  /** Sending an address and reading it back keeps exactly what fits in the bytes. */
  lemma {:induction false} BytesRoundTrip(address: nat, length: nat)
    ensures AddressOf(AddressBytes(address, length)) == address <==> address < Capacity(length)
    ensures AddressOf(AddressBytes(address, length)) <= address
  {
    if length > 0 {
      var bytes := AddressBytes(address, length);
      assert bytes[..length - 1] == AddressBytes(address / 256, length - 1);
      BytesRoundTrip(address / 256, length - 1);
    }
  }

  // ---------------------------------------------------------------- commands

  function WriteEnabled(c: Chip): Chip {
    if c.busy then c else c.(wel := true)
  }

  function WriteDisabled(c: Chip): Chip {
    if c.busy then c else c.(wel := false)
  }

  /** The running erase or program operation ends. */
  function Settled(c: Chip): Chip {
    if c.busy then c.(busy := false, wel := false) else c
  }

  /** Accept a modifying command that leaves mem behind, or refuse it. */
  function Modified(c: Chip, mem: seq<bv8>): Chip {
    if c.busy || !c.wel then c.(refused := c.refused + 1) else c.(mem := mem, busy := true)
  }

  function SectorOf(g: Geometry, address: nat): (sector: nat)
    requires 0 < g.sectorBlocks
  {
    address / (g.sectorBlocks * BLOCK)
  }

  function SectorErase(c: Chip, g: Geometry, bytes: seq<nat>): Chip
    requires 0 < g.sectorBlocks
  {
    var sector := SectorOf(g, AddressOf(bytes));
    var spared := if g.hybrid && sector == 0 then g.paramSectors * PARAM_SECTOR else 0;
    Modified(c, Erased(c.mem, SectorByte(g, sector) + spared, SectorByte(g, sector + 1)))
  }

  function ParameterErase(c: Chip, bytes: seq<nat>): Chip {
    var sector := AddressOf(bytes) / PARAM_SECTOR;
    Modified(c, Erased(c.mem, sector * PARAM_SECTOR, (sector + 1) * PARAM_SECTOR))
  }

  function BulkErase(c: Chip): Chip {
    Modified(c, Erased(c.mem, 0, |c.mem|))
  }

  /** Data running over the end of the page continues at its beginning. */
  function PageProgram(c: Chip, g: Geometry, bytes: seq<nat>, data: seq<bv8>): Chip
    requires 0 < g.pageSize
  {
    Modified(c, PageProgrammed(c.mem, g.pageSize, AddressOf(bytes), data))
  }

  function PageProgrammed(s: seq<bv8>, pageSize: nat, address: nat, data: seq<bv8>): (r: seq<bv8>)
    requires 0 < pageSize
    ensures |r| == |s|
  {
    seq(|s|, i requires 0 <= i < |s| =>
      if i / pageSize == address / pageSize && (i - address) % pageSize < |data|
      then s[i] & data[(i - address) % pageSize] else s[i])
  }

  // ---------------------------------------------------------------- what the commands amount to

  lemma SectorEraseAt(c: Chip, g: Geometry, sector: nat)
    requires ValidGeometry(g) && sector < g.sectorCount
    ensures var spared := if g.hybrid && sector == 0 then g.paramSectors * PARAM_SECTOR else 0;
            SectorErase(c, g, AddressBytes(SectorByte(g, sector), g.addressLength))
              == Modified(c, Erased(c.mem, SectorByte(g, sector) + spared, SectorByte(g, sector + 1)))
  {
    SectorAddress(g, sector);
  }

  /** The byte address of a sector: inside the chip, and leading back to the sector. */
  lemma SectorAddress(g: Geometry, sector: nat)
    requires ValidGeometry(g) && sector < g.sectorCount
    ensures AddressOf(AddressBytes(SectorByte(g, sector), g.addressLength)) == SectorByte(g, sector)
    ensures SectorByte(g, sector) / (g.sectorBlocks * BLOCK) == sector
  {
    TimesGrows(sector, g.sectorCount, g.sectorBlocks);
    AddressRoundTrip(g, SectorByte(g, sector));
    TimesIs(sector, g.sectorBlocks);
    TimesBlock(sector, g.sectorBlocks);
    DivModUnique(SectorByte(g, sector), g.sectorBlocks * BLOCK, sector, 0);
  }

  lemma TimesBlock(a: nat, b: nat)
    ensures a * (b * BLOCK) == a * b * BLOCK
  {
  }

  lemma ParameterEraseAt(c: Chip, g: Geometry, sector: nat)
    requires ValidGeometry(g) && sector < g.paramSectors
    ensures ParameterErase(c, AddressBytes(sector * PARAM_SECTOR, g.addressLength))
         == Modified(c, Erased(c.mem, sector * PARAM_SECTOR, (sector + 1) * PARAM_SECTOR))
  {
    TimesGrows(0, g.sectorCount, g.sectorBlocks);
    AddressRoundTrip(g, sector * PARAM_SECTOR);
  }

  /** A chunk that stays inside its page programs exactly its own bytes; one that does not
      would wrap. */
  lemma ProgramInsidePage(c: Chip, g: Geometry, address: nat, data: seq<bv8>)
    requires ValidGeometry(g) && |c.mem| == BlockCount(g) * BLOCK
    requires address + |data| <= |c.mem| && address < |c.mem|
    requires address % g.pageSize + |data| <= g.pageSize
    ensures PageProgram(c, g, AddressBytes(address, g.addressLength), data)
         == Modified(c, Programmed(c.mem, address, data))
  {
    AddressRoundTrip(g, address);
    var r := PageProgrammed(c.mem, g.pageSize, address, data);
    forall i | 0 <= i < |c.mem|
      ensures r[i] == Programmed(c.mem, address, data)[i]
    {
      PageIndex(i, address, g.pageSize, |data|);
    }
  }

  lemma PageIndex(i: nat, address: nat, pageSize: nat, n: nat)
    requires (pageSize == 256 || pageSize == 512) && address % pageSize + n <= pageSize
    ensures (i / pageSize == address / pageSize && (i - address) % pageSize < n) <==> address <= i < address + n
    ensures address <= i < address + n ==> (i - address) % pageSize == i - address
  {
  }

  /** Programming erased bytes stores the data. */
  lemma ProgramOverErased(s: seq<bv8>, off: nat, data: seq<bv8>)
    requires off + |data| <= |s| && forall i :: off <= i < off + |data| ==> s[i] == ONES
    ensures Programmed(s, off, data)[off..off + |data|] == data
  {
    forall i | 0 <= i < |data|
      ensures Programmed(s, off, data)[off + i] == data[i]
    {
      assert ONES & data[i] == data[i];
    }
  }

  lemma ProgramAdjacent(s: seq<bv8>, off: nat, a: seq<bv8>, b: seq<bv8>)
    requires off + |a| + |b| <= |s|
    ensures Programmed(Programmed(s, off, a), off + |a|, b) == Programmed(s, off, a + b)
  {
  }
}
