// An eMMC card with its partitions, the SDMA engine that moves data between it and memory,
// and the card's two ways of erasing. The boot device the driver offers is boot partition 1
// followed by boot partition 2; the lemmas here say when work on a partition is work on that
// one array.
module EmmcCard {
  import opened Arith
  import opened Buffers
  import opened BlockStore

  const BLOCK := 512
  const SDMA_BOUNDARY := 0x80000
  const MAX_SDMA_TRANSFER := 65535
  const MAX_ERASABLE_SECTORS := 0xFA000
  const ERASED: bv8 := 0

  datatype Region = UserPartition | BootPartition1 | BootPartition2

  datatype Card = Card(user: seq<bv8>, boot1: seq<bv8>, boot2: seq<bv8>, selected: Region)

  function Partition(c: Card, r: Region): seq<bv8> {
    match r
    case UserPartition => c.user
    case BootPartition1 => c.boot1
    case BootPartition2 => c.boot2
  }

  function WithPartition(c: Card, r: Region, data: seq<bv8>): Card {
    match r
    case UserPartition => c.(user := data)
    case BootPartition1 => c.(boot1 := data)
    case BootPartition2 => c.(boot2 := data)
  }

  predicate IsBoot(r: Region) {
    r != UserPartition
  }

  /** The one array a block device stands for. */
  function Logical(c: Card, boot: bool): seq<bv8> {
    if boot then c.boot1 + c.boot2 else c.user
  }

  /** Selecting another partition changes no data. */
  lemma SelectingMovesNothing(c: Card, r: Region, boot: bool)
    ensures Logical(c.(selected := r), boot) == Logical(c, boot)
    ensures Partition(c.(selected := r), r) == Partition(c, r)
  {
  }

  /** Where byte at of a partition sits in that array. */
  function LogicalByte(c: Card, r: Region, at: nat): nat {
    if r == BootPartition2 then |c.boot1| + at else at
  }

  /** Replacing bytes of one partition replaces the same bytes of the array. */
  lemma PartitionSplice(c: Card, r: Region, at: nat, data: seq<bv8>)
    requires at + |data| <= |Partition(c, r)|
    ensures var c' := WithPartition(c, r, Splice(Partition(c, r), at, data));
            Logical(c', IsBoot(r)) == Splice(Logical(c, IsBoot(r)), LogicalByte(c, r, at), data)
            && Logical(c', !IsBoot(r)) == Logical(c, !IsBoot(r))
            && |c'.boot1| == |c.boot1| && |c'.boot2| == |c.boot2| && |c'.user| == |c.user|
  {
    hide Splice;
    if r == BootPartition1 {
      SpliceFront(c.boot1, c.boot2, at, data);
    } else if r == BootPartition2 {
      SpliceBack(c.boot1, c.boot2, at, data);
    }
  }

  lemma SpliceFront(a: seq<bv8>, b: seq<bv8>, at: nat, data: seq<bv8>)
    requires at + |data| <= |a|
    ensures Splice(a + b, at, data) == Splice(a, at, data) + b
  {
  }

  lemma SpliceBack(a: seq<bv8>, b: seq<bv8>, at: nat, data: seq<bv8>)
    requires at + |data| <= |b|
    ensures Splice(a + b, |a| + at, data) == a + Splice(b, at, data)
  {
  }

  lemma PartitionSlice(c: Card, r: Region, at: nat, len: nat)
    requires at + len <= |Partition(c, r)|
    ensures LogicalByte(c, r, at) + len <= |Logical(c, IsBoot(r))|
    ensures Partition(c, r)[at..at + len]
         == Logical(c, IsBoot(r))[LogicalByte(c, r, at)..LogicalByte(c, r, at) + len]
  {
  }

  // ---------------------------------------------------------------- the SDMA engine

  /** A data command in progress: total bytes between memory at addr and byte at of region, of
      which moved have been moved. The engine halts, with the DMA interrupt raised, whenever
      the memory address reaches a multiple of 512 KiB. */
  datatype Engine =
    | Stopped
    | Active(region: Region, write: bool, at: nat, addr: nat, total: nat, moved: nat,
             halted: bool, dmaInterrupt: bool, complete: bool, failed: bool)

  predicate EngineOk(e: Engine, c: Card, mem: seq<bv8>) {
    e.Active? ==>
      && e.moved <= e.total
      && e.at + e.total <= |Partition(c, e.region)| && e.addr + e.total <= |mem|
      && (e.halted ==> e.dmaInterrupt && e.moved < e.total)
      && (e.complete ==> e.moved == e.total)
  }

  /** The most that can be moved before the command ends or the address meets a boundary. */
  function Room(e: Engine): nat
    requires e.Active? && e.moved <= e.total
  {
    Min(e.total - e.moved, SDMA_BOUNDARY - (e.addr + e.moved) % SDMA_BOUNDARY)
  }

  datatype Machine = Machine(engine: Engine, card: Card, mem: seq<bv8>)

  /** n more bytes; boundary says whether reaching both a boundary and the end of the command
      raises the DMA interrupt as well. */
  function Progressed(e: Engine, n: nat, boundary: bool): (r: Engine)
    requires e.Active? && e.moved <= e.total && !e.halted && n <= Room(e)
  {
    var moved := e.moved + n;
    var stop := n > 0 && (e.addr + moved) % SDMA_BOUNDARY == 0;
    e.(moved := moved,
       halted := stop && moved < e.total,
       dmaInterrupt := e.dmaInterrupt || (stop && (moved < e.total || boundary)),
       complete := e.complete || moved == e.total)
  }

  /** The engine moves n more bytes. */
  function Moved(m: Machine, n: nat, boundary: bool): (r: Machine)
    requires m.engine.Active? && EngineOk(m.engine, m.card, m.mem) && !m.engine.halted && n <= Room(m.engine)
  {
    var e := m.engine;
    DataMoved(m.(engine := Progressed(e, n, boundary)), e.region, e.at + e.moved, e.addr + e.moved, n, e.write)
  }

  function DataMoved(m: Machine, region: Region, from: nat, buf: nat, n: nat, write: bool): (r: Machine)
    requires from + n <= |Partition(m.card, region)| && buf + n <= |m.mem|
  {
    var part := Partition(m.card, region);
    if write then m.(card := WithPartition(m.card, region, Splice(part, from, m.mem[buf..buf + n])))
    else m.(mem := Splice(m.mem, buf, part[from..from + n]))
  }

  lemma DataMovedIsMove(m: Machine, region: Region, from: nat, buf: nat, n: nat, write: bool)
    requires from + n <= |Partition(m.card, region)| && buf + n <= |m.mem|
    ensures var r := DataMoved(m, region, from, buf, n, write);
            var at := LogicalByte(m.card, region, from);
            && r.engine == m.engine && SameShape(m, r)
            && Logical(r.card, !IsBoot(region)) == Logical(m.card, !IsBoot(region))
            && at + n <= |Logical(m.card, IsBoot(region))|
            && StoreOf(r, IsBoot(region)) == MoveBytes(StoreOf(m, IsBoot(region)), buf, at, n, write)
  {
    PartitionSlice(m.card, region, from, n);
    if write {
      PartitionSplice(m.card, region, from, m.mem[buf..buf + n]);
    }
  }

  /** Same sizes, same partition selected. */
  predicate SameShape(m: Machine, r: Machine) {
    && |r.card.boot1| == |m.card.boot1| && |r.card.boot2| == |m.card.boot2|
    && |r.card.user| == |m.card.user| && |r.mem| == |m.mem| && r.card.selected == m.card.selected
  }

  function StoreOf(m: Machine, boot: bool): Store {
    Store(m.mem, Logical(m.card, boot))
  }

  predicate SameCommand(m: Machine, r: Machine) {
    && m.engine.Active? && r.engine.Active?
    && r.engine.region == m.engine.region && r.engine.write == m.engine.write
    && r.engine.at == m.engine.at && r.engine.addr == m.engine.addr && r.engine.total == m.engine.total
    && SameShape(m, r)
  }

  lemma ProgressedOk(e: Engine, n: nat, boundary: bool)
    requires e.Active? && e.moved <= e.total && !e.halted && n <= Room(e) && (e.complete ==> e.moved == e.total)
    ensures var r := Progressed(e, n, boundary);
            && r.Active? && r.region == e.region && r.write == e.write && r.at == e.at && r.addr == e.addr
            && r.failed == e.failed
            && r.total == e.total && r.moved == e.moved + n <= r.total
            && (0 < n ==> 2 * n + (if e.dmaInterrupt then 1 else 0) >= if r.dmaInterrupt then 1 else 0)
            && (r.halted ==> r.dmaInterrupt && r.moved < r.total) && (r.complete ==> r.moved == r.total)
  {
  }

  /** A step of the engine is a transfer of n bytes on the array. */
  lemma MovedIsTransfer(m: Machine, n: nat, boundary: bool)
    requires m.engine.Active? && EngineOk(m.engine, m.card, m.mem) && !m.engine.halted && n <= Room(m.engine)
    ensures var r := Moved(m, n, boundary);
            var e := m.engine;
            var boot := IsBoot(e.region);
            var from := LogicalByte(m.card, e.region, e.at) + e.moved;
            && r.engine == Progressed(e, n, boundary) && EngineOk(r.engine, r.card, r.mem)
            && SameCommand(m, r) && Logical(r.card, !boot) == Logical(m.card, !boot)
            && from + n <= |Logical(m.card, boot)|
            && StoreOf(r, boot) == MoveBytes(StoreOf(m, boot), e.addr + e.moved, from, n, e.write)
  {
    hide DataMoved, Progressed, MoveBytes;
    var e := m.engine;
    ProgressedOk(e, n, boundary);
    DataMovedIsMove(m.(engine := Progressed(e, n, boundary)), e.region, e.at + e.moved, e.addr + e.moved, n, e.write);
  }

  /** A command that ended in an error: its own bytes, on the side it moves data to, hold anything. */
  function Garbled(m: Machine, junk: seq<bv8>): (r: Machine)
    requires m.engine.Active? && EngineOk(m.engine, m.card, m.mem) && |junk| == m.engine.total
  {
    var e := m.engine;
    if e.write then m.(card := WithPartition(m.card, e.region, Splice(Partition(m.card, e.region), e.at, junk)))
    else m.(mem := Splice(m.mem, e.addr, junk))
  }

  lemma GarbledShape(m: Machine, junk: seq<bv8>)
    requires m.engine.Active? && EngineOk(m.engine, m.card, m.mem) && |junk| == m.engine.total
    ensures var r := Garbled(m, junk);
            && r.engine == m.engine && SameShape(m, r) && EngineOk(r.engine, r.card, r.mem)
            && Logical(r.card, !IsBoot(m.engine.region)) == Logical(m.card, !IsBoot(m.engine.region))
            && (m.engine.write ==> r.mem == m.mem) && (!m.engine.write ==> r.card == m.card)
  {
    if m.engine.write {
      PartitionSplice(m.card, m.engine.region, m.engine.at, junk);
    }
  }

  // ---------------------------------------------------------------- erase

  /** Erase sectors first..last of the selected partition. Argument 0 works on whole erase
      groups, taking in every sector of the first and the last group; argument 1 (trim) works
      on exactly the given sectors. */
  function EraseSectors(c: Card, group: nat, first: nat, last: nat, arg: nat): Card
    requires 0 < group
  {
    var part := Partition(c, c.selected);
    var lo := if arg == 0 then first - first % group else first;
    var hi := if arg == 0 then last - last % group + group else last + 1;
    WithPartition(c, c.selected, Filled(part, lo * BLOCK, hi * BLOCK, ERASED))
  }

  /** sdmmc_get_trim_sectors: how much of a run to erase next, and with which argument. */
  function TrimSectors(start: nat, count: nat, group: nat): (r: (nat, nat))
    requires 0 < group
  {
    if start % group != 0 then (Min(count, group - start % group), 1)
    else if count % group == 0 then (count, 0)
    else if count < group then (count, 1)
    else ((count / group) * group, 0)
  }

  /** What an erase command may name: whole aligned groups, or (trim) sectors of one group. */
  predicate LegalErase(first: int, last: int, arg: nat, group: nat)
    requires 0 < group
  {
    && (arg == 0 ==> first % group == 0 && (last - first + 1) % group == 0)
    && (arg != 0 ==> arg == 1 && first / group == last / group)
  }

  /** No legal erase of more sectors of the run starts where this one does. */
  ghost predicate Longest(first: nat, n: nat, run: nat, group: nat)
    requires 0 < group
  {
    forall last: int, arg: nat ::
      first <= last < first + run && LegalErase(first, last, arg, group) ==> last < first + n
  }

  /** The chosen piece is the longest there is. */
  lemma TrimSectorsLongest(start: nat, count: nat, group: nat)
    requires 0 < group && 0 < count
    ensures Longest(start, TrimSectors(start, count, group).0, count, group)
  {
    hide TrimSectors, LegalErase;
    forall last: int, arg: nat | start <= last < start + count && LegalErase(start, last, arg, group)
      ensures last < start + TrimSectors(start, count, group).0
    {
      if arg == 0 {
        GroupsAreShort(start, last, count, group);
      } else {
        TrimIsShort(start, last, arg, count, group);
      }
    }
  }

  lemma TrimIsShort(start: nat, last: int, arg: nat, count: nat, group: nat)
    requires 0 < group && start <= last < start + count && arg != 0 && LegalErase(start, last, arg, group)
    ensures last < start + TrimSectors(start, count, group).0
  {
    var q := start / group;
    assert start == q * group + start % group && last == q * group + last % group;
    if group <= count {
      MulMonotone(1, count / group, group);
    }
  }

  lemma GroupsAreShort(start: nat, last: int, count: nat, group: nat)
    requires 0 < group && start <= last < start + count && LegalErase(start, last, 0, group)
    ensures last < start + TrimSectors(start, count, group).0
  {
    var k := (last - start + 1) / group;
    assert last - start + 1 == k * group;
    if count / group < k {
      MulMonotone(count / group + 1, k, group);
      Distribute(count / group, 1, group);
    }
    MulMonotone(k, count / group, group);
  }

  /** The chosen piece is never empty nor too long; a group erase is a whole number of aligned
      groups, a trim stays inside one group. */
  lemma TrimSectorsFit(start: nat, count: nat, group: nat)
    requires 0 < group && 0 < count
    ensures var (n, arg) := TrimSectors(start, count, group);
            && 0 < n <= count
            && LegalErase(start, start + n - 1, arg, group)
  {
    if start % group != 0 {
      SameGroup(start, TrimSectors(start, count, group).0, group);
    } else if count % group != 0 {
      if count < group {
        SameGroup(start, count, group);
      } else {
        WholeGroups(count, group);
      }
    }
  }

  lemma SameGroup(start: nat, n: nat, group: nat)
    requires 0 < group && 0 < n && start % group + n <= group
    ensures start / group == (start + n - 1) / group
  {
    DivModUnique(start + n - 1, group, start / group, start % group + n - 1);
  }

  lemma WholeGroups(count: nat, group: nat)
    requires 0 < group <= count
    ensures 0 < (count / group) * group <= count && ((count / group) * group) % group == 0
  {
    MulMonotone(1, count / group, group);
    DivModUnique((count / group) * group, group, count / group, 0);
  }

  /** So either way the card erases exactly the chosen sectors. */
  lemma EraseIsExact(c: Card, group: nat, start: nat, count: nat)
    requires 0 < group && 0 < count
    ensures var (n, arg) := TrimSectors(start, count, group);
            EraseSectors(c, group, start, start + n - 1, arg)
              == WithPartition(c, c.selected,
                               Filled(Partition(c, c.selected), start * BLOCK, (start + n) * BLOCK, ERASED))
  {
    TrimSectorsFit(start, count, group);
    var (n, arg) := TrimSectors(start, count, group);
    if arg == 0 {
      LastGroup(start, n, group);
    }
  }

  lemma LastGroup(start: nat, n: nat, group: nat)
    requires 0 < group && 0 < n && start % group == 0 && n % group == 0
    ensures var last := start + n - 1; last - last % group + group == start + n
  {
    var q := start / group + n / group;
    assert start + n == q * group by {
      Distribute(start / group, n / group, group);
    }
    Distribute(q, -1, group);
    DivModUnique(start + n - 1, group, q - 1, group - 1);
  }

  lemma PartitionFill(c: Card, r: Region, lo: nat, hi: nat)
    requires lo <= hi <= |Partition(c, r)|
    ensures var c' := WithPartition(c, r, Filled(Partition(c, r), lo, hi, ERASED));
            && Logical(c', IsBoot(r))
               == Filled(Logical(c, IsBoot(r)), LogicalByte(c, r, lo), LogicalByte(c, r, hi), ERASED)
            && Logical(c', !IsBoot(r)) == Logical(c, !IsBoot(r))
            && |c'.boot1| == |c.boot1| && |c'.boot2| == |c.boot2| && |c'.user| == |c.user|
  {
  }
}
