// The eMMC driver: drivers/sdmmc/tegrabl_sdmmc_host.c (boot block mapping, status polling) and
// drivers/sdmmc/tegrabl_sdmmc_protocol.c (block I/O, resumable transfers, erase).
module Emmc {
  import opened Arith
  import opened Buffers
  import opened BlockStore
  import opened EmmcCard

  datatype Error = NoError | InvalidRegion | CommandFailed | Busy | Overflow

  datatype Status = Idle | InProgress | IoFailure | CrcFailure | DataTimeout

  datatype XferStatus = XferInProgress | XferComplete

  datatype Stop = Ended | Expired | Failed

  /** A DMA mapping of a buffer: its length in bytes and its direction must be given back. */
  datatype Mapping = Mapping(addr: nat, len: nat, write: bool)

  /** A data command as the card saw it: partition selected at that moment, physical sector. */
  datatype Issue = Issue(region: Region, sector: nat, count: nat, addr: nat, write: bool)

  /** A caller's request: what memory, the device and the card's other device held, what was
      mapped, where the logs of commands and of mappings given back stood, and how many errors the
      controller had raised. */
  datatype Request = Request(start: Store, other: seq<bv8>, buffer: nat, block: nat, write: bool, boot: bool,
                             mapped: multiset<Mapping>, issued: seq<Issue>, returned: seq<Mapping>, faults: nat)

  /** An erase as the card saw it: start and end sector, argument, partition selected. */
  datatype EraseCommand = EraseCommand(region: Region, first: nat, last: nat, arg: nat)

  function LogicalSector(bootBlocks: nat, r: Region, sector: nat): nat {
    if r == BootPartition2 then bootBlocks + sector else sector
  }

  /** The commands cover count blocks from block and buffer on: once each, in order, none
      empty, none crossing a boot partition. */
  ghost predicate Covers(log: seq<Issue>, bootBlocks: nat, boot: bool, write: bool, block: nat, buffer: nat, count: nat)
    decreases |log|
  {
    if log == [] then count == 0
    else
      var c := log[0];
      && c.write == write && IsBoot(c.region) == boot
      && LogicalSector(bootBlocks, c.region, c.sector) == block && c.addr == buffer
      && 0 < c.count <= count
      && (boot ==> c.sector + c.count <= bootBlocks)
      && Covers(log[1..], bootBlocks, boot, write, block + c.count, buffer + c.count * BLOCK, count - c.count)
  }

  lemma {:induction false} CoversAppend(log: seq<Issue>, bootBlocks: nat, boot: bool, write: bool, block: nat,
                                        buffer: nat, count: nat, c: Issue)
    requires Covers(log, bootBlocks, boot, write, block, buffer, count)
    requires c.write == write && IsBoot(c.region) == boot && 0 < c.count
    requires LogicalSector(bootBlocks, c.region, c.sector) == block + count && c.addr == buffer + count * BLOCK
    requires boot ==> c.sector + c.count <= bootBlocks
    ensures Covers(log + [c], bootBlocks, boot, write, block, buffer, count + c.count)
    decreases |log|
  {
    if log == [] {
      assert (log + [c])[1..] == [];
    } else {
      var h := log[0];
      assert (log + [c])[1..] == log[1..] + [c];
      CoversAppend(log[1..], bootBlocks, boot, write, block + h.count, buffer + h.count * BLOCK, count - h.count, c);
    }
  }

  /** The mappings of a run of commands, in order. */
  ghost function Mappings(log: seq<Issue>): seq<Mapping> {
    if log == [] then []
    else
      var c := log[|log| - 1];
      Mappings(log[..|log| - 1]) + [Mapping(c.addr, c.count * BLOCK, c.write)]
  }

  /** One more command opens its mapping. */
  lemma MappingOpens(q: Request, log: seq<Issue>, c: Issue)
    requires q.issued <= log
    ensures q.issued <= log + [c]
    ensures Mappings((log + [c])[|q.issued|..])
         == Mappings(log[|q.issued|..]) + [Mapping(c.addr, c.count * BLOCK, c.write)]
  {
    assert (log + [c])[|q.issued|..] == log[|q.issued|..] + [c];
  }

  /** The erase commands partition count blocks from block on, of whole that are to be erased: in
      order, none empty, group erases made of whole aligned groups, trims inside one group, each as
      long as the card allows. */
  ghost predicate ErasePieces(log: seq<EraseCommand>, bootBlocks: nat, boot: bool, group: nat, block: nat, count: nat,
                              whole: nat)
    requires 0 < group
    decreases |log|
  {
    if log == [] then count == 0
    else
      var c := log[0];
      var n := c.last - c.first + 1;
      && IsBoot(c.region) == boot && LogicalSector(bootBlocks, c.region, c.first) == block
      && 0 < n <= count <= whole
      && LegalErase(c.first, c.last, c.arg, group)
      && Longest(c.first, n, RunLength(bootBlocks, boot, c.first, whole), group)
      && ErasePieces(log[1..], bootBlocks, boot, group, block + n, count - n, whole - n)
  }

  /** The blocks among which a piece is chosen: what is left, within one boot partition and the most
      the driver erases at a time. */
  function RunLength(bootBlocks: nat, boot: bool, sector: nat, left: nat): nat {
    var most := Min(left, MAX_ERASABLE_SECTORS);
    if boot && sector <= bootBlocks then Min(most, bootBlocks - sector) else most
  }

  lemma {:induction false} ErasePiecesAppend(log: seq<EraseCommand>, bootBlocks: nat, boot: bool, group: nat,
                                             block: nat, count: nat, c: EraseCommand, whole: nat)
    requires 0 < group && ErasePieces(log, bootBlocks, boot, group, block, count, whole)
    requires c.first <= c.last && IsBoot(c.region) == boot && count + (c.last - c.first + 1) <= whole
    requires LogicalSector(bootBlocks, c.region, c.first) == block + count
    requires LegalErase(c.first, c.last, c.arg, group)
    requires Longest(c.first, c.last - c.first + 1, RunLength(bootBlocks, boot, c.first, whole - count), group)
    ensures ErasePieces(log + [c], bootBlocks, boot, group, block, count + (c.last - c.first + 1), whole)
    decreases |log|
  {
    hide Longest, LegalErase, RunLength;
    if log == [] {
      assert (log + [c])[1..] == [];
    } else {
      var n := log[0].last - log[0].first + 1;
      assert (log + [c])[1..] == log[1..] + [c];
      ErasePiecesAppend(log[1..], bootBlocks, boot, group, block + n, count - n, c, whole - n);
    }
  }

  /** upto bytes of the request have been handed to the engine, the last total of them in the
      command it is working on, of which moved have been moved. */
  ghost predicate Carrying(m: Machine, q: Request, upto: nat) {
    m.engine.Active? && EngineOk(m.engine, m.card, m.mem) && Aimed(m, q, upto) && Arrived(m, q, upto)
  }

  /** The command moves the right bytes of the request in the right direction. */
  ghost predicate Aimed(m: Machine, q: Request, upto: nat)
    requires m.engine.Active?
  {
    var e := m.engine;
    && e.write == q.write && IsBoot(e.region) == q.boot
    && e.total <= upto
    && e.addr == q.buffer + (upto - e.total)
    && LogicalByte(m.card, e.region, e.at) == q.block * BLOCK + (upto - e.total)
  }

  /** Memory and device hold the request's effect up to the byte the engine has reached. */
  ghost predicate Arrived(m: Machine, q: Request, upto: nat)
    requires m.engine.Active?
  {
    var done := upto - m.engine.total + m.engine.moved;
    BytesDone(q, done) && StoreOf(m, q.boot) == Effect(q, done) && Logical(m.card, !q.boot) == q.other
  }

  predicate BytesDone(q: Request, bytes: int) {
    0 <= bytes && q.buffer + bytes <= |q.start.mem| && q.block * BLOCK + bytes <= |q.start.disk|
  }

  /** The request carried out up to its first bytes. */
  function Effect(q: Request, bytes: nat): (st: Store)
    requires BytesDone(q, bytes)
    ensures |st.mem| == |q.start.mem| && |st.disk| == |q.start.disk|
  {
    MoveBytes(q.start, q.buffer, q.block * BLOCK, bytes, q.write)
  }

  const WRAP: nat := 0x1_0000_0000

  /** The range check of sdmmc_io and sdmmc_erase, in the 32-bit arithmetic of the source. */
  predicate PassesCheck(block: nat, count: nat, blockCount: nat) {
    !(block > (blockCount - 1) % WRAP || (block + count) % WRAP > blockCount)
  }

  /** The check is fooled: the start is in range and the sum wraps. */
  predicate WrapsPast(block: nat, count: nat, blockCount: nat) {
    block < blockCount && WRAP <= block + count
  }

  /** The check tells requests in range from others if and only if the sum does not wrap, or the
      start is out of range anyway. */
  lemma RangeCheckIff(block: nat, count: nat, blockCount: nat)
    requires block < WRAP && count < WRAP && 0 < blockCount < WRAP
    ensures (PassesCheck(block, count, blockCount) <==> block < blockCount && block + count <= blockCount)
            <==> !WrapsPast(block, count, blockCount)
  {
    if block + count < WRAP {
      assert (block + count) % WRAP == block + count;
    } else {
      assert (block + count) % WRAP == block + count - WRAP < block;
    }
  }

  /** A request for almost 2^32 blocks from block 1 of a device of eight passes. */
  lemma RangeCheckWitness()
    ensures PassesCheck(1, 0xFFFF_FFFF, 8) && WrapsPast(1, 0xFFFF_FFFF, 8)
  {
  }

  /** r is what is left of q from block from on, made as a request of its own in this state. */
  ghost predicate IsRest(r: Request, q: Request, m: Machine, buf: nat, from: nat, mapped: multiset<Mapping>,
                         issued: seq<Issue>, returned: seq<Mapping>, faults: nat)
  {
    && r.start == StoreOf(m, q.boot) && r.other == Logical(m.card, !q.boot) && r.boot == q.boot && r.write == q.write
    && r.buffer == buf && r.block == q.block + from && r.mapped == mapped && r.issued == issued
    && r.returned == returned && r.faults == faults
  }

  lemma EffectIsTransferred(q: Request, count: nat)
    requires BytesDone(q, count * BLOCK)
    ensures InRange(BLOCK, q.start, q.buffer, q.block, count)
    ensures Effect(q, count * BLOCK) == Transferred(BLOCK, q.start, q.buffer, q.block, count, q.write)
  {
  }

  lemma EffectStep(q: Request, done: nat, n: nat)
    requires BytesDone(q, done + n)
    ensures MoveBytes(Effect(q, done), q.buffer + done, q.block * BLOCK + done, n, q.write) == Effect(q, done + n)
  {
    MoveBytesAdjacent(q.start, q.buffer, q.block * BLOCK, done, n, q.write);
  }

  lemma CarryingStep(m: Machine, q: Request, upto: nat, n: nat, boundary: bool)
    requires Carrying(m, q, upto) && !m.engine.halted && n <= Room(m.engine) && BytesDone(q, upto)
    ensures Carrying(Moved(m, n, boundary), q, upto) && SameCommand(m, Moved(m, n, boundary))
    ensures Moved(m, n, boundary).engine.failed == m.engine.failed
    ensures 0 < n ==> Left(Moved(m, n, boundary)) <= Left(m)
  {
    hide Moved, MoveBytes, Effect, Progressed;
    MovedIsTransfer(m, n, boundary);
    ProgressedOk(m.engine, n, boundary);
    CarryingAfter(m, Moved(m, n, boundary), q, upto, n);
  }

  lemma CarryingAfter(m: Machine, r: Machine, q: Request, upto: nat, n: nat)
    requires Carrying(m, q, upto) && BytesDone(q, upto)
    requires SameCommand(m, r) && EngineOk(r.engine, r.card, r.mem) && r.engine.moved == m.engine.moved + n
    requires Logical(r.card, !q.boot) == Logical(m.card, !q.boot)
    requires var e := m.engine;
             var at := LogicalByte(m.card, e.region, e.at) + e.moved;
             at + n <= |Logical(m.card, q.boot)|
             && StoreOf(r, q.boot) == MoveBytes(StoreOf(m, q.boot), e.addr + e.moved, at, n, e.write)
    ensures Carrying(r, q, upto)
  {
    hide MoveBytes, Effect, Logical;
    EffectStep(q, upto - m.engine.total + m.engine.moved, n);
    AimedStill(m, r, q, upto);
  }

  lemma AimedStill(m: Machine, r: Machine, q: Request, upto: nat)
    requires SameCommand(m, r) && Aimed(m, q, upto)
    ensures Aimed(r, q, upto)
  {
  }

  /** A fresh command for the next num blocks of the request. */
  function Fresh(m: Machine, sector: nat, num: nat, buf: nat, write: bool): Machine {
    m.(engine := Active(m.card.selected, write, sector * BLOCK, buf, num % 0x10000 * BLOCK, 0,
                        false, false, false, false))
  }

  lemma LaunchCarries(m: Machine, q: Request, done: nat, sector: nat, num: nat)
    requires num <= MAX_SDMA_TRANSFER && BytesDone(q, (done + num) * BLOCK) && IsBoot(m.card.selected) == q.boot
    requires BytesDone(q, done * BLOCK) && StoreOf(m, q.boot) == Effect(q, done * BLOCK)
    requires Logical(m.card, !q.boot) == q.other
    requires LogicalByte(m.card, m.card.selected, sector * BLOCK) == (q.block + done) * BLOCK
    requires (sector + num) * BLOCK <= |Partition(m.card, m.card.selected)|
    ensures Carrying(Fresh(m, sector, num, q.buffer + done * BLOCK, q.write), q, (done + num) * BLOCK)
  {
  }

  lemma LogAppend(log: seq<Issue>, q: Request, bootBlocks: nat, done: nat, c: Issue)
    requires q.issued <= log && Covers(log[|q.issued|..], bootBlocks, q.boot, q.write, q.block, q.buffer, done)
    requires c.write == q.write && IsBoot(c.region) == q.boot && 0 < c.count
    requires LogicalSector(bootBlocks, c.region, c.sector) == q.block + done && c.addr == q.buffer + done * BLOCK
    requires q.boot ==> c.sector + c.count <= bootBlocks
    ensures q.issued <= log + [c]
    ensures Covers((log + [c])[|q.issued|..], bootBlocks, q.boot, q.write, q.block, q.buffer, done + c.count)
  {
    CoversAppend(log[|q.issued|..], bootBlocks, q.boot, q.write, q.block, q.buffer, done, c);
    assert (log + [c])[|q.issued|..] == log[|q.issued|..] + [c];
  }

  /** Flags of the engine say nothing about where it aims or what has arrived. */
  lemma CarryingFlags(m: Machine, q: Request, upto: nat, e: Engine)
    requires Carrying(m, q, upto)
    requires e.Active?
    requires e == m.engine.(halted := e.halted, dmaInterrupt := e.dmaInterrupt, complete := e.complete,
                            failed := e.failed)
    requires EngineOk(e, m.card, m.mem)
    ensures Carrying(m.(engine := e), q, upto) && SameCommand(m, m.(engine := e))
  {
  }

  /** What a running command can still move without being restarted. */
  function StillToCome(m: Machine): nat {
    if m.engine.Active? && m.engine.moved <= m.engine.total && !m.engine.halted then EmmcCard.Room(m.engine) else 0
  }

  /** It has moved n bytes more. */
  function GoneOn(m: Machine, n: nat): Machine
    requires EngineOk(m.engine, m.card, m.mem) && n <= StillToCome(m)
  {
    if n == 0 then m else Moved(m, n, false)
  }

  /** What a command still moves after the driver has given up on it are the next bytes of its own
      request; if it ends, the request has been carried out as far as it had been issued. */
  lemma GivenUpGoesOn(m: Machine, q: Request, upto: nat, n: nat)
    requires Carrying(m, q, upto) && BytesDone(q, upto) && n <= StillToCome(m)
    ensures Carrying(GoneOn(m, n), q, upto)
    ensures m.engine.moved + n == m.engine.total ==> StoreOf(GoneOn(m, n), q.boot) == Effect(q, upto)
  {
    hide Moved, Effect, MoveBytes, Logical;
    if n != 0 {
      CarryingStep(m, q, upto, n, false);
      MovedIsTransfer(m, n, false);
    }
  }

  /** Where it has ended in an error, junk is what its bytes hold. */
  function LeftBy(m: Machine, n: nat, junk: seq<bv8>): Machine
    requires EngineOk(m.engine, m.card, m.mem) && n <= StillToCome(m)
  {
    GoneOnShape(m, n, true);
    if junk != [] && m.engine.Active? && |junk| == m.engine.total then Garbled(GoneOn(m, n), junk) else GoneOn(m, n)
  }

  lemma GoneOnShape(m: Machine, n: nat, boot: bool)
    requires EngineOk(m.engine, m.card, m.mem) && n <= StillToCome(m)
    ensures |GoneOn(m, n).mem| == |m.mem| && |Logical(GoneOn(m, n).card, boot)| == |Logical(m.card, boot)|
    ensures m.engine.Active? ==>
              var r := GoneOn(m, n); SameCommand(m, r) && EngineOk(r.engine, r.card, r.mem)
  {
    hide Moved;
    if n != 0 {
      MovedIsTransfer(m, n, false);
    }
  }

  lemma LeftByShape(m: Machine, n: nat, junk: seq<bv8>, boot: bool)
    requires EngineOk(m.engine, m.card, m.mem) && n <= StillToCome(m)
    ensures |LeftBy(m, n, junk).mem| == |m.mem| && |Logical(LeftBy(m, n, junk).card, boot)| == |Logical(m.card, boot)|
  {
    hide GoneOn, Garbled;
    GoneOnShape(m, n, true);
    GoneOnShape(m, n, false);
    if junk != [] && m.engine.Active? && |junk| == m.engine.total {
      GarbledShape(GoneOn(m, n), junk);
    }
  }

  class Sdmmc {
    const bootBlocks: nat
    const eraseGroupSize: nat
    var machine: Machine
    var currentAccessRegion: Region
    var deviceStatus: Status
    /** Polls left until the driver's own data timeout. */
    var timer: nat
    var lastXferBlocks: nat
    var lastXferBuf: nat
    var lastIoBuf: nat
    var lastIoNumSectors: nat
    var lastIoWrite: bool
    var dmaMapped: multiset<Mapping>
    /** Every mapping given back so far, in order. */
    ghost var givenBack: seq<Mapping>
    ghost var issued: seq<Issue>
    /** How many commands have failed, and how many errors the controller has raised on data the
        driver was polling for. */
    ghost var faults: nat
    /** Looks at the card until it has left the programming state. */
    var programming: nat

    ghost predicate Sized()
      reads this`machine
    {
      && |machine.card.boot1| == |machine.card.boot2| == bootBlocks * BLOCK
      && EngineOk(machine.engine, machine.card, machine.mem)
      && 0 < eraseGroupSize
    }

    /** The driver knows which partition the card has selected. */
    ghost predicate InSync()
      reads this`currentAccessRegion, this`machine
    {
      currentAccessRegion == machine.card.selected
    }

    ghost predicate Quiescent()
      reads this`machine
    {
      machine.engine.Stopped? || machine.engine.moved == machine.engine.total
    }

    /** What the block device boot or user holds now, with memory. */
    ghost function Now(boot: bool): Store
      reads this`machine
    {
      StoreOf(machine, boot)
    }

    /** Since the request was made something has failed, or the driver's own clock has run out. */
    ghost predicate Broken(q: Request)
      reads this`faults, this`deviceStatus
    {
      faults != q.faults || deviceStatus == IoFailure
    }

    /** A command, or the check of its response. */
    method Command() returns (ok: bool)
      modifies this`faults
      ensures faults == old(faults) + if ok then 0 else 1
    {
      ok := *;
      faults := faults + if ok then 0 else 1;
    }

    // -------------------------------------------------------------- partitions

    /** sdmmc_select_access_region: SWITCH, then two checks that may still fail after the card
        has switched. */
    method SelectAccessRegion(region: Region) returns (err: Error)
      requires Sized()
      modifies this`machine, this`currentAccessRegion, this`faults
      ensures err == NoError <==> faults == old(faults)
      ensures Sized() && machine == old(machine).(card := old(machine).card.(selected := machine.card.selected))
      ensures err == NoError ==> InSync() && currentAccessRegion == region
      ensures err in {NoError, CommandFailed} && (err != NoError ==> currentAccessRegion == old(currentAccessRegion))
      ensures err != NoError && old(InSync()) ==> (InSync() <==> machine.card.selected == old(machine).card.selected)
    {
      var switched := Command();
      if !switched {
        return CommandFailed;
      }
      machine := machine.(card := machine.card.(selected := region));
      var verified := Command();
      if !verified {
        return CommandFailed;
      }
      currentAccessRegion := region;
      err := NoError;
    }

    /** sdmmc_get_correct_boot_block: map a run of logical boot sectors to the longest prefix of
        it on one boot partition, switching the card there. */
    method GetCorrectBootBlock(start: nat, count: nat) returns (err: Error, start': nat, count': nat)
      requires Sized() && InSync() && IsBoot(currentAccessRegion)
      modifies this`machine, this`currentAccessRegion, this`faults
      ensures Sized() && machine == old(machine).(card := old(machine).card.(selected := machine.card.selected))
      ensures err in {NoError, CommandFailed, InvalidRegion} && (err == CommandFailed <==> faults != old(faults))
      ensures err == InvalidRegion <==> bootBlocks == 0 || 2 * bootBlocks <= start
      ensures err != NoError && bootBlocks != 0 ==>
                (InSync() <==> machine.card.selected == old(machine).card.selected)
      ensures bootBlocks == 0 ==> currentAccessRegion == UserPartition && !InSync()
      ensures err == NoError ==>
                && InSync() && IsBoot(currentAccessRegion)
                && LogicalSector(bootBlocks, currentAccessRegion, start') == start
                && start' < bootBlocks && count' == Min(count, bootBlocks - start')
    {
      start', count' := start, count;
      if bootBlocks == 0 {
        currentAccessRegion := UserPartition;
        return InvalidRegion, start, count;
      }
      var region;
      if start' < bootBlocks {
        region := BootPartition1;
        if count' > bootBlocks - start' {
          count' := bootBlocks - start';
        }
      } else if start' < 2 * bootBlocks {
        region := BootPartition2;
        start' := start' - bootBlocks;
        if count' > bootBlocks - start' {
          count' := bootBlocks - start';
        }
      } else {
        return InvalidRegion, start, count;
      }
      err := NoError;
      if region != currentAccessRegion {
        err := SelectAccessRegion(region);
      }
    }

    /** The SWITCH command waits for the data lines. A command that the driver has given up on goes
        on meanwhile, up to the next address boundary at most, where nobody restarts it; an error
        of it may leave anything in its bytes, and may be cleared by a reset, which ends it. */
    method WaitForDataLines() returns (free: bool, ghost n: nat, ghost junk: seq<bv8>)
      requires Sized()
      modifies this`machine
      ensures Sized() && machine.card.selected == old(machine).card.selected
      ensures old(Quiescent()) ==> free && n == 0 && junk == [] && machine == old(machine)
      ensures n <= StillToCome(old(machine))
      ensures StoreOf(machine, true) == StoreOf(LeftBy(old(machine), n, junk), true)
      ensures StoreOf(machine, false) == StoreOf(LeftBy(old(machine), n, junk), false)
      ensures free ==> Quiescent()
    {
      hide Garbled, Moved;
      n, junk := 0, [];
      if machine.engine.Active? && machine.engine.moved < machine.engine.total {
        var bytes: nat := *;
        if 0 < bytes <= StillToCome(machine) {
          n := bytes;
          MovedIsTransfer(machine, bytes, false);
          machine := GoneOn(machine, bytes);
        }
        var fails: bool, reset: bool := *, *;
        if machine.engine.failed || fails {
          var bytes := AnyBytes(machine.engine.total);
          junk := bytes;
          GarbledShape(machine, bytes);
          machine := Garbled(machine, bytes);
          machine := machine.(engine := if reset then Stopped else machine.engine.(failed := true));
        }
      }
      free := machine.engine.Stopped? || machine.engine.moved == machine.engine.total;
    }

    /** sdmmc_select_access_region with a command of an earlier call perhaps still running. */
    method SelectForIo(region: Region) returns (err: Error, ghost rest: nat, ghost junk: seq<bv8>)
      requires Sized()
      modifies this`machine, this`currentAccessRegion, this`faults
      ensures Sized() && err in {NoError, CommandFailed} && (err == NoError <==> faults == old(faults))
      ensures rest <= StillToCome(old(machine)) && (old(Quiescent()) ==> rest == 0 && junk == [])
      ensures StoreOf(machine, true) == StoreOf(LeftBy(old(machine), rest, junk), true)
      ensures StoreOf(machine, false) == StoreOf(LeftBy(old(machine), rest, junk), false)
      ensures err == NoError ==> Quiescent() && InSync() && currentAccessRegion == region
    {
      hide LeftBy, StillToCome, Logical, LogicalByte;
      var free;
      free, rest, junk := WaitForDataLines();
      SelectingMovesNothing(machine.card, region, true);
      SelectingMovesNothing(machine.card, region, false);
      if !free {
        // the card may have switched all the same
        var switched: bool := *;
        if switched {
          machine := machine.(card := machine.card.(selected := region));
        }
        faults := faults + 1;
        return CommandFailed, rest, junk;
      }
      ghost var was := machine;
      err := SelectAccessRegion(region);
      SelectingMovesNothing(was.card, machine.card.selected, true);
      SelectingMovesNothing(was.card, machine.card.selected, false);
    }

    // -------------------------------------------------------------- polling

    /** Any amount of engine progress between two register reads. An error ends the command and may
        leave anything in its bytes. */
    method EngineRuns(ghost q: Request, ghost upto: nat)
      requires Sized() && Carrying(machine, q, upto) && BytesDone(q, upto) && !machine.engine.failed
      modifies this`machine, this`faults
      ensures Sized() && SameCommand(old(machine), machine) && Left(machine) <= old(Left(machine))
      ensures machine.engine.failed <==> faults != old(faults)
      ensures old(faults) <= faults <= old(faults) + 1
      ensures !machine.engine.failed ==> Carrying(machine, q, upto)
    {
      hide Effect, MoveBytes, Aimed, Arrived, Logical, BytesDone, Moved, Garbled;
      var steps: nat := *;
      while steps > 0 && !machine.engine.failed
        invariant Sized() && SameCommand(old(machine), machine) && Left(machine) <= old(Left(machine))
        invariant machine.engine.failed <==> faults != old(faults)
        invariant old(faults) <= faults <= old(faults) + 1
        invariant !machine.engine.failed ==> Carrying(machine, q, upto)
      {
        var n: nat := *;
        var fails: bool, boundary: bool := *, *;
        if !machine.engine.halted && 0 < n <= Room(machine.engine) {
          CarryingStep(machine, q, upto, n, boundary);
          machine := Moved(machine, n, boundary);
        } else if fails {
          var junk := AnyBytes(machine.engine.total);
          var broken := machine.(engine := machine.engine.(failed := true));
          GarbledShape(broken, junk);
          machine := Garbled(broken, junk);
          faults := faults + 1;
        }
        steps := steps - 1;
      }
    }

    /** sdmmc_query_status: one poll. An error the controller has raised, and nothing else, gives one
        of the two error statuses; Idle is reported only when every byte of the command has been
        moved without one; a status other than InProgress is final. */
    method QueryStatus(ghost q: Request, ghost upto: nat) returns (status: Status)
      requires Sized() && (deviceStatus == InProgress ==> Polling(q, upto))
      modifies this`machine, this`deviceStatus, this`timer, this`faults
      ensures status == deviceStatus && Sized()
      ensures old(deviceStatus) != InProgress ==>
                status == old(deviceStatus) && machine == old(machine) && timer == old(timer) && faults == old(faults)
      ensures old(deviceStatus) == InProgress ==>
                (faults != old(faults) <==> status == CrcFailure || status == DataTimeout)
                && (faults != old(faults) ==> machine.engine.Stopped?)
                && (status in {InProgress, Idle, CrcFailure, DataTimeout} || (status == IoFailure && old(timer) == 0))
                && (status == Idle ==> machine.engine.Active? && !machine.engine.complete)
      ensures old(deviceStatus) == InProgress && (status == InProgress || status == Idle) ==>
                Polling(q, upto) && SameCommand(old(machine), machine)
      ensures status == InProgress ==> 0 <= Polls(machine, timer) < old(Polls(machine, timer))
      ensures SameShape(old(machine), machine)
    {
      hide Effect, MoveBytes, Aimed, Arrived, Logical, BytesDone;
      if deviceStatus == InProgress {
        EngineRuns(q, upto);
        var e := machine.engine;
        if e.failed {
          var timeout: bool := *;
          deviceStatus := if timeout then DataTimeout else CrcFailure;
          machine := machine.(engine := Stopped);
        } else if e.dmaInterrupt {
          // acknowledge and write the system address back: the engine goes on from there
          CarryingFlags(machine, q, upto, e.(dmaInterrupt := false, halted := false));
          machine := machine.(engine := e.(dmaInterrupt := false, halted := false));
        } else if e.complete {
          deviceStatus := Idle;
          CarryingFlags(machine, q, upto, e.(complete := false));
          machine := machine.(engine := e.(complete := false));
        } else if timer == 0 {
          deviceStatus := IoFailure;
        } else {
          timer := timer - 1;
        }
      }
      status := deviceStatus;
    }

    /** The buffer of the running command is mapped. */
    ghost predicate BufferMapped()
      reads this`machine, this`dmaMapped
    {
      var e := machine.engine;
      e.Active? ==> Mapping(e.addr, e.total, e.write) in dmaMapped
    }

    /** A command of the request is on its way, into a mapped buffer, or has ended without an error. */
    ghost predicate Polling(q: Request, upto: nat)
      reads this`machine, this`deviceStatus, this`faults, this`dmaMapped
    {
      && Carrying(machine, q, upto) && BytesDone(q, upto) && !machine.engine.failed && faults == q.faults
      && (deviceStatus == InProgress ==> BufferMapped())
      && (deviceStatus == InProgress || (deviceStatus == Idle && machine.engine.moved == machine.engine.total))
    }

    // -------------------------------------------------------------- block I/O

    /** The driver is working on the request and knows the partition. */
    ghost predicate OnCourse(q: Request, done: nat)
      reads this`currentAccessRegion, this`machine, this`issued
    {
      && InSync() && IsBoot(currentAccessRegion) == q.boot
      && q.issued <= issued
      && Covers(issued[|q.issued|..], bootBlocks, q.boot, q.write, q.block, q.buffer, done)
    }

    /** The mappings given back since the request was made are those of its commands, each once and
        in order, but for the last ones still open. */
    ghost predicate Returned(q: Request, open: seq<Mapping>)
      reads this`issued, this`givenBack
    {
      q.issued <= issued && givenBack + open == q.returned + Mappings(issued[|q.issued|..])
    }

    /** done blocks of the request have been moved, no command having met an error, nothing else has
        changed, and nothing is running on its behalf. */
    ghost predicate Stands(q: Request, done: nat)
      reads this`machine, this`currentAccessRegion, this`issued, this`faults
    {
      && Sized() && Quiescent() && OnCourse(q, done) && faults == q.faults
      && BytesDone(q, done * BLOCK) && Now(q.boot) == Effect(q, done * BLOCK)
      && Logical(machine.card, !q.boot) == q.other
    }

    /** Besides, nothing is mapped on its behalf: the mapping of every command has been given back
        once. */
    ghost predicate Settled(q: Request, done: nat)
      reads this`machine, this`currentAccessRegion, this`issued, this`dmaMapped, this`givenBack, this`faults
    {
      Stands(q, done) && dmaMapped == q.mapped && Returned(q, [])
    }

    /** upto blocks have been handed to the engine; the last command, still mapped, is in the
        last_io fields. */
    ghost predicate Flying(q: Request, upto: nat)
      reads this`machine, this`deviceStatus, this`currentAccessRegion, this`issued, this`dmaMapped, this`givenBack
      reads this`lastIoBuf, this`lastIoNumSectors, this`lastIoWrite, this`faults
    {
      && Sized() && Polling(q, upto * BLOCK) && OnCourse(q, upto)
      && lastIoBuf == machine.engine.addr && lastIoNumSectors * BLOCK == machine.engine.total
      && lastIoWrite == q.write
      && dmaMapped == q.mapped + multiset{Mapping(lastIoBuf, lastIoNumSectors * BLOCK, lastIoWrite)}
      && Returned(q, [Mapping(lastIoBuf, lastIoNumSectors * BLOCK, lastIoWrite)])
    }

    /** One pass of sdmmc_block_io up to the command: pick the partition, program the count,
        map the buffer, start the engine. */
    method StartChunk(block: nat, count: nat, buf: nat, write: bool, ghost q: Request, ghost done: nat)
      returns (err: Error, num: nat)
      requires Settled(q, done) && 0 < count <= MAX_SDMA_TRANSFER && write == q.write
      requires BytesDone(q, (done + count) * BLOCK) && block == q.block + done && buf == q.buffer + done * BLOCK
      modifies this`machine, this`currentAccessRegion, this`deviceStatus, this`timer, this`dmaMapped, this`issued
      modifies this`faults
      ensures Sized() && err != Overflow && (err != NoError ==> Broken(q))
      ensures err == NoError ==>
                && 0 < num <= count && Polling(q, (done + num) * BLOCK) && OnCourse(q, done + num)
                && machine.engine.addr == buf && machine.engine.total == num * BLOCK
                && dmaMapped == q.mapped + multiset{Mapping(buf, num * BLOCK, write)}
                && Returned(q, [Mapping(buf, num * BLOCK, write)])
    {
      hide Effect, MoveBytes, Covers, Carrying, EngineOk, Logical, LogicalByte, Partition, Returned;
      var sector;
      err, sector, num := NoError, block, count;
      var lineReady: bool := *;
      if !lineReady {
        var recovered := Command();
        if !recovered {
          return CommandFailed, 0;
        }
      }
      if IsBoot(currentAccessRegion) {
        BootSectorExists(block, count);
        err, sector, num := GetCorrectBootBlock(block, count);
        if err != NoError {
          return;
        }
      }
      dmaMapped := dmaMapped + multiset{Mapping(buf, num * BLOCK, write)};
      SelectingMovesNothing(old(machine).card, machine.card.selected, true);
      SelectingMovesNothing(old(machine).card, machine.card.selected, false);
      var accepted := Command();
      if !accepted {
        return CommandFailed, num;
      }
      StartMapped(sector, num, buf, write, q, done);
    }

    /** The part of sdmmc_block_io that sends the data command for a run already mapped. */
    method StartMapped(sector: nat, num: nat, buf: nat, write: bool, ghost q: Request, ghost done: nat)
      requires Sized() && OnCourse(q, done) && 0 < num <= MAX_SDMA_TRANSFER && write == q.write
      requires BytesDone(q, (done + num) * BLOCK) && buf == q.buffer + done * BLOCK
      requires BytesDone(q, done * BLOCK) && Now(q.boot) == Effect(q, done * BLOCK)
      requires Logical(machine.card, !q.boot) == q.other
      requires LogicalSector(bootBlocks, machine.card.selected, sector) == q.block + done
      requires (q.boot ==> sector + num <= bootBlocks) && Returned(q, []) && faults == q.faults
      requires Mapping(buf, num * BLOCK, write) in dmaMapped
      modifies this`machine, this`deviceStatus, this`timer, this`issued
      ensures Sized() && Polling(q, (done + num) * BLOCK) && OnCourse(q, done + num)
      ensures machine.engine.addr == buf && machine.engine.total == num * BLOCK
      ensures Returned(q, [Mapping(buf, num * BLOCK, write)])
    {
      hide Effect, MoveBytes, Covers, Carrying, Logical, LogicalByte, Partition, Mappings;
      WholeRun(sector, num, q.boot, q.block + done);
      LaunchCarries(machine, q, done, sector, num);
      LogAppend(issued, q, bootBlocks, done, Issue(machine.card.selected, sector, num, buf, write));
      MappingOpens(q, issued, Issue(machine.card.selected, sector, num, buf, write));
      assert givenBack + [] == givenBack;
      Launch(sector, num, buf, write);
    }

    /** A run inside the logical boot device starts on a boot partition. */
    lemma BootSectorExists(start: nat, count: nat)
      requires Sized() && 0 < count && (start + count) * BLOCK <= |Logical(machine.card, true)|
      ensures bootBlocks != 0 && start < 2 * bootBlocks
    {
    }

    /** A run of the logical device that has been mapped lies on the selected partition. */
    lemma WholeRun(sector: nat, num: nat, boot: bool, start: nat)
      requires Sized() && IsBoot(machine.card.selected) == boot
      requires (start + num) * BLOCK <= |Logical(machine.card, boot)|
      requires LogicalSector(bootBlocks, machine.card.selected, sector) == start
      requires boot ==> sector + num <= bootBlocks
      ensures (sector + num) * BLOCK <= |Partition(machine.card, machine.card.selected)|
      ensures LogicalByte(machine.card, machine.card.selected, sector * BLOCK) == start * BLOCK
    {
    }

    /** Write the block count register, which holds 16 bits, and send the data command. */
    method Launch(sector: nat, num: nat, buf: nat, write: bool)
      modifies this`machine, this`deviceStatus, this`timer, this`issued
      ensures machine == Fresh(old(machine), sector, num, buf, write)
      ensures deviceStatus == InProgress
      ensures issued == old(issued) + [Issue(machine.card.selected, sector, num, buf, write)]
    {
      machine := Fresh(machine, sector, num, buf, write);
      deviceStatus := InProgress;
      timer := *;
      issued := issued + [Issue(machine.card.selected, sector, num, buf, write)];
    }

    /** Poll until the command ends, give the mapping back, and insist on success. */
    method WaitChunk(buf: nat, num: nat, write: bool, ghost q: Request, ghost upto: nat) returns (err: Error)
      requires Sized() && Polling(q, upto * BLOCK) && OnCourse(q, upto) && write == q.write
      requires machine.engine.total == num * BLOCK
      requires dmaMapped == q.mapped + multiset{Mapping(buf, num * BLOCK, write)}
      requires Returned(q, [Mapping(buf, num * BLOCK, write)])
      modifies this`machine, this`deviceStatus, this`timer, this`faults, this`dmaMapped, this`givenBack
      ensures Sized() && dmaMapped == q.mapped && old(givenBack) <= givenBack
      ensures err == NoError ==> Settled(q, upto) && deviceStatus == Idle
      ensures err in {NoError, Busy} && (err != NoError ==> Broken(q))
    {
      hide Effect, MoveBytes, Covers, Carrying, Left, Returned;
      var status := QueryStatus(q, upto * BLOCK);
      while status == InProgress
        invariant Sized() && status == deviceStatus
        invariant if status == InProgress || status == Idle then Polling(q, upto * BLOCK) else Broken(q)
        invariant status == InProgress ==> 0 <= Polls(machine, timer)
        invariant OnCourse(q, upto) && dmaMapped == old(dmaMapped) && givenBack == old(givenBack)
        decreases if status == InProgress then Polls(machine, timer) + 1 else 0
      {
        status := QueryStatus(q, upto * BLOCK);
      }
      err := EndChunk(buf, num, write, q, upto);
    }

    /** A command that has ended well has moved its blocks. */
    lemma EndedStands(q: Request, upto: nat)
      requires Sized() && deviceStatus == Idle && Polling(q, upto * BLOCK) && OnCourse(q, upto)
      ensures Stands(q, upto)
    {
      hide Effect, MoveBytes, Covers, Aimed, Logical;
    }

    /** The command has ended: unmap, and look at the status once more. */
    method EndChunk(buf: nat, num: nat, write: bool, ghost q: Request, ghost upto: nat) returns (err: Error)
      requires Sized() && deviceStatus != InProgress
      requires if deviceStatus == Idle then Polling(q, upto * BLOCK) else Broken(q)
      requires OnCourse(q, upto) && dmaMapped == q.mapped + multiset{Mapping(buf, num * BLOCK, write)}
      requires Returned(q, [Mapping(buf, num * BLOCK, write)])
      modifies this`machine, this`deviceStatus, this`timer, this`faults, this`dmaMapped, this`givenBack
      ensures Sized() && dmaMapped == q.mapped && old(givenBack) <= givenBack
      ensures err == NoError ==> Settled(q, upto) && deviceStatus == Idle
      ensures err in {NoError, Busy} && (err != NoError ==> Broken(q))
    {
      hide Polling, OnCourse, Stands, Sized, Mappings;
      if deviceStatus == Idle {
        EndedStands(q, upto);
      }
      UnmapBuffer(buf, num * BLOCK, write);
      assert givenBack + [] == givenBack;
      var status := QueryStatus(q, upto * BLOCK);
      err := if status != Idle then Busy else NoError;
    }

    /** sdmmc_block_io: one command per partition the run touches; only the last is left running
        when the caller does not want to block. */
    method BlockIo(block: nat, count: nat, buffer: nat, write: bool, nonBlocking: bool, ghost q: Request,
                   ghost done: nat) returns (err: Error)
      requires Settled(q, done) && count <= MAX_SDMA_TRANSFER && write == q.write
      requires BytesDone(q, (done + count) * BLOCK) && block == q.block + done && buffer == q.buffer + done * BLOCK
      modifies this`machine, this`currentAccessRegion, this`deviceStatus, this`timer, this`dmaMapped, this`issued
      modifies this`givenBack, this`lastIoBuf, this`lastIoNumSectors, this`lastIoWrite, this`faults
      ensures Sized() && err != Overflow && old(givenBack) <= givenBack && (err != NoError ==> Broken(q))
      ensures count == 0 ==> deviceStatus == old(deviceStatus) && LastMapping() == old(LastMapping())
      ensures err == NoError && (!nonBlocking || count == 0) ==> Settled(q, done + count)
      ensures err == NoError && nonBlocking && 0 < count ==> Flying(q, done + count)
    {
      hide Settled, Polling, OnCourse, Sized, BytesDone;
      SettledSized(q, done);
      var blockLength := Command();
      if !blockLength {
        return CommandFailed;
      }
      err := NoError;
      var start: nat, left: nat, buf: nat := block, count, buffer;
      ghost var upto: nat := done;
      while left > 0
        invariant err == NoError && upto + left == done + count && start == q.block + upto
        invariant buf == q.buffer + upto * BLOCK
        invariant Settled(q, upto) && Sized()
        invariant nonBlocking ==> left > 0 || count == 0
        invariant old(givenBack) <= givenBack
        invariant count == 0 ==> deviceStatus == old(deviceStatus) && LastMapping() == old(LastMapping())
      {
        var num;
        err, num := StartChunk(start, left, buf, write, q, upto);
        if err != NoError {
          return;
        }
        upto := upto + num;
        left := left - num;
        start := start + num;
        if left == 0 && nonBlocking {
          lastIoBuf, lastIoNumSectors, lastIoWrite := buf, num, write;
          return;
        }
        err := WaitChunk(buf, num, write, q, upto);
        if err != NoError {
          return;
        }
        buf := buf + num * BLOCK;
      }
    }

    lemma SettledSized(q: Request, done: nat)
      requires Settled(q, done)
      ensures Sized() && faults == q.faults
    {
    }

    /** Give a mapping back, whether it is outstanding or not. */
    method UnmapBuffer(addr: nat, len: nat, write: bool)
      modifies this`dmaMapped, this`givenBack
      ensures dmaMapped == old(dmaMapped) - multiset{Mapping(addr, len, write)}
      ensures givenBack == old(givenBack) + [Mapping(addr, len, write)]
    {
      dmaMapped := dmaMapped - multiset{Mapping(addr, len, write)};
      givenBack := givenBack + [Mapping(addr, len, write)];
    }

    /** sdmmc_io on the boot or the user device. A blocking call that succeeds has moved exactly
        the requested blocks; a non-blocking one has started the first chunk and left the rest
        to XferWait. Unless its sum wraps past the check, the request is in range. If a command the
        driver has given up on is still running, the request begins where that has moved `rest`
        bytes more, which on success is all it could, unless it has ended in an error that left
        junk in its bytes. */
    method Io(boot: bool, blockCount: nat, buffer: nat, block: nat, count: nat, write: bool, nonBlocking: bool)
      returns (err: Error, ghost q: Request, ghost rest: nat, ghost junk: seq<bv8>)
      requires Sized() && |Logical(machine.card, boot)| == blockCount * BLOCK
      requires 0 < blockCount < WRAP && block < WRAP && count < WRAP && buffer + count * BLOCK <= |machine.mem|
      modifies this
      ensures rest <= StillToCome(old(machine)) && (old(Quiescent()) ==> rest == 0 && junk == [])
      ensures var m, r := LeftBy(old(machine), rest, junk), old(RequestFor(boot, buffer, block, write));
              q == r.(start := StoreOf(m, boot), other := Logical(m.card, !boot))
      ensures err == Overflow ==> !PassesCheck(block, count, blockCount) && Now(boot) == q.start
      ensures err == NoError ==> PassesCheck(block, count, blockCount)
      ensures !WrapsPast(block, count, blockCount) ==> Sized() && (err in {NoError, Overflow} || Broken(q))
      ensures err == NoError && !WrapsPast(block, count, blockCount) ==>
                block < blockCount && block + count <= blockCount && BytesDone(q, count * BLOCK)
                && (!nonBlocking || count == 0 ==> Settled(q, count))
      ensures err == NoError && !WrapsPast(block, count, blockCount) && (!nonBlocking || count == 0) ==>
                InRange(BLOCK, q.start, buffer, block, count)
                && Now(boot) == Transferred(BLOCK, q.start, buffer, block, count, write)
      ensures err == NoError && count == 0 ==>
                deviceStatus == Idle && dmaMapped == old(dmaMapped) && LastMapping() == old(LastMapping())
                && givenBack == old(givenBack)
      ensures err == NoError && !WrapsPast(block, count, blockCount) && nonBlocking && 0 < count ==>
                Flying(q, lastXferBlocks) && lastXferBlocks == Min(count, MAX_SDMA_TRANSFER)
                && lastXferBuf == buffer + lastXferBlocks * BLOCK
    {
      hide LeftBy, StillToCome, Logical, LogicalByte, Partition, EngineOk;
      deviceStatus := Idle;
      q := RequestFor(boot, buffer, block, write);
      err, rest, junk := SelectForIo(if boot then BootPartition1 else UserPartition);
      LeftByShape(old(machine), rest, junk, boot);
      q := q.(start := Now(boot), other := Logical(machine.card, !boot));
      if err != NoError {
        return;
      }
      if !PassesCheck(block, count, blockCount) {
        return Overflow, q, rest, junk;
      }
      if block + count > blockCount {
        err := RunPastTheEnd();
        return;
      }
      NothingMoved(q);
      err := IoChunks(buffer, block, count, write, nonBlocking, q);
    }

    /** A request that has just been made has moved nothing. */
    lemma NothingMoved(q: Request)
      requires q == RequestFor(q.boot, q.buffer, q.block, q.write).(start := q.start, other := q.other)
      requires Sized() && Quiescent() && InSync() && IsBoot(currentAccessRegion) == q.boot && BytesDone(q, 0)
      requires q.start == Now(q.boot) && q.other == Logical(machine.card, !q.boot)
      ensures Settled(q, 0)
    {
      hide Logical;
      SpliceNothing(q.start.mem, q.buffer);
      SpliceNothing(q.start.disk, q.block * BLOCK);
      assert issued[|q.issued|..] == [];
    }

    /** A request whose sum has wrapped goes on past the end of the device. Nothing is said of
        what the card and the driver make of it. */
    method RunPastTheEnd() returns (err: Error)
      modifies this
      ensures err != Overflow
    {
      machine := *;
      currentAccessRegion := *;
      deviceStatus := *;
      lastXferBlocks, lastXferBuf := *, *;
      lastIoBuf, lastIoNumSectors, lastIoWrite := *, *, *;
      dmaMapped := *;
      err := *;
      if err == Overflow {
        err := Busy;
      }
    }

    ghost function RequestFor(boot: bool, buffer: nat, block: nat, write: bool): Request
      reads this
    {
      Request(Now(boot), Logical(machine.card, !boot), buffer, block, write, boot, dmaMapped, issued, givenBack,
              faults)
    }

    /** The loop of sdmmc_io over chunks of at most 65535 blocks; a non-blocking caller gets
        only the first one started. */
    method IoChunks(buffer: nat, block: nat, count: nat, write: bool, nonBlocking: bool, ghost q: Request)
      returns (err: Error)
      requires Settled(q, 0) && BytesDone(q, count * BLOCK)
      requires block == q.block && buffer == q.buffer && write == q.write
      modifies this
      ensures Sized() && err != Overflow && (err != NoError ==> Broken(q))
      ensures count == 0 ==>
                deviceStatus == old(deviceStatus) && LastMapping() == old(LastMapping()) && givenBack == old(givenBack)
      ensures err == NoError && (!nonBlocking || count == 0) ==> Settled(q, count)
      ensures err == NoError && nonBlocking && 0 < count ==>
                Flying(q, lastXferBlocks) && lastXferBlocks == Min(count, MAX_SDMA_TRANSFER)
                && lastXferBuf == buffer + lastXferBlocks * BLOCK
    {
      hide Effect, MoveBytes, Covers, Aimed, Arrived, Logical, Flying, EngineOk;
      err := NoError;
      var i: nat, pbuf: nat := 0, buffer;
      while i < count
        invariant err == NoError && i <= count && Settled(q, i) && pbuf == buffer + i * BLOCK
        invariant nonBlocking ==> i == 0
        invariant count == 0 ==>
                    deviceStatus == old(deviceStatus) && LastMapping() == old(LastMapping())
                    && givenBack == old(givenBack)
      {
        var current: nat := if count - i > MAX_SDMA_TRANSFER then MAX_SDMA_TRANSFER else count - i;
        err := BlockIo(block + i, current, pbuf, write, nonBlocking, q, i);
        if err != NoError {
          return;
        }
        i := i + current;
        pbuf := pbuf + current * BLOCK;
        if nonBlocking {
          lastXferBlocks := i;
          lastXferBuf := pbuf;
          return;
        }
      }
    }

    ghost function LastMapping(): Mapping
      reads this`lastIoBuf, this`lastIoNumSectors, this`lastIoWrite
    {
      Mapping(lastIoBuf, lastIoNumSectors * BLOCK, lastIoWrite)
    }

    /** An engine error has been seen; every later poll reports it again. */
    ghost predicate HasFailed(q: Request)
      reads this`machine, this`deviceStatus, this`faults
    {
      Sized() && deviceStatus != Idle && deviceStatus != InProgress && Broken(q)
    }

    /** Between two calls of sdmmc_xfer_wait. */
    ghost predicate Resumable(q: Request, count: nat)
      reads this
    {
      && (Flying(q, lastXferBlocks) || HasFailed(q))
      && lastXferBlocks <= count && lastXferBuf == q.buffer + lastXferBlocks * BLOCK
    }

    /** After a completed request. The driver still has the number of blocks it had issued when
        sdmmc_xfer_wait was last entered or timed out, and the buffer that goes with it. */
    ghost predicate Over(q: Request, count: nat)
      reads this
    {
      && Stands(q, count) && deviceStatus == Idle
      && (lastXferBlocks < count ==> lastXferBuf == q.buffer + lastXferBlocks * BLOCK)
    }

    /** The blocks from last_xfer_blocks on, as a request of their own made now, after the last
        mapping has been given back. */
    ghost function RestOf(q: Request): Request
      reads this
    {
      Request(Now(q.boot), Logical(machine.card, !q.boot), lastXferBuf, q.block + lastXferBlocks, q.write, q.boot,
              dmaMapped - multiset{LastMapping()}, issued, givenBack + [LastMapping()], faults)
    }

    /** Nothing but the mapping given back once more has happened since. */
    ghost predicate AsItWas(m: Machine, mapped: multiset<Mapping>, back: seq<Mapping>, log: seq<Issue>, last: Mapping)
      reads this`machine, this`dmaMapped, this`givenBack, this`issued, this`lastIoBuf, this`lastIoNumSectors
      reads this`lastIoWrite
    {
      machine == m && dmaMapped == mapped && givenBack == back && issued == log && LastMapping() == last
    }

    /** All count blocks have been moved, and nothing is running. */
    ghost predicate Standing(q: Request, count: nat)
      reads this`machine, this`currentAccessRegion
    {
      && Sized() && Quiescent() && InSync() && IsBoot(currentAccessRegion) == q.boot
      && BytesDone(q, count * BLOCK) && Now(q.boot) == Effect(q, count * BLOCK)
    }

    lemma OverFacts(q: Request, count: nat)
      requires Over(q, count)
      ensures Standing(q, count) && deviceStatus == Idle
      ensures Stands(q, count) && (lastXferBlocks < count ==> lastXferBuf == q.buffer + lastXferBlocks * BLOCK)
    {
    }

    lemma RestIs(q: Request)
      ensures IsRest(RestOf(q), q, machine, lastXferBuf, lastXferBlocks, dmaMapped - multiset{LastMapping()}, issued,
                     givenBack + [LastMapping()], faults)
    {
    }

    lemma SettledStands(q: Request, done: nat)
      requires Settled(q, done)
      ensures Stands(q, done)
    {
    }

    lemma EndsOver(q: Request, count: nat)
      ensures Stands(q, count) && deviceStatus == Idle
              && (lastXferBlocks < count ==> lastXferBuf == q.buffer + lastXferBlocks * BLOCK)
              ==> Over(q, count)
    {
    }

    /** A request that begins now has moved nothing. */
    lemma StartsAgain(q: Request, r: Request, block: nat, count: nat, write: bool)
      requires Standing(q, count) && deviceStatus == Idle && lastXferBlocks < count
      requires IsRest(r, q, machine, lastXferBuf, lastXferBlocks, dmaMapped, issued, givenBack, faults)
      requires lastXferBuf == q.buffer + lastXferBlocks * BLOCK && q.block == block && q.write == write
      ensures Begins(r, lastXferBlocks, block, count, write, lastXferBlocks, lastXferBuf)
    {
      SpliceNothing(r.start.mem, r.buffer);
      SpliceNothing(r.start.disk, r.block * BLOCK);
      assert issued[|r.issued|..] == [];
      assert Settled(r, 0);
    }

    /** sdmmc_xfer_wait: poll until the running command ends or the caller's time is up, then
        start the next chunk. However often it is called, XferComplete means that every block
        of the request was moved by exactly one command and every mapping was given back once.

        The driver keeps no note of having completed. A further call (over) gives the last mapping
        back a second time, and issues again, as the request `again`, the blocks from
        last_xfer_blocks on, if there are any. */
    method XferWait(block: nat, count: nat, write: bool, ghost q: Request, ghost over: bool)
      returns (err: Error, status: XferStatus, ghost again: Request)
      requires BytesDone(q, count * BLOCK) && block == q.block && write == q.write
      requires if over then Over(q, count) else Resumable(q, count)
      modifies this
      ensures !over && err == NoError && status == XferInProgress ==> Resumable(q, count)
      ensures err != NoError ==> Broken(if over then again else q) && (over ==> old(lastXferBlocks) < count)
      ensures !over && err == NoError && status == XferComplete ==> Over(q, count) && Settled(q, count)
      ensures err == NoError && status == XferComplete ==>
                givenBack != [] && givenBack[|givenBack| - 1] == LastMapping()
      ensures over && err == NoError && status == XferInProgress && old(lastXferBlocks) >= count ==>
                Over(q, count)
                && AsItWas(old(machine), old(dmaMapped), old(givenBack), old(issued), old(LastMapping()))
      ensures over && err == NoError && status == XferComplete ==>
                old(givenBack) + [old(LastMapping())] <= givenBack
      ensures over && err == NoError && status == XferComplete && old(lastXferBlocks) >= count ==>
                Over(q, count) && machine == old(machine) && issued == old(issued)
                && dmaMapped == old(dmaMapped) - multiset{old(LastMapping())}
                && givenBack == old(givenBack) + [old(LastMapping())]
      ensures over && err == NoError && status == XferComplete && old(lastXferBlocks) < count ==>
                again == old(RestOf(q)) && Settled(again, count - old(lastXferBlocks))
    {
      hide Flying, Settled, Stands, BytesDone, RestOf, Over, Resumable, LastMapping, Begins;
      again := RestOf(q);
      var i, pbuf := lastXferBlocks, lastXferBuf;
      var ticks: nat := *;
      var stop;
      stop, ticks := FirstWait(ticks, q, again, block, count, write, over);
      if stop != Ended {
        return if stop == Failed then Busy else NoError, XferInProgress, again;
      }
      err, status := NoError, XferComplete;
      if i < count {
        ghost var cur, base: nat := if over then again else q, if over then i else 0;
        err, status := RemainingChunks(block, count, write, i, pbuf, ticks, cur, base);
      }
    }

    /** The transfer stands at block i, which the request cur counts from block base on. */
    ghost predicate Begins(cur: Request, base: nat, block: nat, count: nat, write: bool, i: nat, pbuf: nat)
      reads this
    {
      && base <= i <= count && Settled(cur, i - base) && deviceStatus == Idle
      && pbuf == cur.buffer + (i - base) * BLOCK && cur.block == block + base && cur.write == write
      && BytesDone(cur, (count - base) * BLOCK)
    }

    /** The first wait of a call, with which the loop of sdmmc_xfer_wait begins. */
    method FirstWait(time: nat, ghost q: Request, ghost again: Request, ghost block: nat, ghost count: nat,
                     ghost write: bool, ghost over: bool)
      returns (stop: Stop, rest: nat)
      requires BytesDone(q, count * BLOCK) && block == q.block && write == q.write && again == RestOf(q)
      requires if over then Over(q, count) else Resumable(q, count)
      modifies this`machine, this`deviceStatus, this`timer, this`faults, this`dmaMapped, this`givenBack
      ensures stop == Expired ==> if over then Over(q, count) else Resumable(q, count)
      ensures stop == Failed ==> Broken(q)
      ensures over ==> machine == old(machine) && stop != Failed && faults == old(faults)
      ensures stop == Ended ==>
                dmaMapped == old(dmaMapped) - multiset{LastMapping()} && givenBack == old(givenBack) + [LastMapping()]
      ensures stop != Ended ==> dmaMapped == old(dmaMapped) && givenBack == old(givenBack)
      ensures stop == Ended && over ==> Over(q, count)
      ensures stop == Ended && !over ==>
                lastXferBlocks <= count && (lastXferBlocks == count ==> Over(q, count) && Settled(q, count))
      ensures stop == Ended && lastXferBlocks < count ==>
                if over then Begins(again, lastXferBlocks, block, count, write, lastXferBlocks, lastXferBuf)
                else Begins(q, 0, block, count, write, lastXferBlocks, lastXferBuf)
    {
      hide *;
      if over {
        OverFacts(q, count);
        RestIs(q);
      } else {
        ResumableFacts(q, count);
      }
      stop, rest := WaitForEnd(time, q, if over then count else lastXferBlocks, over);
      FirstWaitIsOver(stop, q, again, block, count, write, over);
    }

    /** What the end of the first wait says of the request, in either case. */
    lemma FirstWaitIsOver(stop: Stop, q: Request, again: Request, block: nat, count: nat, write: bool, over: bool)
      requires BytesDone(q, count * BLOCK) && block == q.block && write == q.write
      requires lastXferBlocks < count || !over ==> lastXferBuf == q.buffer + lastXferBlocks * BLOCK
      requires over ==> Stands(q, count) && Standing(q, count) && deviceStatus == Idle && stop != Failed
      requires over && stop == Ended ==>
                 IsRest(again, q, machine, lastXferBuf, lastXferBlocks, dmaMapped, issued, givenBack, faults)
      requires !over ==> lastXferBlocks <= count
      requires !over && stop == Ended ==> Settled(q, lastXferBlocks) && deviceStatus == Idle
      requires !over && stop == Expired ==> Flying(q, lastXferBlocks) || HasFailed(q)
      ensures stop == Expired ==> if over then Over(q, count) else Resumable(q, count)
      ensures stop == Ended && over ==> Over(q, count)
      ensures stop == Ended && !over && lastXferBlocks == count ==> Over(q, count) && Settled(q, count)
      ensures stop == Ended && lastXferBlocks < count ==>
                if over then Begins(again, lastXferBlocks, block, count, write, lastXferBlocks, lastXferBuf)
                else Begins(q, 0, block, count, write, lastXferBlocks, lastXferBuf)
    {
      hide Flying, Settled, Stands, Sized, HasFailed, Quiescent, BytesDone, InSync, Effect, Logical;
      hide Begins, Over, Resumable, Standing, IsRest;
      if over {
        EndsOver(q, count);
        if stop == Ended && lastXferBlocks < count {
          StartsAgain(q, again, block, count, write);
        }
      } else if stop == Expired {
        Resumes(q, count);
      } else if stop == Ended {
        SettledStands(q, lastXferBlocks);
        EndsOver(q, count);
        ItBegins(q, 0, block, count, write);
      }
    }

    lemma ResumableFacts(q: Request, count: nat)
      requires Resumable(q, count)
      ensures Flying(q, lastXferBlocks) || HasFailed(q)
      ensures lastXferBlocks <= count && lastXferBuf == q.buffer + lastXferBlocks * BLOCK
    {
    }

    lemma Resumes(q: Request, count: nat)
      requires Flying(q, lastXferBlocks) || HasFailed(q)
      requires lastXferBlocks <= count && lastXferBuf == q.buffer + lastXferBlocks * BLOCK
      ensures Resumable(q, count)
    {
    }

    lemma ItBegins(cur: Request, base: nat, block: nat, count: nat, write: bool)
      requires base <= lastXferBlocks <= count && Settled(cur, lastXferBlocks - base) && deviceStatus == Idle
      requires lastXferBuf == cur.buffer + (lastXferBlocks - base) * BLOCK && cur.block == block + base
      requires cur.write == write && BytesDone(cur, (count - base) * BLOCK)
      ensures Begins(cur, base, block, count, write, lastXferBlocks, lastXferBuf)
    {
    }

    /** The rest of the loop of sdmmc_xfer_wait, entered where a command has just ended: start the
        next chunk, wait for it, and so on. The request cur begins at block base of the transfer. */
    method RemainingChunks(block: nat, count: nat, write: bool, first: nat, buf: nat, time: nat,
                           ghost cur: Request, ghost base: nat) returns (err: Error, status: XferStatus)
      requires Begins(cur, base, block, count, write, first, buf)
      requires givenBack != [] && givenBack[|givenBack| - 1] == LastMapping()
      modifies this
      ensures old(givenBack) <= givenBack
      ensures err == NoError && status == XferComplete ==>
                Settled(cur, count - base) && givenBack != [] && givenBack[|givenBack| - 1] == LastMapping()
                && (base == 0 && first == old(lastXferBlocks) && buf == old(lastXferBuf) ==> Over(cur, count))
      ensures err == NoError && status == XferInProgress && base == 0 ==> Resumable(cur, count)
      ensures err != NoError ==> Broken(cur)
    {
      hide Effect, Flying, Settled, Sized, HasFailed, Quiescent, BytesDone;
      status := XferInProgress;
      err := NoError;
      var i: nat, pbuf: nat, ticks: nat := first, buf, time;
      while i < count
        invariant err == NoError && base <= i <= count && Settled(cur, i - base) && deviceStatus == Idle
        invariant pbuf == cur.buffer + (i - base) * BLOCK
        invariant lastXferBlocks == old(lastXferBlocks) && lastXferBuf == old(lastXferBuf)
        invariant old(givenBack) <= givenBack
        invariant givenBack != [] && givenBack[|givenBack| - 1] == LastMapping()
      {
        var stop;
        err, i, pbuf, ticks, stop := NextChunk(block, count, write, i, pbuf, ticks, cur, base);
        if err != NoError || stop == Failed {
          return if err != NoError then err else Busy, XferInProgress;
        }
        if stop == Expired {
          lastXferBlocks := i;
          lastXferBuf := pbuf;
          return;
        }
      }
      status := XferComplete;
      SettledStands(cur, count - base);
    }

    /** One turn: issue the next chunk and wait for its end. */
    method NextChunk(block: nat, count: nat, write: bool, first: nat, buf: nat, time: nat,
                     ghost cur: Request, ghost base: nat)
      returns (err: Error, i: nat, pbuf: nat, ticks: nat, stop: Stop)
      requires base <= first < count && Settled(cur, first - base)
      requires buf == cur.buffer + (first - base) * BLOCK && cur.block == block + base && cur.write == write
      requires BytesDone(cur, (count - base) * BLOCK)
      modifies this`machine, this`currentAccessRegion, this`deviceStatus, this`timer, this`dmaMapped, this`issued
      modifies this`givenBack, this`lastIoBuf, this`lastIoNumSectors, this`lastIoWrite, this`faults
      ensures first < i <= count && pbuf == cur.buffer + (i - base) * BLOCK && old(givenBack) <= givenBack
      ensures err == NoError && stop == Ended ==>
                Settled(cur, i - base) && deviceStatus == Idle
                && givenBack != [] && givenBack[|givenBack| - 1] == LastMapping()
      ensures err == NoError && stop == Expired ==> Flying(cur, i - base) || HasFailed(cur)
      ensures err != NoError || stop == Failed ==> Broken(cur)
    {
      hide Effect, Flying, Settled, Sized, HasFailed, Quiescent;
      var current: nat := if count - first > MAX_SDMA_TRANSFER then MAX_SDMA_TRANSFER else count - first;
      i := first + current;
      pbuf := buf + current * BLOCK;
      ticks, stop := time, Failed;
      err := BlockIo(block + first, current, buf, write, true, cur, first - base);
      if err == NoError {
        stop, ticks := WaitForEnd(time, cur, i - base, false);
      }
    }

    lemma StandsSized(q: Request, done: nat)
      requires Stands(q, done)
      ensures Sized()
    {
    }

    /** The part of sdmmc_xfer_wait between two commands: poll, and give the mapping back. */
    method WaitForEnd(time: nat, ghost q: Request, ghost upto: nat, ghost over: bool) returns (stop: Stop, rest: nat)
      requires if over then Stands(q, upto) && deviceStatus == Idle else Flying(q, upto) || HasFailed(q)
      modifies this`machine, this`deviceStatus, this`timer, this`faults, this`dmaMapped, this`givenBack
      ensures !over && stop == Ended ==> Settled(q, upto) && deviceStatus == Idle
      ensures !over && stop == Expired ==> Flying(q, upto) || HasFailed(q)
      ensures stop == Expired ==> rest == 0 && time <= old(PollsLeft())
      ensures stop == Failed ==> Broken(q)
      ensures over ==> machine == old(machine) && deviceStatus == Idle && stop != Failed && faults == old(faults)
      ensures over && stop != Failed ==> Stands(q, upto)
      ensures stop == Ended ==>
                dmaMapped == old(dmaMapped) - multiset{LastMapping()} && givenBack == old(givenBack) + [LastMapping()]
      ensures stop != Ended ==> dmaMapped == old(dmaMapped) && givenBack == old(givenBack)
    {
      hide Flying, Stands, Settled, Returned, Sized, LastMapping, PollsLeft;
      if over {
        StandsSized(q, upto);
      }
      var devStatus, expired;
      devStatus, expired, rest := PollUntil(time, q, upto);
      if expired {
        return Expired, rest;
      }
      if devStatus != Idle {
        return Failed, rest;
      }
      FinishTransfer(q, upto, over);
      stop := Ended;
    }

    /** The block device layer's use of the pair: start without blocking, then wait again and
        again for as long as it likes. Whatever the schedule of timeouts, a completed request
        has moved exactly its blocks, each by one command, and every mapping has been given back. With no
        blocks at all the wait still gives a mapping back: the one of an earlier request. */
    method IoThenWait(boot: bool, blockCount: nat, buffer: nat, block: nat, count: nat, write: bool, calls: nat)
      returns (err: Error, complete: bool, ghost q: Request, ghost rest: nat, ghost junk: seq<bv8>)
      requires Sized() && |Logical(machine.card, boot)| == blockCount * BLOCK
      requires 0 < blockCount < WRAP && block < WRAP && count < WRAP && buffer + count * BLOCK <= |machine.mem|
      modifies this
      ensures rest <= StillToCome(old(machine)) && (old(Quiescent()) ==> rest == 0 && junk == [])
      ensures var m, r := LeftBy(old(machine), rest, junk), old(RequestFor(boot, buffer, block, write));
              q == r.(start := StoreOf(m, boot), other := Logical(m.card, !boot))
      ensures !WrapsPast(block, count, blockCount) ==> err in {NoError, Overflow} || Broken(q)
      ensures !complete && err == NoError && !WrapsPast(block, count, blockCount) && 0 < count ==> Resumable(q, count)
      ensures complete && !WrapsPast(block, count, blockCount) ==>
                err == NoError && BytesDone(q, count * BLOCK)
                && InRange(BLOCK, q.start, buffer, block, count)
                && Now(boot) == Transferred(BLOCK, q.start, buffer, block, count, write)
      ensures complete && !WrapsPast(block, count, blockCount) && 0 < count ==> Over(q, count) && Settled(q, count)
      ensures complete && !WrapsPast(block, count, blockCount) && count == 0 ==>
                dmaMapped == old(dmaMapped) - multiset{old(LastMapping())}
                && givenBack == old(givenBack) + [old(LastMapping())]
    {
      hide Flying, Covers, Sized, Transferred, MoveBytes, LeftBy, StillToCome, Quiescent;
      complete := false;
      err, q, rest, junk := Io(boot, blockCount, buffer, block, count, write, true);
      if err != NoError {
        return;
      }
      if WrapsPast(block, count, blockCount) {
        complete := *;
        return;
      }
      EffectIsTransferred(q, count);
      var left := calls;
      while left > 0
        invariant err == NoError && BytesDone(q, count * BLOCK)
        invariant 0 < count ==> Resumable(q, count)
        invariant !complete
        invariant count == 0 ==>
                    Over(q, count) && LastMapping() == old(LastMapping()) && dmaMapped == old(dmaMapped)
                    && givenBack == old(givenBack)
      {
        var status;
        ghost var again;
        err, status, again := XferWait(block, count, write, q, count == 0);
        if err != NoError {
          return;
        }
        if status == XferComplete {
          complete := true;
          return;
        }
        left := left - 1;
      }
    }

    /** The last command ended well: give its buffer back. */
    method FinishTransfer(ghost q: Request, ghost upto: nat, ghost over: bool)
      requires !over ==> Flying(q, upto) && deviceStatus == Idle
      modifies this`dmaMapped, this`givenBack
      ensures !over ==> Settled(q, upto)
      ensures dmaMapped == old(dmaMapped) - multiset{LastMapping()} && givenBack == old(givenBack) + [LastMapping()]
    {
      hide Polling, OnCourse, Stands, Sized, Mappings;
      if !over {
        EndedStands(q, upto);
      }
      UnmapBuffer(lastIoBuf, lastIoNumSectors * BLOCK, lastIoWrite);
    }

    /** How many polls can still find the command in progress. */
    ghost function PollsLeft(): nat
      reads this`machine, this`deviceStatus, this`timer
    {
      if deviceStatus == InProgress && 0 <= Polls(machine, timer) then Polls(machine, timer) else 0
    }

    /** One poll of the loop: the command is still on its way, or has ended, or has failed. */
    method Poll(ghost q: Request, ghost upto: nat) returns (status: Status)
      requires Flying(q, upto) || HasFailed(q) || (Sized() && deviceStatus == Idle)
      modifies this`machine, this`deviceStatus, this`timer, this`faults
      ensures Sized() && status == deviceStatus
      ensures old(Flying(q, upto) || HasFailed(q)) ==> Flying(q, upto) || HasFailed(q)
      ensures old(deviceStatus) == Idle ==> machine == old(machine) && deviceStatus == Idle && faults == old(faults)
      ensures status == InProgress ==> PollsLeft() < old(PollsLeft())
      ensures status != InProgress && status != Idle ==> Broken(q)
    {
      hide Effect, MoveBytes, Aimed, Arrived, EngineOk, Returned, Covers;
      status := QueryStatus(q, upto * BLOCK);
    }

    /** The inner polling loop: the clock is read after every poll and wins over the status. */
    method PollUntil(time: nat, ghost q: Request, ghost upto: nat) returns (status: Status, expired: bool, rest: nat)
      requires Flying(q, upto) || HasFailed(q) || (Sized() && deviceStatus == Idle)
      modifies this`machine, this`deviceStatus, this`timer, this`faults
      ensures old(Flying(q, upto) || HasFailed(q)) ==> Flying(q, upto) || HasFailed(q)
      ensures old(deviceStatus) == Idle ==> machine == old(machine) && deviceStatus == Idle && faults == old(faults)
      ensures old(Stands(q, upto)) && old(deviceStatus) == Idle ==> Stands(q, upto)
      ensures expired ==> rest == 0 && time <= old(PollsLeft())
      ensures !expired ==> status == deviceStatus && status != InProgress
      ensures !expired && status != Idle ==> Broken(q)
    {
      hide Flying, HasFailed, Stands, Sized, Broken, PollsLeft;
      rest := time;
      while true
        invariant Flying(q, upto) || HasFailed(q) || (Sized() && deviceStatus == Idle)
        invariant old(Flying(q, upto) || HasFailed(q)) ==> Flying(q, upto) || HasFailed(q)
        invariant old(deviceStatus) == Idle ==> machine == old(machine) && deviceStatus == Idle && faults == old(faults)
        invariant rest <= time && PollsLeft() + time <= rest + old(PollsLeft())
        decreases rest
      {
        status := Poll(q, upto);
        if rest == 0 {
          return status, true, rest;
        }
        rest := rest - 1;
        if status != InProgress {
          return status, false, rest;
        }
      }
    }

    // -------------------------------------------------------------- erase

    /** Blocks [block, block + done) of the device are erased; the rest of it, the other device
        and memory are as they were. */
    ghost predicate ErasedUpTo(before: Machine, boot: bool, block: nat, done: nat)
      reads this`machine
    {
      && Logical(machine.card, boot) == Filled(Logical(before.card, boot), block * BLOCK, (block + done) * BLOCK,
                                               ERASED)
      && Logical(machine.card, !boot) == Logical(before.card, !boot)
      && machine.mem == before.mem
    }

    /** One pass of sdmmc_erase_block: map, choose a piece, send start, end and erase. ran is the
        number of blocks actually erased, which an error after the command does not take back. */
    method ErasePiece(start: nat, left: nat, ghost boot: bool)
      returns (err: Error, num: nat, ghost ran: nat, ghost c: EraseCommand)
      requires Sized() && InSync() && IsBoot(currentAccessRegion) == boot && 0 < left
      requires (start + left) * BLOCK <= |Logical(machine.card, boot)|
      modifies this`machine, this`currentAccessRegion, this`faults, this`programming
      ensures (err == NoError <==> faults == old(faults)) && (err == NoError ==> programming == 0)
      ensures Sized() && SameSizes(old(machine), machine) && ran <= left && ErasedUpTo(old(machine), boot, start, ran)
      ensures err == NoError ==>
                && InSync() && IsBoot(currentAccessRegion) == boot && 0 < num == ran && num <= 0xFA000
                && c.last == c.first + num - 1 && IsBoot(c.region) == boot
                && LogicalSector(bootBlocks, c.region, c.first) == start
                && LegalErase(c.first, c.last, c.arg, eraseGroupSize)
                && Longest(c.first, num, RunLength(bootBlocks, boot, c.first, left), eraseGroupSize)
    {
      hide Filled, TrimSectors, LegalErase, Longest, Logical, LogicalByte, Partition, EngineOk;
      ran := 0;
      c := EraseCommand(currentAccessRegion, 0, 0, 0);
      FilledNothing(Logical(machine.card, boot), start * BLOCK);
      var sector, arg;
      err, sector, num := NoError, start, if left >= MAX_ERASABLE_SECTORS then MAX_ERASABLE_SECTORS else left;
      if IsBoot(currentAccessRegion) {
        BootSectorExists(start, left);
        err, sector, num := GetCorrectBootBlock(sector, num);
        SelectingMovesNothing(old(machine).card, machine.card.selected, true);
        SelectingMovesNothing(old(machine).card, machine.card.selected, false);
        if err != NoError {
          return;
        }
      }
      TrimSectorsFit(sector, num, eraseGroupSize);
      TrimSectorsLongest(sector, num, eraseGroupSize);
      ghost var run := num;
      num, arg := GetTrimSectors(sector, num);
      c := EraseCommand(machine.card.selected, sector, sector + num - 1, arg);
      WholeRun(sector, num, boot, start);
      err, ran := SendErase(sector, num, arg, run);
    }

    /** Erase group start, erase group end, erase; an error may come before or after the card
        has done it. */
    method SendErase(sector: nat, num: nat, arg: nat, ghost run: nat) returns (err: Error, ghost ran: nat)
      requires Sized() && 0 < run && (num, arg) == TrimSectors(sector, run, eraseGroupSize)
      requires 0 < num && (sector + num) * BLOCK <= |Partition(machine.card, machine.card.selected)|
      modifies this`machine, this`faults, this`programming
      ensures Sized() && SameSizes(old(machine), machine) && machine.card.selected == old(machine).card.selected
      ensures (err == NoError <==> faults == old(faults)) && (err == NoError ==> programming == 0)
      ensures (ran == 0 || ran == num) && (err == NoError ==> ran == num) && err in {NoError, CommandFailed}
      ensures var r := machine.card.selected;
              var at := LogicalByte(old(machine).card, r, sector * BLOCK);
              && Logical(machine.card, IsBoot(r))
                 == Filled(Logical(old(machine).card, IsBoot(r)), at, at + ran * BLOCK, ERASED)
              && Logical(machine.card, !IsBoot(r)) == Logical(old(machine).card, !IsBoot(r))
              && machine.mem == old(machine).mem
    {
      hide Filled, TrimSectors, EraseSectors, LegalErase;
      ran := 0;
      FilledNothing(Logical(machine.card, IsBoot(machine.card.selected)),
                    LogicalByte(machine.card, machine.card.selected, sector * BLOCK));
      var reached := Command();
      if !reached {
        return CommandFailed, ran;
      }
      EraseIsExact(machine.card, eraseGroupSize, sector, run);
      PartitionFill(machine.card, machine.card.selected, sector * BLOCK, (sector + num) * BLOCK);
      machine := machine.(card := EmmcCard.EraseSectors(machine.card, eraseGroupSize, sector, sector + num - 1, arg));
      ran := num;
      programming := *;
      var verified := Command();
      if !verified {
        return CommandFailed, ran;
      }
      err := WaitProgrammed();
    }

    /** Ask for the card's status until it has left the programming state. The source loops for
        as long as the card takes; a card that never leaves it would hold the driver here. */
    method WaitProgrammed() returns (err: Error)
      modifies this`faults, this`programming
      ensures err in {NoError, CommandFailed} && (err == NoError <==> faults == old(faults))
      ensures err == NoError ==> programming == 0
    {
      while true
        invariant faults == old(faults)
        decreases programming
      {
        var sent := Command();
        if !sent {
          return CommandFailed;
        }
        if programming == 0 {
          return NoError;
        }
        programming := programming - 1;
      }
    }

    /** sdmmc_get_trim_sectors, branch by branch. */
    method GetTrimSectors(start: nat, count: nat) returns (num: nat, arg: nat)
      requires 0 < eraseGroupSize
      ensures (num, arg) == TrimSectors(start, count, eraseGroupSize)
    {
      var unalignStart := start % eraseGroupSize;
      var unalignCount := count % eraseGroupSize;
      num, arg := count, 0;
      if unalignStart != 0 {
        var rest := eraseGroupSize - unalignStart;
        if num > rest {
          num := rest;
        }
        arg := 1;
      }
      if unalignCount != 0 && unalignStart == 0 {
        if num < eraseGroupSize {
          arg := 1;
        } else {
          num := (num / eraseGroupSize) * eraseGroupSize;
        }
      }
    }

    /** sdmmc_erase_block: a success has erased exactly the requested blocks, by commands that
        partition the request; any outcome has erased exactly a prefix of it. */
    method EraseBlock(block: nat, count: nat, ghost boot: bool)
      returns (err: Error, ghost done: nat, ghost log: seq<EraseCommand>)
      requires Sized() && InSync() && IsBoot(currentAccessRegion) == boot
      requires (block + count) * BLOCK <= |Logical(machine.card, boot)|
      modifies this`machine, this`currentAccessRegion, this`faults, this`programming
      ensures Sized() && done <= count && (err == NoError ==> done == count && InSync())
      ensures (err == NoError <==> faults == old(faults)) && (err == NoError && 0 < count ==> programming == 0)
      ensures ErasedUpTo(old(machine), boot, block, done)
      ensures err == NoError ==> ErasePieces(log, bootBlocks, boot, eraseGroupSize, block, count, count)
    {
      hide Filled, ErasePieces, LogicalSector, LegalErase, Longest, RunLength;
      done, log := 0, [];
      ghost var before := machine;
      FilledNothing(Logical(before.card, boot), block * BLOCK);
      NoPieces(bootBlocks, boot, eraseGroupSize, block, count);
      var highCapacity := Command();
      if !highCapacity {
        return CommandFailed, done, log;
      }
      err := NoError;
      var left: nat, start: nat := count, block;
      while left > 0
        invariant err == NoError && done + left == count && start == block + done && faults == old(faults)
        invariant Sized() && InSync() && IsBoot(currentAccessRegion) == boot && SameSizes(before, machine)
        invariant ErasedUpTo(before, boot, block, done)
        invariant ErasePieces(log, bootBlocks, boot, eraseGroupSize, block, done, count)
        invariant 0 < done ==> programming == 0
      {
        ghost var ran, c;
        var num;
        err, num, ran, c := ErasePiece(start, left, boot);
        FilledAdjacent(Logical(before.card, boot), block * BLOCK, start * BLOCK, (start + ran) * BLOCK, ERASED);
        done := done + ran;
        if err != NoError {
          return;
        }
        ErasePiecesAppend(log, bootBlocks, boot, eraseGroupSize, block, done - num, c, count);
        log := log + [c];
        left := left - num;
        start := start + num;
      }
    }

    /** sdmmc_erase. Unless its sum wraps past the check, a request that succeeds is in range. */
    method Erase(boot: bool, blockCount: nat, block: nat, count: nat)
      returns (err: Error, ghost done: nat, ghost log: seq<EraseCommand>)
      requires Sized() && |Logical(machine.card, boot)| == blockCount * BLOCK
      requires 0 < blockCount < WRAP && block < WRAP && count < WRAP
      modifies this
      ensures err == NoError ==> PassesCheck(block, count, blockCount)
      ensures !PassesCheck(block, count, blockCount) ==> err != NoError && ErasedUpTo(old(machine), boot, block, 0)
      ensures PassesCheck(block, count, blockCount) && !WrapsPast(block, count, blockCount) ==>
                (err == NoError <==> faults == old(faults))
      ensures !WrapsPast(block, count, blockCount) ==>
                Sized() && done <= count && ErasedUpTo(old(machine), boot, block, done)
      ensures err == NoError && !WrapsPast(block, count, blockCount) ==>
                block < blockCount && block + count <= blockCount && done == count && InSync()
                && (0 < count ==> programming == 0)
                && ErasePieces(log, bootBlocks, boot, eraseGroupSize, block, count, count)
    {
      hide Filled, ErasePieces;
      done, log := 0, [];
      FilledNothing(Logical(machine.card, boot), block * BLOCK);
      err := SelectAccessRegion(if boot then BootPartition1 else UserPartition);
      if err != NoError {
        return;
      }
      if !PassesCheck(block, count, blockCount) {
        return InvalidRegion, done, log;
      }
      if block + count > blockCount {
        err := RunPastTheEnd();
        return;
      }
      err, done, log := EraseBlock(block, count, boot);
    }
  }

  lemma NoPieces(bootBlocks: nat, boot: bool, group: nat, block: nat, whole: nat)
    requires 0 < group
    ensures ErasePieces([], bootBlocks, boot, group, block, 0, whole)
  {
  }

  predicate SameSizes(m: Machine, r: Machine) {
    && |r.card.boot1| == |m.card.boot1| && |r.card.boot2| == |m.card.boot2|
    && |r.card.user| == |m.card.user| && |r.mem| == |m.mem|
  }

  lemma FilledNothing(s: seq<bv8>, at: int)
    ensures Filled(s, at, at, ERASED) == s
  {
  }

  /** Work the engine still has: bytes to move, then an interrupt to acknowledge. */
  function Left(m: Machine): int {
    if m.engine.Active? then 2 * (m.engine.total - m.engine.moved) + (if m.engine.dmaInterrupt then 1 else 0) else 0
  }

  /** Bound on the polls that can still report progress. */
  function Polls(m: Machine, timer: nat): int {
    Left(m) + timer
  }
}
