// Block I/O over the queue pair: drivers/nvme/tegrabl_nvme.c from prepare_prp2 up to
// rw_blocks, and the range check and outer chunking of drivers/nvme/tegrabl_nvme_bdev.c.
module NvmeBlocks {
  import opened Arith
  import opened Buffers
  import opened BlockStore
  import opened Options
  import opened NvmeSpec
  import opened NvmePrp
  import opened NvmeSmmu
  import opened NvmeRing
  import opened NvmeQueue
  import NvmeTimeouts

  function StoreOf(w: World): Store {
    Store(w.mem, w.disk)
  }

  /** prp1 and prp2 describe exactly [buffer, buffer + len), every page after the first
      starting on a page boundary. */
  ghost predicate Describes(g: Geometry, list: seq<nat>, prp1: nat, prp2: nat, len: nat)
    requires 0 < g.pageSize
  {
    var s := PrpSegments(g, list, prp1, prp2, len);
    && s.Some?
    && Contiguous(s.value, prp1, len)
    && forall k :: 1 <= k < |s.value| ==> s.value[k].addr % g.pageSize == 0
  }

  lemma DescribesOnePage(g: Geometry, list: seq<nat>, prp1: nat, len: nat)
    requires ValidGeometry(g) && 0 < len <= g.pageSize - prp1 % g.pageSize
    ensures Describes(g, list, prp1, 0, len)
  {
    assert Contiguous([Segment(prp1, len)], prp1, len) by {
      assert [Segment(prp1, len)][1..] == [];
    }
  }

  lemma DescribesTwoPages(g: Geometry, list: seq<nat>, prp1: nat, len: nat)
    requires ValidGeometry(g)
    requires g.pageSize - prp1 % g.pageSize < len <= 2 * g.pageSize - prp1 % g.pageSize
    ensures Describes(g, list, prp1, prp1 + (g.pageSize - prp1 % g.pageSize), len)
  {
    var first := g.pageSize - prp1 % g.pageSize;
    NextPageAligned(prp1, g.pageSize);
    var segs := [Segment(prp1, first), Segment(prp1 + first, len - first)];
    assert segs[1..] == [Segment(prp1 + first, len - first)] && segs[1..][1..] == [];
    assert Contiguous(segs[1..], prp1 + first, len - first);
  }

  lemma DescribesList(g: Geometry, list: seq<nat>, entries: nat, prp1: nat, len: nat)
    requires ValidGeometry(g) && 2 * g.pageSize - prp1 % g.pageSize < len
    requires entries <= |list| && Pages(list[..entries], prp1 + (g.pageSize - prp1 % g.pageSize), g.pageSize)
    requires len - (g.pageSize - prp1 % g.pageSize) <= entries * g.pageSize
    requires PagesFor(len - (g.pageSize - prp1 % g.pageSize), g.pageSize) <= SlotsFrom(g.listAddr, g.pageSize)
    ensures Describes(g, list, prp1, g.listAddr, len)
  {
    var first := g.pageSize - prp1 % g.pageSize;
    NextPageAligned(prp1, g.pageSize);
    ListContiguous(g.pageSize, list, entries, prp1 + first, len - first);
    var pages := ListSegments(g.pageSize, list, len - first).value;
    assert ([Segment(prp1, first)] + pages)[1..] == pages;
  }

  /** A command whose PRP entries describe the buffer moves exactly its blocks. */
  lemma CommandMoves(g: Geometry, w: World, c: Command, buffer: nat, block: nat, count: nat)
    requires ValidGeometry(g) && Executable(g, w, c)
    requires c.prp1 == buffer && c.cdw10 == block && c.cdw12 + 1 == count
    requires Describes(g, w.prpList, buffer, c.prp2, count * g.blockSize)
    requires InRange(g.blockSize, StoreOf(w), buffer, block, count)
    ensures StoreOf(Execute(g, w, c))
         == Transferred(g.blockSize, StoreOf(w), buffer, block, count, c.opc == WriteOp)
  {
    hide PrpSegments, MoveBytes, MoveData, TotalLen, InMemory, Contiguous;
    var len := TransferLen(g, c);
    var segs := PrpSegments(g, w.prpList, buffer, c.prp2, len).value;
    Distribute(block, count, g.blockSize);
    MovesPlainRange(w, c.opc == ReadOp, segs, buffer, block * g.blockSize, len);
  }

  lemma MovesPlainRange(w: World, read: bool, segs: seq<Segment>, buffer: nat, at: nat, len: nat)
    requires InMemory(w.mem, segs) && TotalLen(segs) == len && at + len <= |w.disk|
    requires Contiguous(segs, buffer, len) && buffer + len <= |w.mem|
    ensures StoreOf(MoveData(w, read, segs, at)) == MoveBytes(StoreOf(w), buffer, at, len, !read)
  {
    hide Splice, Contiguous, Gather, Scatter, InMemory, TotalLen;
    if read {
      ScatterContiguous(segs, buffer, w.disk[at..at + len], w.mem);
    } else {
      GatherContiguous(segs, buffer, len, w.mem);
    }
  }

  /** The controller can always carry out a command built this way: the driver never asks for
      a transfer the controller would have to refuse. */
  lemma CommandIsExecutable(g: Geometry, w: World, c: Command, buffer: nat, block: nat, count: nat)
    requires ValidGeometry(g) && c.opc != Zeroed && c.cdw12 < 0x10000
    requires c.prp1 == buffer && c.cdw10 == block && c.cdw12 + 1 == count
    requires Describes(g, w.prpList, buffer, c.prp2, count * g.blockSize)
    requires InRange(g.blockSize, StoreOf(w), buffer, block, count)
    ensures Executable(g, w, c)
  {
    var segs := PrpSegments(g, w.prpList, buffer, c.prp2, count * g.blockSize).value;
    Distribute(block, count, g.blockSize);
    ContiguousTotal(segs, buffer, count * g.blockSize, w.mem);
  }

  /** Whatever the controller reports, only the blocks of the command are affected: moved if it
      reports success, possibly overwritten with anything if not. */
  lemma CommandAffects(g: Geometry, w: World, c: Command, buffer: nat, block: nat, count: nat, ok: bool, after: World)
    requires ValidGeometry(g) && c.opc != Zeroed && c.cdw12 < 0x10000
    requires c.prp1 == buffer && c.cdw10 == block && c.cdw12 + 1 == count
    requires Describes(g, w.prpList, buffer, c.prp2, count * g.blockSize)
    requires InRange(g.blockSize, StoreOf(w), buffer, block, count)
    requires Effect(g, w, c, ok, after)
    ensures |after.mem| == |w.mem| && |after.disk| == |w.disk| && after.prpList == w.prpList
    ensures after.reach == w.reach && after.faults == if Reachable(g, w, c) then w.faults else w.faults + 1
    ensures ok ==> MovedPrefix(g.blockSize, StoreOf(w), buffer, block, count, c.opc == WriteOp, StoreOf(after))
    ensures !ok ==> MovedTorn(g.blockSize, StoreOf(w), buffer, block, 0, count, c.opc == WriteOp, StoreOf(after))
  {
    CommandIsExecutable(g, w, c, buffer, block, count);
    EffectFaults(g, w, c, ok, after);
    hide Reachable;
    if ok {
      CommandMoves(g, w, c, buffer, block, count);
    } else {
      InRangeSplit(g.blockSize, StoreOf(w), buffer, block, 0, count);
      TransferredNothing(g.blockSize, StoreOf(w), buffer, block, c.opc == WriteOp);
      DisturbedRange(g, w, c, buffer, block, count, after);
      hide Transferred, Effect, TornAt;
    }
  }

  lemma DisturbedRange(g: Geometry, w: World, c: Command, buffer: nat, block: nat, count: nat, after: World)
    requires ValidGeometry(g) && Executable(g, w, c) && Disturbed(g, w, c, after)
    requires c.prp1 == buffer && c.cdw10 == block && c.cdw12 + 1 == count
    requires Describes(g, w.prpList, buffer, c.prp2, count * g.blockSize)
    ensures TornAt(StoreOf(w), StoreOf(after), buffer, block * g.blockSize, count * g.blockSize, c.opc == WriteOp)
  {
    hide PrpSegments, Names, Contiguous, InMemory, TotalLen, Mapped, Reachable;
    var len := count * g.blockSize;
    var segs := PrpSegments(g, w.prpList, buffer, c.prp2, len).value;
    assert TransferLen(g, c) == len;
    if c.opc == ReadOp {
      forall i | 0 <= i < |w.mem| && !(buffer <= i < buffer + len)
        ensures after.mem[i] == w.mem[i]
      {
        NamesContiguous(segs, buffer, len, i);
      }
    }
  }

  /** The controller can reach the whole buffer. */
  ghost predicate Within(g: Geometry, w: World, buffer: nat, len: nat) {
    forall i: int :: buffer <= i < buffer + len ==> Mapped(g, w, i)
  }

  lemma WithinReachable(g: Geometry, w: World, c: Command, buffer: nat, len: nat)
    requires 0 < g.pageSize && c.prp1 == buffer && TransferLen(g, c) == len
    requires Describes(g, w.prpList, buffer, c.prp2, len) && Within(g, w, buffer, len)
    ensures Reachable(g, w, c)
  {
    hide PrpSegments, Names, Contiguous, Mapped;
    var segs := PrpSegments(g, w.prpList, buffer, c.prp2, len).value;
    forall i | 0 <= i < |w.mem| && Names(segs, i)
      ensures Mapped(g, w, i)
    {
      NamesContiguous(segs, buffer, len, i);
    }
  }

  /** A window that has been opened lets the controller reach the buffer. */
  lemma WindowReaches(g: Geometry, w: World, buffer: nat, len: nat)
    requires 0 < g.pageSize && 0 < len && w.reach.Some? && Window(buffer, len, g.pageSize) <= w.reach.value
    ensures Within(g, w, buffer, len)
  {
    hide Window;
    forall i: int | buffer <= i < buffer + len
      ensures Mapped(g, w, i)
    {
      PageInWindow(buffer, len, g.pageSize, i);
    }
  }

  lemma PageInWindow(buffer: nat, len: nat, pageSize: nat, i: nat)
    requires 0 < pageSize && buffer <= i < buffer + len
    ensures PageOf(i, pageSize) in Window(buffer, len, pageSize)
  {
    hide Window;
    var p := i / pageSize;
    WindowIsLeast(buffer, len, pageSize, p);
    hide *;
    assert p * pageSize <= i;
    Distribute(p, 1, pageSize);
  }

  // ------------------------------------------------------------ command ids

  /** The n-th command carries the n-th id from first on, of 65535 that come round. */
  ghost predicate IdsCount(cmds: seq<Command>, first: nat) {
    forall k :: 0 <= k < |cmds| ==> cmds[k].cid == (first + k) % 0xffff
  }

  /** Any 65535 commands in a row carry different ids. */
  lemma IdsDiffer(cmds: seq<Command>, first: nat, i: nat, j: nat)
    requires IdsCount(cmds, first) && i < j < |cmds| && j - i < 0xffff
    ensures cmds[i].cid != cmds[j].cid
  {
    var a, b := first + i, first + j;
    assert cmds[i].cid == a % 0xffff && cmds[j].cid == b % 0xffff;
    assert a == a / 0xffff * 0xffff + a % 0xffff && b == b / 0xffff * 0xffff + b % 0xffff;
  }

  /** So until the ids come round, timeouts cannot make an answer go to another command. */
  lemma IdsDistinct(r: Ring, first: nat)
    requires IdsCount(r.submitted, first) && |r.submitted| <= 0xffff
    ensures NvmeTimeouts.CidsDistinct(r)
  {
    forall i, j | 0 <= i < j < |r.submitted|
      ensures r.submitted[i].cid != r.submitted[j].cid
    {
      IdsDiffer(r.submitted, first, i, j);
    }
  }

  lemma IdsNext(cmds: seq<Command>, first: nat, c: Command)
    requires IdsCount(cmds, first) && c.cid == (first + |cmds|) % 0xffff
    ensures IdsCount(cmds + [c], first)
    ensures (first + |cmds + [c]|) % 0xffff == (c.cid + 1) % 0xffff
  {
    RingSuccessor(first + |cmds|, 0xffff);
  }

  // ------------------------------------------------------------ what is reported

  /** Since was, commands have been executed with the outcome err says: all of them well, or not.
      After a timeout that is not known. */
  ghost predicate Reported(was: seq<Execution>, now: seq<Execution>, err: Error) {
    && was <= now && err in {NoError, CommandFailed, Timeout}
    && (err != Timeout ==> (err == NoError <==> forall k :: |was| <= k < |now| ==> now[k].ok))
  }

  lemma ReportedThen(was: seq<Execution>, mid: seq<Execution>, now: seq<Execution>, err: Error)
    requires Reported(was, mid, NoError) && Reported(mid, now, err)
    ensures Reported(was, now, err)
  {
    assert forall k :: |was| <= k < |mid| ==> now[k] == mid[k];
    if err == CommandFailed {
      var k :| |mid| <= k < |now| && !now[k].ok;
      assert |was| <= k && !now[k].ok;
    }
  }

  lemma ReportedOne(was: seq<Execution>, e: Execution, err: Error)
    requires err in {NoError, CommandFailed} && (err == NoError <==> e.ok)
    ensures Reported(was, was + [e], err)
  {
    assert (was + [e])[|was|] == e;
  }

  /** What ExecCmd tells of the command it has waited for. */
  lemma AfterCommand(before: Ring, r: Ring, cmd: Command, err: Error, status: Completion)
    requires err in {NoError, CommandFailed, Timeout}
    requires if err == Timeout then InFlight(before, r, cmd)
             else Finished(before, r, cmd, status) && (err == NoError <==> status.ok)
    ensures r.submitted == before.submitted + [cmd] && Reported(before.executed, r.executed, err)
    ensures r.world == before.world || Effect(before.geo, before.world, cmd, true, r.world)
            || Effect(before.geo, before.world, cmd, false, r.world)
    ensures err == NoError ==> Effect(before.geo, before.world, cmd, true, r.world)
  {
    hide Effect, Inv;
    if err != Timeout {
      ReportedOne(before.executed, Execution(cmd, status.ok), err);
    }
  }

  lemma ReportedNothing(was: seq<Execution>)
    ensures Reported(was, was, NoError)
  {
  }

  /** count blocks of memory at to are what was at from before; with from == to nothing has changed. */
  predicate Copied(blockSize: nat, was: seq<bv8>, now: seq<bv8>, from: nat, to: nat, count: nat) {
    var len := count * blockSize;
    && from + len <= |was| && to + len <= |now|
    && now[to..to + len] == was[from..from + len]
    && (from == to ==> now == was)
  }

  lemma ReadBack(blockSize: nat, start: Store, mid: Store, end: Store, from: nat, to: nat, block: nat, count: nat)
    requires InRange(blockSize, start, from, block, count)
    requires mid == Transferred(blockSize, start, from, block, count, true)
    requires InRange(blockSize, mid, to, block, count) && end == Transferred(blockSize, mid, to, block, count, false)
    ensures Copied(blockSize, start.mem, end.mem, from, to, count)
  {
    hide Transferred;
    InRangeBySize(blockSize, mid, start, to, block, count);
    WriteThenRead(blockSize, start, from, to, block, count);
  }

  lemma SlotWriteIdle(r: Ring, cmd: Command)
    requires IdleRing(r) && Indexed(r)
    ensures IdleRing(r.(sq := r.sq[r.sqTail := cmd]))
  {
  }

  lemma WorldWriteIdle(r: Ring, w: World)
    requires IdleRing(r)
    ensures IdleRing(r.(world := w))
  {
  }

  class NvmeContext {
    const geo: Geometry
    const blockCount: nat
    const maxTransferBlk: nat
    const smmuEnabled: bool
    const ioq: QueuePair
    /** The command id in force when the queue was made. */
    const firstCid: nat
    /** How the SMMU answers the requests for a window, in order. */
    const refuses: nat -> bool
    var asked: nat
    var currentCid: nat

    /** The pages the SMMU lets the controller reach. */
    ghost function Open(): set<nat>
      reads ioq
    {
      if ioq.world.reach.Some? then ioq.world.reach.value else {}
    }

    /** Nothing but these pages has changed in the world. */
    ghost predicate OnlyReach(w: World, pages: set<nat>)
      reads ioq
    {
      ioq.world == w.(reach := if smmuEnabled then Some(pages) else None)
    }

    /** What initialisation established; kept by every operation. */
    ghost predicate Formatted()
      reads this`currentCid, ioq
    {
      && ValidGeometry(geo) && ioq.geo == geo
      && maxTransferBlk == geo.maxSize / geo.blockSize
      && currentCid == (firstCid + |ioq.submitted|) % 0xffff && IdsCount(ioq.submitted, firstCid)
      && (ioq.world.reach.Some? <==> smmuEnabled)
      && |ioq.world.disk| == blockCount * geo.blockSize
      && |ioq.world.prpList| == geo.maxEntries
    }

    ghost predicate Valid()
      reads this`currentCid, ioq, ioq.sq, ioq.cq
    {
      Formatted() && ioq.Idle()
    }

    constructor (geo: Geometry, blockCount: nat, smmuEnabled: bool, queueSize: nat, mem: seq<bv8>, disk: seq<bv8>,
                 cid: nat, refuses: nat -> bool)
      requires ValidGeometry(geo) && 2 <= queueSize && |disk| == blockCount * geo.blockSize && cid < 0xffff
      ensures Valid() && StoreOf(ioq.world) == Store(mem, disk) && Open() == {} && fresh(ioq)
      ensures this.geo == geo && this.blockCount == blockCount && this.smmuEnabled == smmuEnabled
      ensures currentCid == cid && this.refuses == refuses && asked == 0
    {
      this.geo := geo;
      this.blockCount := blockCount;
      this.maxTransferBlk := geo.maxSize / geo.blockSize;
      this.smmuEnabled := smmuEnabled;
      this.firstCid, this.refuses := cid, refuses;
      currentCid, asked := cid, 0;
      ioq := new QueuePair(geo, queueSize, World(mem, seq(geo.maxEntries, _ => 0), disk,
                                                 if smmuEnabled then Some({}) else None, 0));
    }

    lemma FormattedFacts()
      requires Formatted()
      ensures 0 < geo.pageSize && (ioq.world.reach.Some? <==> smmuEnabled)
    {
    }

    method IncrementCommandId()
      requires currentCid < 0xffff
      modifies this`currentCid
      ensures currentCid == (old(currentCid) + 1) % 0xffff
    {
      currentCid := (currentCid + 1) % 0x10000;
      if currentCid == 0xffff {
        currentCid := 0;
      }
    }

    /** What the SMMU lets the controller reach from now on. */
    method SetReach(pages: set<nat>)
      requires Valid() && smmuEnabled
      modifies ioq`world
      ensures Valid() && ioq.world == old(ioq.world).(reach := Some(pages))
    {
      hide IdsCount;
      ghost var was := ioq.View();
      ioq.world := ioq.world.(reach := Some(pages));
      WorldWriteIdle(was, ioq.world);
      assert ioq.View() == was.(world := ioq.world);
    }

    /** Open the SMMU window around the buffer, unless the SMMU refuses. size == 0 says there is
        nothing to close. */
    method SmmuProtect(buffer: nat, len: nat) returns (err: Error, size: nat)
      requires Valid() && 0 < len
      modifies this`asked, ioq`world
      ensures Valid() && asked == old(asked) + (if smmuEnabled then 1 else 0)
      ensures err == if smmuEnabled && refuses(old(asked)) then NoMemory else NoError
      ensures size == if smmuEnabled && err == NoError then WindowSize(buffer, len, geo.pageSize) else 0
      ensures OnlyReach(old(ioq.world), old(Open()) + if err == NoError then Window(buffer, len, geo.pageSize) else {})
      ensures size == 0 <==> !smmuEnabled || err == NoMemory
    {
      hide Window, WindowSize, Formatted, PagesOf;
      FormattedFacts();
      WindowIs(buffer, len, geo.pageSize);
      err, size := NoError, 0;
      assert Open() + {} == Open();
      if smmuEnabled {
        var base := buffer;
        size := len;
        if base % geo.pageSize != 0 {
          base := base - base % geo.pageSize;
          size := size + (buffer - base);
        }
        if size % geo.pageSize != 0 {
          size := size + (geo.pageSize - size % geo.pageSize);
        }
        var refused := refuses(asked);
        asked := asked + 1;
        if refused {
          err, size := NoMemory, 0;
        } else {
          SetReach(ioq.world.reach.value + PagesOf(base, size, geo.pageSize));
        }
      }
    }

    /** Close the window recomputed from the original length. */
    method SmmuUnprotect(buffer: nat, len: nat)
      requires Valid()
      modifies ioq`world
      ensures Valid()
      ensures OnlyReach(old(ioq.world), old(Open()) - if len != 0 then Window(buffer, len, geo.pageSize) else {})
    {
      hide Window, WindowSize, Formatted, PagesOf;
      FormattedFacts();
      WindowIs(buffer, len, geo.pageSize);
      assert Open() - {} == Open();
      if smmuEnabled && len != 0 {
        var base, size := buffer, len;
        if base % geo.pageSize != 0 {
          base := base - base % geo.pageSize;
          size := size + (buffer - base);
        }
        if size % geo.pageSize != 0 {
          size := size + (geo.pageSize - size % geo.pageSize);
        }
        SetReach(ioq.world.reach.value - PagesOf(base, size, geo.pageSize));
      }
    }

    /** Fill prp2, and the PRP list when more than two pages are needed. The "not enough
        entries" check never fires for a length rw_blocks passes. */
    method PreparePrp2(len: nat, buffer: nat) returns (err: Error, prp2: nat)
      requires Valid() && 0 < len <= geo.maxSize
      modifies ioq`world
      ensures err == NoError && Valid() && ioq.world == old(ioq.world).(prpList := ioq.world.prpList)
      ensures Describes(geo, ioq.world.prpList, buffer, prp2, len)
      ensures len <= geo.pageSize - buffer % geo.pageSize ==> prp2 == 0
    {
      err, prp2 := NoError, 0;
      ghost var was := ioq.View();
      var pageSize := geo.pageSize;
      var address := buffer;
      var offset := address % pageSize;
      var length: int := len - (pageSize - offset);
      if length <= 0 {
        DescribesOnePage(geo, ioq.world.prpList, buffer, len);
        return;
      }
      address := address + (pageSize - offset);
      if length <= pageSize {
        DescribesTwoPages(geo, ioq.world.prpList, buffer, len);
        return NoError, address;
      }
      var entries := 1 + (length - 1) / pageSize;
      EntriesFit(geo, len, offset);
      if entries > geo.maxEntries {
        err := NoMemory;
        return;
      }
      var list := FillPrpList(entries, address);
      ioq.world := ioq.world.(prpList := list);
      WorldWriteIdle(was, ioq.world);
      assert ioq.View() == was.(world := ioq.world);
      prp2 := geo.listAddr;
      DescribesList(geo, ioq.world.prpList, entries, buffer, len);
    }

    method FillPrpList(entries: nat, address: nat) returns (list: seq<nat>)
      requires entries <= geo.maxEntries
      ensures |list| == geo.maxEntries && Pages(list[..entries], address, geo.pageSize)
    {
      list := seq(geo.maxEntries, _ => 0);
      var next := address;
      for i := 0 to entries
        invariant |list| == geo.maxEntries && next == address + i * geo.pageSize
        invariant Pages(list[..i], address, geo.pageSize)
      {
        ghost var filled := list[..i];
        list := list[i := next];
        PagesAppend(filled, address, geo.pageSize, next);
        assert list[..i + 1] == filled + [next];
        Distribute(i, 1, geo.pageSize);
        next := next + geo.pageSize;
      }
    }

    /** tegrabl_read_cmd and tegrabl_write_cmd: one command for blkcnt blocks. Success means they
        have been moved. A failed command may have torn them; so may one the host stopped
        waiting for, which may also have been carried out or not begun. */
    method RwCmd(blknr: nat, blkcnt: nat, prp1: nat, prp2: nat, write: bool)
      returns (err: Error, ghost done: nat, ghost torn: nat)
      requires Valid() && 0 < blkcnt && blkcnt * geo.blockSize <= geo.maxSize
      requires InRange(geo.blockSize, StoreOf(ioq.world), prp1, blknr, blkcnt)
      requires Describes(geo, ioq.world.prpList, prp1, prp2, blkcnt * geo.blockSize)
      modifies this`currentCid, ioq, ioq.sq, ioq.cq
      ensures err in {NoError, CommandFailed, Timeout} && Reported(old(ioq.executed), ioq.executed, err)
      ensures Formatted() && (err != Timeout ==> Valid())
      ensures done + torn <= blkcnt && (err == NoError ==> done == blkcnt)
      ensures MovedTorn(geo.blockSize, old(StoreOf(ioq.world)), prp1, blknr, done, torn, write, StoreOf(ioq.world))
      ensures ioq.submitted == old(ioq.submitted)
                               + [Command(if write then WriteOp else ReadOp, old(currentCid), blknr, blkcnt - 1, prp1,
                                          prp2)]
      ensures KeptReach(old(ioq.world), prp1, blkcnt * geo.blockSize)
    {
      hide Describes, InRange, Effect, MovedTorn, MovedPrefix, Within, Reachable, IdsCount, Reported;
      hide InFlight, Finished;
      BlockCountFitsCdw12(geo, blkcnt);
      var cmd := Command(if write then WriteOp else ReadOp, currentCid, blknr, (blkcnt - 1) % 0x10000, prp1, prp2);
      var slot := PutCommand(cmd);
      IdsNext(ioq.submitted, firstCid, cmd);
      IncrementCommandId();
      ghost var before, ring := ioq.world, ioq.View();
      var status;
      err, status := ioq.ExecCmd(slot);
      AfterCommand(ring, ioq.View(), cmd, err, status);
      done, torn := Outcome(before, cmd, prp1, blknr, blkcnt, err == NoError, ioq.world);
    }

    /** Fill the slot at the tail. */
    method PutCommand(cmd: Command) returns (slot: nat)
      requires Valid()
      modifies ioq.sq
      ensures ioq.Idle() && slot == ioq.sqTail < ioq.sq.Length && ioq.sq[slot] == cmd
    {
      slot := ioq.GetCurrentEntry();
      ghost var was := ioq.View();
      ioq.sq[slot] := cmd;
      SlotWriteIdle(was, cmd);
      assert ioq.View() == was.(sq := was.sq[was.sqTail := cmd]);
    }

    /** What a command has moved and torn. */
    lemma Outcome(w: World, c: Command, buffer: nat, block: nat, count: nat, good: bool, after: World)
      returns (done: nat, torn: nat)
      requires ValidGeometry(geo) && c.opc != Zeroed && c.cdw12 < 0x10000 && 0 < count
      requires c.prp1 == buffer && c.cdw10 == block && c.cdw12 + 1 == count
      requires Describes(geo, w.prpList, buffer, c.prp2, count * geo.blockSize)
      requires InRange(geo.blockSize, StoreOf(w), buffer, block, count)
      requires after == w || Effect(geo, w, c, true, after) || Effect(geo, w, c, false, after)
      requires good ==> Effect(geo, w, c, true, after)
      ensures |after.mem| == |w.mem| && |after.disk| == |w.disk| && after.prpList == w.prpList
      ensures done + torn <= count && (good ==> done == count)
      ensures MovedTorn(geo.blockSize, StoreOf(w), buffer, block, done, torn, c.opc == WriteOp, StoreOf(after))
      ensures after.reach == w.reach && w.faults <= after.faults
      ensures Within(geo, w, buffer, count * geo.blockSize) ==> after.faults == w.faults
    {
      hide Describes, InRange, Effect, MovedTorn, MovedPrefix, Within, Reachable, Executable;
      assert TransferLen(geo, c) == count * geo.blockSize;
      if Within(geo, w, buffer, count * geo.blockSize) {
        WithinReachable(geo, w, c, buffer, count * geo.blockSize);
      }
      if Effect(geo, w, c, true, after) {
        CommandAffects(geo, w, c, buffer, block, count, true, after);
        TornNothing(geo.blockSize, StoreOf(w), buffer, block, count, c.opc == WriteOp, StoreOf(after));
        done, torn := count, 0;
      } else if after == w {
        done, torn := 0, 0;
        NothingMoved(w, buffer, block, count, c.opc == WriteOp);
      } else {
        CommandAffects(geo, w, c, buffer, block, count, false, after);
        done, torn := 0, count;
      }
    }

    /** The SMMU lets the controller reach what it did at w; if that was the whole buffer, no command
        has met an unmapped page since. */
    ghost predicate KeptReach(w: World, buffer: nat, len: nat)
      reads ioq
    {
      && ioq.world.reach == w.reach && w.faults <= ioq.world.faults
      && (Within(geo, w, buffer, len) ==> ioq.world.faults == w.faults)
    }

    /** Whether the controller can reach a buffer is a matter of the pages mapped; it then reaches
        every part of it. */
    lemma SameReach(w: World, other: World, buffer: nat, len: nat)
      requires w.reach == other.reach
      ensures Within(geo, w, buffer, len) == Within(geo, other, buffer, len)
    {
      assert forall i: int :: Mapped(geo, w, i) == Mapped(geo, other, i);
    }

    lemma PartReach(w: World, buffer: nat, len: nat, part: nat, size: nat)
      requires buffer <= part && part + size <= buffer + len
      ensures Within(geo, w, buffer, len) ==> Within(geo, w, part, size)
    {
      hide Mapped;
    }

    lemma NothingMoved(w: World, buffer: nat, block: nat, count: nat, write: bool)
      requires InRange(geo.blockSize, StoreOf(w), buffer, block, count)
      ensures MovedTorn(geo.blockSize, StoreOf(w), buffer, block, 0, 0, write, StoreOf(w))
    {
      hide MovedTorn, MovedPrefix;
      PrefixStart(geo.blockSize, StoreOf(w), buffer, block, count, write);
      TornNothing(geo.blockSize, StoreOf(w), buffer, block, 0, write, StoreOf(w));
    }

    /** One pass of the chunk loop: describe the buffer, run the command. */
    method RwChunk(buf: nat, block: nat, bulk: nat, write: bool) returns (err: Error, ghost moved: nat, ghost torn: nat)
      requires Valid() && 0 < bulk && 0 < bulk * geo.blockSize <= geo.maxSize
      requires InRange(geo.blockSize, StoreOf(ioq.world), buf, block, bulk)
      modifies this`currentCid, ioq, ioq.sq, ioq.cq
      ensures Formatted() && (err != Timeout ==> Valid()) && err != Overflow
      ensures Reported(old(ioq.executed), ioq.executed, err)
      ensures moved + torn <= bulk && (err == NoError ==> moved == bulk)
      ensures MovedTorn(geo.blockSize, old(StoreOf(ioq.world)), buf, block, moved, torn, write, StoreOf(ioq.world))
      ensures KeptReach(old(ioq.world), buf, bulk * geo.blockSize)
    {
      hide Describes, InRange, MovedTorn, Within, Reported;
      var prp2;
      err, prp2 := PreparePrp2(bulk * geo.blockSize, buf);
      SameReach(old(ioq.world), ioq.world, buf, bulk * geo.blockSize);
      err, moved, torn := RwCmd(block, bulk, buf, prp2, write);
    }

    /** Move blkcnt blocks in chunks of at most maxTransferBlk. Whatever the outcome, a prefix of
        the request has been moved, the whole of it on success, and at most the one chunk after
        it is torn. */
    method RwBlocks(buffer: nat, blknr: nat, blkcnt: nat, write: bool)
      returns (err: Error, ghost done: nat, ghost torn: nat)
      requires Valid() && 0 < blkcnt
      requires InRange(geo.blockSize, StoreOf(ioq.world), buffer, blknr, blkcnt)
      modifies this`currentCid, this`asked, ioq, ioq.sq, ioq.cq
      ensures Formatted() && (err != Timeout ==> Valid()) && err != Overflow
      ensures Reported(old(ioq.executed), ioq.executed, err)
      ensures done + torn <= blkcnt && torn <= maxTransferBlk && (err == NoError ==> done == blkcnt)
      ensures MovedTorn(geo.blockSize, old(StoreOf(ioq.world)), buffer, blknr, done, torn, write, StoreOf(ioq.world))
      ensures asked == old(asked) + if smmuEnabled then 1 else 0
      ensures Open() == if !smmuEnabled || refuses(old(asked)) then old(Open())
                        else if err == NoError then old(Open()) - Window(buffer, blkcnt * geo.blockSize, geo.pageSize)
                        else old(Open()) + Window(buffer, blkcnt * geo.blockSize, geo.pageSize)
      ensures ioq.world.faults >= old(ioq.world).faults
      ensures !(smmuEnabled && refuses(old(asked))) ==> ioq.world.faults == old(ioq.world).faults
    {
      hide MovedTorn, InRange, Within, Window, Reported;
      var totalLen := blkcnt * geo.blockSize;
      MulMonotone(1, blkcnt, geo.blockSize);
      var protectErr, tsize := SmmuProtect(buffer, totalLen);
      if protectErr == NoError {
        BufferReached(buffer, totalLen);
      }
      err, done, torn := RwChunks(buffer, blknr, blkcnt, write);
      if err == NoError && smmuEnabled && tsize != 0 {
        SmmuUnprotect(buffer, totalLen);
      }
    }

    /** With the window open, or without an SMMU, the controller can reach the buffer. */
    lemma BufferReached(buffer: nat, len: nat)
      requires Formatted() && 0 < len && (smmuEnabled ==> Window(buffer, len, geo.pageSize) <= Open())
      ensures Within(geo, ioq.world, buffer, len)
    {
      if smmuEnabled {
        WindowReaches(geo, ioq.world, buffer, len);
      }
    }

    method RwChunks(buffer: nat, blknr: nat, blkcnt: nat, write: bool)
      returns (err: Error, ghost done: nat, ghost torn: nat)
      requires Valid()
      requires InRange(geo.blockSize, StoreOf(ioq.world), buffer, blknr, blkcnt)
      modifies this`currentCid, ioq, ioq.sq, ioq.cq
      ensures Formatted() && (err != Timeout ==> Valid()) && err != Overflow
      ensures Reported(old(ioq.executed), ioq.executed, err)
      ensures done + torn <= blkcnt && torn <= maxTransferBlk && (err == NoError ==> done == blkcnt)
      ensures MovedTorn(geo.blockSize, old(StoreOf(ioq.world)), buffer, blknr, done, torn, write, StoreOf(ioq.world))
      ensures KeptReach(old(ioq.world), buffer, blkcnt * geo.blockSize)
    {
      hide InRange, MovedTorn, MovedPrefix, Within, Reported;
      ReportedNothing(ioq.executed);
      ghost var start, was := StoreOf(ioq.world), ioq.world;
      PrefixStart(geo.blockSize, start, buffer, blknr, blkcnt, write);
      err, done, torn := NoError, 0, 0;
      var block: nat, count: nat, buf: nat := blknr, blkcnt, buffer;
      while count > 0
        invariant err == NoError && Valid()
        invariant count + done == blkcnt && block == blknr + done && buf == buffer + done * geo.blockSize
        invariant MovedPrefix(geo.blockSize, start, buffer, blknr, done, write, StoreOf(ioq.world))
        invariant KeptReach(was, buffer, blkcnt * geo.blockSize) && Reported(old(ioq.executed), ioq.executed, NoError)
      {
        var bulk := NextBulk(count);
        ghost var moved;
        ghost var done0 := ioq.executed;
        err, moved, torn := ChunkStep(start, was, buffer, blknr, blkcnt, done, buf, block, bulk, write);
        ReportedThen(old(ioq.executed), done0, ioq.executed, err);
        done := done + moved;
        if err != NoError {
          return;
        }
        TornNothing(geo.blockSize, start, buffer, blknr, done, write, StoreOf(ioq.world));
        count := count - bulk;
        buf := buf + bulk * geo.blockSize;
        block := block + bulk;
      }
      torn := 0;
      TornNothing(geo.blockSize, start, buffer, blknr, done, write, StoreOf(ioq.world));
    }

    method ChunkStep(ghost start: Store, ghost was: World, ghost buffer: nat, ghost blknr: nat, ghost blkcnt: nat,
                     ghost done: nat,
                     buf: nat, block: nat, bulk: nat, write: bool)
      returns (err: Error, ghost moved: nat, ghost torn: nat)
      requires Valid() && 0 < bulk <= maxTransferBlk && 0 < bulk * geo.blockSize <= geo.maxSize && done + bulk <= blkcnt
      requires buf == buffer + done * geo.blockSize && block == blknr + done
      requires InRange(geo.blockSize, start, buffer, blknr, blkcnt)
      requires MovedPrefix(geo.blockSize, start, buffer, blknr, done, write, StoreOf(ioq.world))
      requires KeptReach(was, buffer, blkcnt * geo.blockSize)
      modifies this`currentCid, ioq, ioq.sq, ioq.cq
      ensures Formatted() && (err != Timeout ==> Valid()) && err != Overflow
      ensures Reported(old(ioq.executed), ioq.executed, err)
      ensures moved + torn <= bulk && torn <= maxTransferBlk && (err == NoError ==> moved == bulk)
      ensures buf + bulk * geo.blockSize == buffer + (done + bulk) * geo.blockSize
      ensures MovedTorn(geo.blockSize, start, buffer, blknr, done + moved, torn, write, StoreOf(ioq.world))
      ensures KeptReach(was, buffer, blkcnt * geo.blockSize)
    {
      hide InRange, MovedTorn, MovedPrefix, Within, Reported;
      ghost var now := StoreOf(ioq.world);
      MulMonotone(done + bulk, blkcnt, geo.blockSize);
      Distribute(done, bulk, geo.blockSize);
      PartReach(was, buffer, blkcnt * geo.blockSize, buf, bulk * geo.blockSize);
      SameReach(was, ioq.world, buf, bulk * geo.blockSize);
      PrefixRest(geo.blockSize, start, buffer, blknr, blkcnt, write, done, now, bulk);
      err, moved, torn := RwChunk(buf, block, bulk, write);
      TornExtend(geo.blockSize, start, buffer, blknr, blkcnt, write, done, now, moved, torn, StoreOf(ioq.world));
    }

    /** The next chunk is never empty and never larger than one command can describe. */
    method NextBulk(count: nat) returns (bulk: nat)
      requires Formatted() && 0 < count
      ensures 0 < bulk <= count && 0 < bulk * geo.blockSize <= geo.maxSize
      ensures bulk == Min(count, maxTransferBlk)
    {
      bulk := if count < maxTransferBlk then count else maxTransferBlk;
      MulMonotone(bulk, maxTransferBlk, geo.blockSize);
      MulMonotone(1, bulk, geo.blockSize);
    }

    /** The block device entry points (read and write differ only in direction). */
    method BdevTransfer(buffer: nat, block: nat, count: nat, write: bool)
      returns (err: Error, ghost done: nat, ghost torn: nat)
      requires Valid() && buffer + count * geo.blockSize <= |ioq.world.mem|
      modifies this`currentCid, this`asked, ioq, ioq.sq, ioq.cq
      ensures err == Overflow <==> block + count > blockCount
      ensures err == Overflow ==> Valid() && ioq.world == old(ioq.world) && asked == old(asked)
      ensures Formatted() && (err != Timeout ==> Valid())
      ensures err != Overflow ==> Reported(old(ioq.executed), ioq.executed, err)
      ensures err != Overflow ==> done + torn <= count && torn <= maxTransferBlk
      ensures err != Overflow ==>
                MovedTorn(geo.blockSize, old(StoreOf(ioq.world)), buffer, block, done, torn, write, StoreOf(ioq.world))
      ensures err == NoError ==> Open() <= old(Open())
      ensures old(asked) <= asked
      ensures NoneRefused(old(asked), asked) ==> ioq.world.faults == old(ioq.world).faults
      ensures err == NoError ==>
                InRange(geo.blockSize, old(StoreOf(ioq.world)), buffer, block, count)
                && StoreOf(ioq.world)
                   == Transferred(geo.blockSize, old(StoreOf(ioq.world)), buffer, block, count, write)
    {
      hide MovedTorn, Transferred, Reported;
      if block + count > blockCount {
        return Overflow, 0, 0;
      }
      MulMonotone(block + count, blockCount, geo.blockSize);
      err, done, torn := BulkLoop(buffer, block, count, write);
      TornNothing(geo.blockSize, old(StoreOf(ioq.world)), buffer, block, count, write, StoreOf(ioq.world));
    }

    /** Of the windows asked for the SMMU has refused none. */
    ghost predicate NoneRefused(lo: nat, hi: nat) {
      forall n: nat :: lo <= n < hi ==> !refuses(n)
    }

    method BulkLoop(buffer: nat, block: nat, count: nat, write: bool)
      returns (err: Error, ghost done: nat, ghost torn: nat)
      requires Valid() && InRange(geo.blockSize, StoreOf(ioq.world), buffer, block, count)
      modifies this`currentCid, this`asked, ioq, ioq.sq, ioq.cq
      ensures Formatted() && (err != Timeout ==> Valid()) && err != Overflow
      ensures Reported(old(ioq.executed), ioq.executed, err)
      ensures done + torn <= count && torn <= maxTransferBlk
      ensures err == NoError ==> done == count && torn == 0 && Open() <= old(Open())
      ensures old(asked) <= asked
      ensures NoneRefused(old(asked), asked) ==> ioq.world.faults == old(ioq.world).faults
      ensures MovedTorn(geo.blockSize, old(StoreOf(ioq.world)), buffer, block, done, torn, write, StoreOf(ioq.world))
    {
      hide InRange, MovedTorn, MovedPrefix, Reported;
      ghost var start := StoreOf(ioq.world);
      ReportedNothing(ioq.executed);
      PrefixStart(geo.blockSize, start, buffer, block, count, write);
      err, done, torn := NoError, 0, 0;
      var blk: nat, left: nat, buf: nat := block, count, buffer;
      while left != 0
        invariant err == NoError && Valid() && Open() <= old(Open()) && old(asked) <= asked
        invariant NoneRefused(old(asked), asked) ==> ioq.world.faults == old(ioq.world).faults
        invariant Reported(old(ioq.executed), ioq.executed, NoError)
        invariant left + done == count && blk == block + done && buf == buffer + done * geo.blockSize
        invariant MovedPrefix(geo.blockSize, start, buffer, block, done, write, StoreOf(ioq.world))
      {
        var bulk := NextBulk(left);
        ghost var moved;
        ghost var done0 := ioq.executed;
        err, moved, torn := BulkStep(start, buffer, block, count, done, buf, blk, bulk, write);
        ReportedThen(old(ioq.executed), done0, ioq.executed, err);
        done := done + moved;
        if err != NoError {
          return;
        }
        TornNothing(geo.blockSize, start, buffer, block, done, write, StoreOf(ioq.world));
        left := left - bulk;
        buf := buf + bulk * geo.blockSize;
        blk := blk + bulk;
      }
      torn := 0;
      TornNothing(geo.blockSize, start, buffer, block, done, write, StoreOf(ioq.world));
    }

    method BulkStep(ghost start: Store, ghost buffer: nat, ghost block: nat, ghost count: nat, ghost done: nat,
                    buf: nat, blk: nat, bulk: nat, write: bool)
      returns (err: Error, ghost moved: nat, ghost torn: nat)
      requires Valid() && 0 < bulk && done + bulk <= count
      requires buf == buffer + done * geo.blockSize && blk == block + done
      requires InRange(geo.blockSize, start, buffer, block, count)
      requires MovedPrefix(geo.blockSize, start, buffer, block, done, write, StoreOf(ioq.world))
      modifies this`currentCid, this`asked, ioq, ioq.sq, ioq.cq
      ensures Formatted() && (err != Timeout ==> Valid()) && err != Overflow
      ensures Reported(old(ioq.executed), ioq.executed, err)
      ensures moved + torn <= bulk && torn <= maxTransferBlk
      ensures err == NoError ==> moved == bulk && torn == 0 && Open() <= old(Open())
      ensures old(asked) <= asked
      ensures NoneRefused(old(asked), asked) ==> ioq.world.faults == old(ioq.world).faults
      ensures buf + bulk * geo.blockSize == buffer + (done + bulk) * geo.blockSize
      ensures MovedTorn(geo.blockSize, start, buffer, block, done + moved, torn, write, StoreOf(ioq.world))
    {
      hide InRange, MovedTorn, MovedPrefix, Window, Reported;
      ghost var now := StoreOf(ioq.world);
      PrefixRest(geo.blockSize, start, buffer, block, count, write, done, now, bulk);
      err, moved, torn := RwBlocks(buf, blk, bulk, write);
      TornExtend(geo.blockSize, start, buffer, block, count, write, done, now, moved, torn, StoreOf(ioq.world));
      Distribute(done, bulk, geo.blockSize);
    }

    /** Write blocks from one buffer and read them back into another: two successful calls leave
        the second buffer with the bytes of the first. */
    method WriteThenReadBack(from: nat, to: nat, block: nat, count: nat) returns (err: Error)
      requires Valid() && from + count * geo.blockSize <= |ioq.world.mem|
      requires to + count * geo.blockSize <= |ioq.world.mem|
      modifies this`currentCid, this`asked, ioq, ioq.sq, ioq.cq
      ensures Formatted() && (err != Timeout ==> Valid())
      ensures err == NoError ==> Copied(geo.blockSize, old(ioq.world.mem), ioq.world.mem, from, to, count)
    {
      hide Transferred, InRange, MovedTorn, Formatted;
      ghost var start := StoreOf(ioq.world);
      ghost var done, torn;
      err, done, torn := BdevTransfer(from, block, count, true);
      if err == NoError {
        ghost var mid := StoreOf(ioq.world);
        err, done, torn := BdevTransfer(to, block, count, false);
        if err == NoError {
          ReadBack(geo.blockSize, start, mid, StoreOf(ioq.world), from, to, block, count);
        }
      }
    }
  }
}
