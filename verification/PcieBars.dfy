// BAR allocation, drivers/pcie/tegrabl_pcie.c: the loop sizes each base address register by
// writing all ones, and packs the regions into the I/O and memory windows of the bus.
module PcieBars {
  import opened Arith
  import opened PcieRounding

  const ONES: nat := 0xFFFF_FFFF
  /** The largest size any register can ask for. */
  const WIDEST: nat := 0xFFFF_FFFF_0000_0010
  const BASE_ADDRESS_0 := 0x10
  const BASE_ADDRESS_5 := 0x24

  datatype Region = Region(start: nat, size: nat)

  datatype Kind = Io | Mem32 | Mem64

  // ------------------------------------------------------------ register answers

  function KindOf(response: nat): Kind {
    if response % 2 != 0 then Io else if response / 2 % 4 == 2 then Mem64 else Mem32
  }

  /** The size a register asks for: complement of the answer without its type bits, plus one.
      A 64-bit one is answered by two registers. */
  function BarSize(responses: seq<nat>, k: nat): nat
    requires k + 1 < |responses|
  {
    var low := responses[k];
    match KindOf(low)
    case Io => (W64 - (low - low % 4)) % W32
    case Mem32 => (W64 - (low - low % 16)) % W32
    case Mem64 =>
      var wide := responses[k + 1] * W32 + low;
      (W64 - (wide - wide % 16)) % W64
  }

  /** A register that answers with type bits only asks for size zero, which is no power of two;
      rounding to it would put the cursor back to zero. */
  lemma ZeroSizeResetsCursor(x: nat)
    requires 0 < x < W32
    ensures BarSize([1, 0], 0) == 0 && RoundUp(x, 0) == 0
  {
    OrWithAllOnes(x - 1);
    hide Or;
  }

  /** Register k is the first of a BAR; the others are upper halves of 64-bit ones. */
  predicate IsStart(responses: seq<nat>, k: nat)
    requires k <= |responses|
  {
    k == 0 || !IsStart(responses, k - 1) || KindOf(responses[k - 1]) != Mem64
  }

  /** What a conforming device answers: where a BAR starts, zero or a power-of-two size. The
      register above the last one is read only as the upper half of a 64-bit BAR. */
  ghost predicate Conforming(responses: seq<nat>) {
    && |responses| == 7
    && (forall k :: 0 <= k < 7 ==> responses[k] < W32)
    && forall k :: 0 <= k < 6 && IsStart(responses, k) && responses[k] != 0 ==> PowerOfTwo(BarSize(responses, k))
  }

  // ------------------------------------------------------------ the allocation, on values

  /** The loop at register reg: the cursors it finds, and whether the register gets a region. */
  datatype Turn = Turn(reg: nat, io: nat, mem: nat, accepted: bool)

  /** All turns from some register on, and the cursors in the end. */
  datatype Walk = Walk(turns: seq<Turn>, io: nat, mem: nat)

  /** The size check of the source, in 64-bit arithmetic. It runs before rounding. */
  predicate Accepts(cursor: nat, size: nat, end: nat) {
    (cursor + size) % W64 <= end
  }

  /** Rounded up by the size as a 32-bit number, and kept in 32 bits. */
  function At(cursor: nat, size: nat): (a: nat)
    ensures a < W32
  {
    RoundUp(cursor, size % W32) % W32
  }

  function Behind(cursor: nat, size: nat): (a: nat)
    ensures a < W32
  {
    (At(cursor, size) + size % W32) % W32
  }

  function Cursor(responses: seq<nat>, k: nat, io: nat, mem: nat): nat
    requires k < |responses|
  {
    if KindOf(responses[k]) == Io then io else mem
  }

  function NextReg(responses: seq<nat>, k: nat, accepted: bool): (n: nat)
    requires k < |responses|
    ensures n == k + 1 || n == k + 2
  {
    if accepted && KindOf(responses[k]) == Mem64 then k + 2 else k + 1
  }

  function TurnAt(responses: seq<nat>, k: nat, io: nat, mem: nat, ioEnd: nat, memEnd: nat): Turn
    requires |responses| == 7 && k < 6
  {
    var ok := Accepts(Cursor(responses, k, io, mem), BarSize(responses, k), Cursor(responses, k, ioEnd, memEnd));
    Turn(k, io, mem, ok)
  }

  /** The cursors a turn leaves. */
  function IoAfter(responses: seq<nat>, t: Turn): nat
    requires |responses| == 7 && t.reg < 6
  {
    if t.accepted && KindOf(responses[t.reg]) == Io then Behind(t.io, BarSize(responses, t.reg)) else t.io
  }

  function MemAfter(responses: seq<nat>, t: Turn): nat
    requires |responses| == 7 && t.reg < 6
  {
    if t.accepted && KindOf(responses[t.reg]) != Io then Behind(t.mem, BarSize(responses, t.reg)) else t.mem
  }

  function WalkFrom(responses: seq<nat>, k: nat, io: nat, mem: nat, ioEnd: nat, memEnd: nat): Walk
    requires |responses| == 7
    decreases 7 - k
  {
    if k > 5 then Walk([], io, mem)
    else if responses[k] == 0 then WalkFrom(responses, k + 1, io, mem, ioEnd, memEnd)
    else
      var t := TurnAt(responses, k, io, mem, ioEnd, memEnd);
      var rest := WalkFrom(responses, NextReg(responses, k, t.accepted), IoAfter(responses, t), MemAfter(responses, t),
                           ioEnd, memEnd);
      rest.(turns := [t] + rest.turns)
  }

  function RegionOf(responses: seq<nat>, t: Turn): Region
    requires |responses| == 7 && t.reg < 6
  {
    var size := BarSize(responses, t.reg);
    Region(At(Cursor(responses, t.reg, t.io, t.mem), size), size % W32)
  }

  function Stop(r: Region): nat {
    r.start + r.size
  }

  // ------------------------------------------------------------ the loop

  /** Each region is what pdev->bar holds, and its start what the register of its turn holds, with the
      one above it if it is a 64-bit one. */
  ghost predicate Recorded(responses: seq<nat>, turns: seq<Turn>, bars: seq<Region>, regs: seq<nat>)
    requires |responses| == 7
  {
    && |bars| == 6 && |regs| == 7
    && (forall i :: 0 <= i < |turns| ==> turns[i].reg < 6)
    && (forall i :: 0 <= i < |turns| && turns[i].accepted ==>
          bars[turns[i].reg] == RegionOf(responses, turns[i])
          && Holds(responses, turns[i], regs))
  }

  /** What a register and, for a 64-bit BAR, the one above it hold is the start of the region. */
  ghost predicate Holds(responses: seq<nat>, t: Turn, regs: seq<nat>)
    requires |responses| == |regs| == 7 && t.reg < 6
  {
    && regs[t.reg] == RegionOf(responses, t).start
    && (KindOf(responses[t.reg]) == Mem64 ==> regs[t.reg] + W32 * regs[t.reg + 1] == RegionOf(responses, t).start)
  }

  /** Register r belongs to a BAR that was given a region. */
  ghost predicate Owned(responses: seq<nat>, turns: seq<Turn>, r: nat)
    requires |responses| == 7
  {
    exists i :: 0 <= i < |turns| && Owns(responses, turns[i], r)
  }

  predicate Owns(responses: seq<nat>, t: Turn, r: nat)
    requires |responses| == 7
  {
    t.accepted && t.reg < 6 && (r == t.reg || (r == t.reg + 1 && KindOf(responses[t.reg]) == Mem64))
  }

  /** Registers below k that belong to no such BAR have been left with all ones. */
  ghost predicate OthersOnes(responses: seq<nat>, turns: seq<Turn>, regs: seq<nat>, k: nat)
    requires |responses| == |regs| == 7
  {
    forall r :: 0 <= r < k && r < 7 && !Owned(responses, turns, r) ==> regs[r] == 0xFFFF_FFFF
  }

  /** The register above the last BAR is written only for a 64-bit answer of that one. */
  ghost predicate TopRegister(responses: seq<nat>, turns: seq<Turn>, before: seq<nat>, regs: seq<nat>)
    requires |responses| == |regs| == |before| == 7
  {
    !Owned(responses, turns, 6) ==> regs[6] == if AskedAbove(responses, turns) then 0xFFFF_FFFF else before[6]
  }

  ghost predicate AskedAbove(responses: seq<nat>, turns: seq<Turn>)
    requires |responses| == 7
  {
    exists i :: 0 <= i < |turns| && turns[i].reg == 5 && KindOf(responses[5]) == Mem64
  }

  class PciBus {
    var io: nat
    var ioSize: nat
    var mem: nat
    var memSize: nat
    /** pdev->bar, and the register file of the device: six BARs and the register above them. */
    var bars: seq<Region>
    var regs: seq<nat>

    constructor (io: nat, ioSize: nat, mem: nat, memSize: nat)
      ensures this.io == io && this.ioSize == ioSize && this.mem == mem && this.memSize == memSize
      ensures |bars| == 6 && |regs| == 7
    {
      this.io, this.ioSize, this.mem, this.memSize := io, ioSize, mem, memSize;
      bars, regs := seq(6, i => Region(0, 0)), seq(7, i => 0);
    }

    /** Cursor and remaining size of both windows add up to their ends, in 32 bits. */
    predicate Windows(ioEnd: nat, memEnd: nat)
      reads this
    {
      && |bars| == 6 && |regs| == 7
      && io < W32 && mem < W32 && ioSize < W32 && memSize < W32
      && (io + ioSize) % W32 == ioEnd && (mem + memSize) % W32 == memEnd
    }

    /** pcie_alloc_bars: the turns are those of WalkFrom, each region is recorded, the cursors
        are where the walk leaves them, and registers without a turn keep their regions. Any bus
        state will do, also one that an earlier device left with a cursor past the window's end. */
    method AllocBars(responses: seq<nat>) returns (ghost turns: seq<Turn>)
      requires |responses| == 7 && |bars| == 6 && |regs| == 7
      requires io < W32 && ioSize < W32 && mem < W32 && memSize < W32
      modifies this
      ensures Windows(old(io + ioSize) % W32, old(mem + memSize) % W32)
      ensures var w := WalkFrom(responses, 0, old(io), old(mem), old(io + ioSize) % W32, old(mem + memSize) % W32);
              turns == w.turns && io == w.io && mem == w.mem
      ensures Recorded(responses, turns, bars, regs)
      ensures KeptBars(turns, old(bars), bars)
      ensures OthersOnes(responses, turns, regs, 6) && TopRegister(responses, turns, old(regs), regs)
    {
      hide WalkFrom, Recorded, KeptBars, Before, OthersOnes, TopRegister;
      ghost var before, top := bars, regs;
      var ioEnd, memEnd := (io + ioSize) % W32, (mem + memSize) % W32;
      ghost var walk := WalkFrom(responses, 0, io, mem, ioEnd, memEnd);
      turns := [];
      NothingYet(responses, bars, regs);
      assert [] + walk.turns == walk.turns;
      var bar := BASE_ADDRESS_0;
      while bar <= BASE_ADDRESS_5
        invariant BASE_ADDRESS_0 <= bar && bar % 4 == 0 && Windows(ioEnd, memEnd)
        invariant Ahead(responses, turns, (bar - BASE_ADDRESS_0) / 4, ioEnd, memEnd) == walk
        invariant Before(responses, turns, (bar - BASE_ADDRESS_0) / 4) && Recorded(responses, turns, bars, regs)
        invariant KeptBars(turns, before, bars)
        invariant OthersOnes(responses, turns, regs, (bar - BASE_ADDRESS_0) / 4)
        invariant TopRegister(responses, turns, top, regs)
        decreases BASE_ADDRESS_5 - bar
      {
        bar, turns := AllocBar(responses, bar, turns, ioEnd, memEnd, before, top);
      }
      FewerOnes(responses, turns, regs, (bar - BASE_ADDRESS_0) / 4);
      WalkEnds(responses, (bar - BASE_ADDRESS_0) / 4, io, mem, ioEnd, memEnd);
      assert turns + [] == turns;
    }

    /** What has been walked, and what is still to come. */
    ghost function Ahead(responses: seq<nat>, turns: seq<Turn>, k: nat, ioEnd: nat, memEnd: nat): Walk
      requires |responses| == 7
      reads this
    {
      var rest := WalkFrom(responses, k, io, mem, ioEnd, memEnd);
      rest.(turns := turns + rest.turns)
    }

    /** One turn of the loop. */
    method AllocBar(responses: seq<nat>, bar: nat, ghost turns: seq<Turn>, ioEnd: nat, memEnd: nat,
                    ghost before: seq<Region>, ghost top: seq<nat>)
      returns (next: nat, ghost more: seq<Turn>)
      requires |responses| == 7 && BASE_ADDRESS_0 <= bar <= BASE_ADDRESS_5 && bar % 4 == 0 && Windows(ioEnd, memEnd)
      requires Before(responses, turns, (bar - BASE_ADDRESS_0) / 4) && Recorded(responses, turns, bars, regs)
      requires KeptBars(turns, before, bars) && |top| == 7
      requires OthersOnes(responses, turns, regs, (bar - BASE_ADDRESS_0) / 4)
      requires TopRegister(responses, turns, top, regs)
      modifies this
      ensures bar < next && next % 4 == 0 && Windows(ioEnd, memEnd)
      ensures Before(responses, more, (next - BASE_ADDRESS_0) / 4) && Recorded(responses, more, bars, regs)
      ensures KeptBars(more, before, bars)
      ensures OthersOnes(responses, more, regs, (next - BASE_ADDRESS_0) / 4) && TopRegister(responses, more, top, regs)
      ensures Ahead(responses, more, (next - BASE_ADDRESS_0) / 4, ioEnd, memEnd)
           == old(Ahead(responses, turns, (bar - BASE_ADDRESS_0) / 4, ioEnd, memEnd))
    {
      hide BarSize, KindOf, At, Behind, WalkFrom, Recorded, KeptBars, Before, OthersOnes, TopRegister;
      hide RegionOf, Cursor, Accepts, IoAfter, MemAfter, Holds;
      var k := (bar - BASE_ADDRESS_0) / 4;
      ghost var w := WalkFrom(responses, k, io, mem, ioEnd, memEnd);
      ghost var bars0, regs0 := bars, regs;
      regs := regs[k := ONES];
      if responses[k] == 0 {
        WalkSkips(responses, k, io, mem, ioEnd, memEnd);
        NoTurn(responses, turns, k, before, bars0, regs0, regs, top);
        return bar + 4, turns;
      }
      ghost var t := TurnAt(responses, k, io, mem, ioEnd, memEnd);
      WalkSteps(responses, k, io, mem, ioEnd, memEnd);
      more := turns + [t];
      hide TurnAt;
      var ok := Place(responses, k, ioEnd, memEnd);
      next := if ok && KindOf(responses[k]) == Mem64 then bar + 8 else bar + 4;
      OneMore(responses, turns, t, before, bars0, regs0, bars, regs, top);
      ghost var rest := WalkFrom(responses, (next - BASE_ADDRESS_0) / 4, io, mem, ioEnd, memEnd);
      assert turns + [t] + rest.turns == turns + ([t] + rest.turns);
    }

    /** Size the register, and give it its region if the check passes. */
    method Place(responses: seq<nat>, k: nat, ioEnd: nat, memEnd: nat) returns (ok: bool)
      requires |responses| == 7 && k < 6 && Windows(ioEnd, memEnd)
      modifies this
      ensures var t := TurnAt(responses, k, old(io), old(mem), ioEnd, memEnd);
              && ok == t.accepted && Windows(ioEnd, memEnd)
              && io == IoAfter(responses, t) && mem == MemAfter(responses, t)
              && bars == (if ok then old(bars)[k := RegionOf(responses, t)] else old(bars))
              && |regs| == 7 && KeptRegisters(responses, k, old(regs), regs)
              && if ok then Holds(responses, t, regs)
                 else regs[k] == old(regs)[k] && (KindOf(responses[k]) == Mem64 ==> regs[k + 1] == ONES)
    {
      hide BarSize, KindOf, At, Behind, Accepts, TurnAt, IoAfter, MemAfter, RegionOf;
      TurnIs(responses, k, io, mem, ioEnd, memEnd);
      var size, kind := BarSize(responses, k), KindOf(responses[k]);
      if kind == Mem64 {
        regs := regs[k + 1 := ONES];
      }
      var cursor, left := if kind == Io then io else mem, if kind == Io then ioSize else memSize;
      ok := Accepts(cursor, size, (cursor + left) % W32);
      if ok {
        var at := At(cursor, size);
        Advance(kind == Io, Behind(cursor, size), ioEnd, memEnd);
        bars := bars[k := Region(at, size % W32)];
        regs := regs[k := at];
        if kind == Mem64 {
          regs := regs[k + 1 := at / W32];
        }
      }
    }

    /** Store the cursor back, and what is left of its window. */
    method Advance(inIo: bool, cursor: nat, ioEnd: nat, memEnd: nat)
      requires Windows(ioEnd, memEnd) && cursor < W32
      modifies this`io, this`ioSize, this`mem, this`memSize
      ensures Windows(ioEnd, memEnd)
      ensures io == (if inIo then cursor else old(io)) && mem == if inIo then old(mem) else cursor
    {
      if inIo {
        io := cursor;
        ioSize := (ioEnd - io) % W32;
        Remaining(io, ioEnd);
      } else {
        mem := cursor;
        memSize := (memEnd - mem) % W32;
        Remaining(mem, memEnd);
      }
    }
  }

  /** Only register k and, above a 64-bit one, the next have changed. */
  predicate KeptRegisters(responses: seq<nat>, k: nat, before: seq<nat>, regs: seq<nat>)
    requires |responses| == |before| == |regs| == 7 && k < 6
  {
    forall r :: 0 <= r < 7 && r != k && (r == k + 1 ==> KindOf(responses[k]) != Mem64) ==> regs[r] == before[r]
  }

  lemma NothingYet(responses: seq<nat>, bars: seq<Region>, regs: seq<nat>)
    requires |responses| == 7 && |bars| == 6 && |regs| == 7
    ensures Recorded(responses, [], bars, regs) && KeptBars([], bars, bars) && Before(responses, [], 0)
    ensures OthersOnes(responses, [], regs, 0) && TopRegister(responses, [], regs, regs)
  {
  }

  lemma WalkEnds(responses: seq<nat>, k: nat, io: nat, mem: nat, ioEnd: nat, memEnd: nat)
    requires |responses| == 7 && 5 < k
    ensures WalkFrom(responses, k, io, mem, ioEnd, memEnd) == Walk([], io, mem)
  {
  }

  lemma WalkSkips(responses: seq<nat>, k: nat, io: nat, mem: nat, ioEnd: nat, memEnd: nat)
    requires |responses| == 7 && k < 6 && responses[k] == 0
    ensures WalkFrom(responses, k, io, mem, ioEnd, memEnd) == WalkFrom(responses, k + 1, io, mem, ioEnd, memEnd)
  {
  }

  lemma WalkSteps(responses: seq<nat>, k: nat, io: nat, mem: nat, ioEnd: nat, memEnd: nat)
    requires |responses| == 7 && k < 6 && responses[k] != 0
    ensures var t := TurnAt(responses, k, io, mem, ioEnd, memEnd);
            var rest := WalkFrom(responses, NextReg(responses, k, t.accepted),
                                 IoAfter(responses, t), MemAfter(responses, t), ioEnd, memEnd);
            WalkFrom(responses, k, io, mem, ioEnd, memEnd) == rest.(turns := [t] + rest.turns)
  {
  }

  lemma FewerOnes(responses: seq<nat>, turns: seq<Turn>, regs: seq<nat>, k: nat)
    requires |responses| == |regs| == 7 && 6 <= k && OthersOnes(responses, turns, regs, k)
    ensures OthersOnes(responses, turns, regs, 6)
  {
    hide Owned;
  }

  /** A register that answers zero keeps all ones. */
  lemma NoTurn(responses: seq<nat>, turns: seq<Turn>, k: nat, before: seq<Region>, bars: seq<Region>,
               regs: seq<nat>, regs': seq<nat>, top: seq<nat>)
    requires |responses| == |regs| == |top| == 7 && k < 6 && Before(responses, turns, k)
    requires Recorded(responses, turns, bars, regs) && KeptBars(turns, before, bars)
    requires OthersOnes(responses, turns, regs, k) && TopRegister(responses, turns, top, regs)
    requires regs' == regs[k := ONES]
    ensures Recorded(responses, turns, bars, regs') && KeptBars(turns, before, bars)
    ensures Before(responses, turns, k + 1)
    ensures OthersOnes(responses, turns, regs', k + 1) && TopRegister(responses, turns, top, regs')
  {
    hide RegionOf, KindOf, Owned;
    forall i | 0 <= i < |turns| && turns[i].accepted
      ensures Holds(responses, turns[i], regs')
    {
      assert NextReg(responses, turns[i].reg, true) <= k;
    }
  }

  lemma TurnIs(responses: seq<nat>, k: nat, io: nat, mem: nat, ioEnd: nat, memEnd: nat)
    requires |responses| == 7 && k < 6
    ensures var t := TurnAt(responses, k, io, mem, ioEnd, memEnd);
            var inIo, size := KindOf(responses[k]) == Io, BarSize(responses, k);
            var cursor := if inIo then io else mem;
            && t.reg == k && t.accepted == Accepts(cursor, size, if inIo then ioEnd else memEnd)
            && IoAfter(responses, t) == (if t.accepted && inIo then Behind(io, size) else io)
            && MemAfter(responses, t) == (if t.accepted && !inIo then Behind(mem, size) else mem)
            && RegionOf(responses, t) == Region(At(cursor, size), size % W32)
  {
    hide BarSize, KindOf, At, Behind, Accepts;
  }

  lemma OneMore(responses: seq<nat>, turns: seq<Turn>, t: Turn, before: seq<Region>,
                bars: seq<Region>, regs: seq<nat>, bars': seq<Region>, regs': seq<nat>, top: seq<nat>)
    requires |responses| == |regs| == |regs'| == |top| == 7 && t.reg < 6 && Before(responses, turns, t.reg)
    requires Recorded(responses, turns, bars, regs) && KeptBars(turns, before, bars)
    requires OthersOnes(responses, turns, regs, t.reg) && TopRegister(responses, turns, top, regs)
    requires bars' == if t.accepted then bars[t.reg := RegionOf(responses, t)] else bars
    requires KeptRegisters(responses, t.reg, regs, regs')
    requires if t.accepted then Holds(responses, t, regs')
             else regs'[t.reg] == ONES && (KindOf(responses[t.reg]) == Mem64 ==> regs'[t.reg + 1] == ONES)
    ensures Recorded(responses, turns + [t], bars', regs') && KeptBars(turns + [t], before, bars')
    ensures var next := NextReg(responses, t.reg, t.accepted);
            && Before(responses, turns + [t], next) && OthersOnes(responses, turns + [t], regs', next)
            && TopRegister(responses, turns + [t], top, regs')
  {
    hide RegionOf, KindOf, Owned;
    var all := turns + [t];
    forall i | 0 <= i < |turns| && turns[i].accepted
      ensures Holds(responses, turns[i], regs')
    {
      assert NextReg(responses, turns[i].reg, true) <= t.reg;
    }
    assert all[|turns|] == t;
    assert forall i :: 0 <= i < |turns| ==> all[i] == turns[i];
    forall r: nat | r < 7
      ensures Owned(responses, all, r) <==> Owned(responses, turns, r) || Owns(responses, t, r)
    {
      OwnedMore(responses, turns, t, r);
    }
    NoneAbove(responses, turns, t.reg);
  }

  lemma OwnedMore(responses: seq<nat>, turns: seq<Turn>, t: Turn, r: nat)
    requires |responses| == 7
    ensures Owned(responses, turns + [t], r) <==> Owned(responses, turns, r) || Owns(responses, t, r)
  {
    hide Owns;
    var all := turns + [t];
    assert all[|turns|] == t;
    assert forall i :: 0 <= i < |turns| ==> all[i] == turns[i];
  }

  /** The registers from the next one on belong to no BAR yet. */
  lemma NoneAbove(responses: seq<nat>, turns: seq<Turn>, k: nat)
    requires |responses| == 7 && k < 6 && Before(responses, turns, k)
    ensures forall r: nat :: k <= r ==> !Owned(responses, turns, r)
    ensures !AskedAbove(responses, turns)
  {
    hide KindOf;
  }

  /** The turns so far are over with the registers below k. */
  ghost predicate Before(responses: seq<nat>, turns: seq<Turn>, k: int)
    requires |responses| == 7
  {
    forall i :: 0 <= i < |turns| ==> turns[i].reg < 6 && NextReg(responses, turns[i].reg, turns[i].accepted) <= k
  }

  /** Register k has been given a region. */
  ghost predicate Given(turns: seq<Turn>, k: nat) {
    exists i :: 0 <= i < |turns| && turns[i].accepted && turns[i].reg == k
  }

  /** Registers that got no region keep what pdev->bar had for them. */
  ghost predicate KeptBars(turns: seq<Turn>, before: seq<Region>, bars: seq<Region>) {
    && |before| == |bars| == 6
    && forall k :: 0 <= k < 6 && !Given(turns, k) ==> bars[k] == before[k]
  }

  lemma Remaining(cursor: nat, end: nat)
    requires cursor < W32 && end < W32
    ensures 0 <= (end - cursor) % W32 < W32 && (cursor + (end - cursor) % W32) % W32 == end
  {
  }

  // ------------------------------------------------------------ sizes

  /** The upper half of a 64-bit BAR answers all ones below 4 GiB, and otherwise the complement of
      the size in units of 4 GiB. */
  lemma UpperHalf(responses: seq<nat>, k: nat)
    requires |responses| == 7 && k < 6
    requires Conforming(responses) && IsStart(responses, k) && KindOf(responses[k]) == Mem64
    ensures exists j: nat :: j < 32 && responses[k + 1] == W32 - Pow2(j)
    ensures 0 < responses[k + 1]
  {
    hide Pow2, Conforming;
    var low, up, size := responses[k], responses[k + 1], BarSize(responses, k);
    Pow2Of64();
    StartSize(responses, k);
    var n: nat :| size == Pow2(n);
    WideSize(up, low, size);
    if n >= 64 {
      Pow2Grows(64, n);
    }
    var j := if n < 32 then 0 else n - 32;
    if n < 32 {
      Pow2Grows(n, 32);
      Pow2Zero();
      UpperOf(up, low - low % 16, 1, size);
    } else {
      Pow2Split(n - 32, 32);
      UpperOf(up, low - low % 16, Pow2(n - 32), size);
    }
    assert up == W32 - Pow2(j);
    Pow2Split(31, 1);
    Pow2Grows(j, 31);
  }

  lemma StartSize(responses: seq<nat>, k: nat)
    requires Conforming(responses) && k < 6 && IsStart(responses, k) && responses[k] != 0
    ensures PowerOfTwo(BarSize(responses, k)) && responses[k] < W32 && responses[k + 1] < W32
  {
  }

  lemma Pow2Zero()
    ensures Pow2(0) == 1
  {
  }

  lemma WideSize(up: nat, low: nat, size: nat)
    requires up < W32 && low < W32 && size == (W64 - (up * W32 + low - (up * W32 + low) % 16)) % W64
    ensures size < W64 && (0 < size ==> up * W32 + (low - low % 16) == W64 - size)
  {
    ShiftMod(low, up * 0x1000_0000, 16);
    assert up * W32 + low == low + up * 0x1000_0000 * 16;
    var v := up * W32 + low - low % 16;
    if 0 < v {
      Small(W64 - v);
    }
  }

  lemma UpperOf(up: nat, base: nat, m: nat, size: nat)
    requires up < W32 && base < W32 && up * W32 + base == W64 - size
    requires 0 < m && (if m == 1 && size <= W32 then 0 < size else size == m * W32)
    ensures up == W32 - m
  {
  }

  /** Sized alone, such a half asks for a power of two as well, unless it reads as a 64-bit BAR
      of its own, which then takes sixteen bytes or no less than 4 GiB. */
  lemma HalfAlone(up: nat, above: nat, j: nat)
    requires up == W32 - Pow2(j) && j < 32 && above < W32
    ensures var size := BarSize([up, above], 0);
            0 < size <= WIDEST && (size < W32 ==> PowerOfTwo(size))
            && (KindOf(up) == Mem64 && size < W32 ==> above == W32 - 1)
  {
    hide PowerOfTwo, BarSize, KindOf;
    FirstPowers();
    hide Pow2;
    IsPower(2);
    IsPower(4);
    if j < 4 {
      HalfOfFew(up, above);
    } else {
      PowerInSixteens(j);
      HalfOfMany(up, above, Pow2(j - 4));
      IsPower(j);
    }
  }

  lemma FirstPowers()
    ensures Pow2(0) == 1 && Pow2(1) == 2 && Pow2(2) == 4 && Pow2(3) == 8 && Pow2(4) == 16
  {
    assert Pow2(2) == 4;
  }

  lemma PowerInSixteens(j: nat)
    requires 4 <= j < 32
    ensures Pow2(j) == 16 * Pow2(j - 4) && Pow2(j - 4) <= 0x800_0000
  {
    hide Pow2;
    FirstPowers();
    Pow2Split(j - 4, 4);
    Pow2Of64();
    Pow2Split(28, 4);
    Pow2Split(27, 1);
    Pow2Grows(j - 4, 27);
  }

  lemma IsPower(j: nat)
    ensures PowerOfTwo(Pow2(j))
  {
  }

  lemma HalfOfFew(up: nat, above: nat)
    requires above < W32 && up in {0xFFFF_FFFF, 0xFFFF_FFFE, 0xFFFF_FFFC, 0xFFFF_FFF8}
    ensures var size := BarSize([up, above], 0);
            if up == 0xFFFF_FFFF then KindOf(up) == Io && size == 4
            else if up == 0xFFFF_FFFC then KindOf(up) == Mem64 && size == (W32 - 1 - above) * W32 + 16
            else KindOf(up) == Mem32 && size == 16
  {
    if up == 0xFFFF_FFFC {
      WideHalf(above);
    } else {
      hide Pow2;
    }
  }

  lemma WideHalf(above: nat)
    requires above < W32
    ensures KindOf(0xFFFF_FFFC) == Mem64
    ensures BarSize([0xFFFF_FFFC, above], 0) == (W32 - 1 - above) * W32 + 16
  {
    var wide := above * W32 + 0xFFFF_FFFC;
    assert wide % 16 == 12;
    var v := W64 - (wide - 12);
    assert v == (W32 - 1 - above) * W32 + 16;
    Small(v);
  }

  lemma HalfOfMany(up: nat, above: nat, m: nat)
    requires above < W32 && 0 < m <= 0x800_0000 && up == W32 - 16 * m
    ensures KindOf(up) == Mem32 && BarSize([up, above], 0) == 16 * m
  {
    var n := 0x1000_0000 - m;
    assert KindOf(up) == Mem32 by {
      assert up == 16 * n && up / 2 == 8 * n;
    }
    assert up % 16 == 0 by {
      assert up == 16 * n;
    }
    DivModUnique(W64 - up, W32, W32 - 1, 16 * m);
    hide KindOf;
  }

  lemma SameSize(responses: seq<nat>, k: nat)
    requires k + 1 < |responses|
    ensures BarSize(responses, k) == BarSize([responses[k], responses[k + 1]], 0)
  {
  }

  /** Whatever register the loop sizes, a size it can accept is a power of two. */
  lemma SizeFine(responses: seq<nat>, k: nat)
    requires Conforming(responses) && k < 6 && responses[k] != 0
    ensures var size := BarSize(responses, k);
            0 < size <= WIDEST && (size < W32 ==> PowerOfTwo(size))
    ensures !IsStart(responses, k) && KindOf(responses[k]) == Mem64 && BarSize(responses, k) < W32 ==>
              responses[k + 1] == W32 - 1
  {
    Pow2Of64();
    if IsStart(responses, k) {
      var n: nat :| BarSize(responses, k) == Pow2(n);
      if n >= 64 {
        Pow2Grows(64, n);
      }
      Pow2Grows(n, 63);
      assert Pow2(63) * 2 == Pow2(64);
    } else {
      UpperHalf(responses, k - 1);
      var j: nat :| j < 32 && responses[k] == W32 - Pow2(j);
      HalfAlone(responses[k], responses[k + 1], j);
      SameSize(responses, k);
    }
  }

  // ------------------------------------------------------------ layout

  function SizeOf(responses: seq<nat>, t: Turn): nat
    requires |responses| == 7 && t.reg < 6
  {
    BarSize(responses, t.reg)
  }

  function CursorOf(responses: seq<nat>, t: Turn): nat
    requires |responses| == 7 && t.reg < 6
  {
    Cursor(responses, t.reg, t.io, t.mem)
  }

  function EndOf(responses: seq<nat>, t: Turn, ioEnd: nat, memEnd: nat): nat
    requires |responses| == 7 && t.reg < 6
  {
    Cursor(responses, t.reg, ioEnd, memEnd)
  }

  predicate SameSpace(responses: seq<nat>, t: Turn, u: Turn)
    requires |responses| == 7 && t.reg < 6 && u.reg < 6
  {
    KindOf(responses[t.reg]) == Io <==> KindOf(responses[u.reg]) == Io
  }

  predicate OnBoard(turns: seq<Turn>) {
    forall i :: 0 <= i < |turns| ==> turns[i].reg < 6
  }

  /** No sum of an accepted turn has wrapped. */
  predicate NoWrap(responses: seq<nat>, t: Turn, ioEnd: nat, memEnd: nat)
    requires |responses| == 7 && t.reg < 6
  {
    t.accepted ==>
      CursorOf(responses, t) + SizeOf(responses, t) <= EndOf(responses, t, ioEnd, memEnd)
      && Stop(RegionOf(responses, t)) < W32
  }

  predicate NoneWraps(responses: seq<nat>, turns: seq<Turn>, ioEnd: nat, memEnd: nat)
    requires |responses| == 7 && OnBoard(turns)
  {
    forall i :: 0 <= i < |turns| ==> NoWrap(responses, turns[i], ioEnd, memEnd)
  }

  lemma {:induction false} WalkOnBoard(responses: seq<nat>, k: nat, io: nat, mem: nat, ioEnd: nat, memEnd: nat)
    requires |responses| == 7
    ensures var w := WalkFrom(responses, k, io, mem, ioEnd, memEnd);
            OnBoard(w.turns) && forall i :: 0 <= i < |w.turns| ==> k <= w.turns[i].reg
    decreases 7 - k
  {
    hide BarSize, KindOf, At, Behind;
    if k <= 5 {
      if responses[k] == 0 {
        WalkOnBoard(responses, k + 1, io, mem, ioEnd, memEnd);
      } else {
        var t := TurnAt(responses, k, io, mem, ioEnd, memEnd);
        WalkOnBoard(responses, NextReg(responses, k, t.accepted), IoAfter(responses, t), MemAfter(responses, t),
                    ioEnd, memEnd);
      }
    }
  }

  /** A region that has been accepted and does not wrap is naturally aligned, at the least such
      place from its cursor on, and the cursor moves right behind it. */
  lemma TurnPlaces(responses: seq<nat>, t: Turn, ioEnd: nat, memEnd: nat)
    requires |responses| == 7 && Conforming(responses) && t.reg < 6 && responses[t.reg] != 0
    requires t.accepted && NoWrap(responses, t, ioEnd, memEnd) && ioEnd < W32 && memEnd < W32
    ensures var r, size := RegionOf(responses, t), SizeOf(responses, t);
            && r.size == size && PowerOfTwo(size) && 0 < size && r.start % size == 0
            && LeastMultiple(r.start, CursorOf(responses, t), size)
            && CursorOf(responses, t) <= r.start
            && IoAfter(responses, t) == (if KindOf(responses[t.reg]) == Io then Stop(r) else t.io)
            && MemAfter(responses, t) == (if KindOf(responses[t.reg]) == Io then t.mem else Stop(r))
  {
    hide BarSize, KindOf, At, Behind, LeastMultiple, PowerOfTwo, Conforming;
    SizeFine(responses, t.reg);
    PlaceFacts(CursorOf(responses, t), SizeOf(responses, t), EndOf(responses, t, ioEnd, memEnd));
  }

  lemma PlaceFacts(cursor: nat, size: nat, end: nat)
    requires 0 < size && (size < W32 ==> PowerOfTwo(size)) && cursor + size <= end < W32
    ensures size < W32 && size % W32 == size && PowerOfTwo(size)
    ensures At(cursor, size) == RoundUp(cursor, size) && LeastMultiple(At(cursor, size), cursor, size)
    ensures At(cursor, size) % size == 0 && cursor <= At(cursor, size) < cursor + size
    ensures At(cursor, size) + size < W32 ==> Behind(cursor, size) == At(cursor, size) + size
  {
    hide PowerOfTwo, RoundUp, LeastMultiple;
    assert size % W32 == size;
    RoundUpIsLeast(cursor, size);
    LeastFacts(RoundUp(cursor, size), cursor, size);
  }

  lemma LeastFacts(v: nat, x: nat, s: nat)
    requires s > 0 && LeastMultiple(v, x, s)
    ensures v % s == 0 && x <= v < x + s
  {
  }

  /** t finds the cursors at or behind these. */
  predicate Beyond(t: Turn, io: nat, mem: nat) {
    io <= t.io && mem <= t.mem
  }

  predicate AllBeyond(turns: seq<Turn>, io: nat, mem: nat) {
    forall i :: 0 <= i < |turns| ==> Beyond(turns[i], io, mem)
  }

  predicate NoneZero(responses: seq<nat>, turns: seq<Turn>)
    requires |responses| == 7 && OnBoard(turns)
  {
    forall i :: 0 <= i < |turns| ==> responses[turns[i].reg] != 0
  }

  /** The two regions do not overlap, and lie in the order of their registers. */
  predicate InOrder(responses: seq<nat>, t: Turn, u: Turn)
    requires |responses| == 7 && t.reg < 6 && u.reg < 6
  {
    t.accepted && u.accepted && SameSpace(responses, t, u) ==>
      Stop(RegionOf(responses, t)) <= RegionOf(responses, u).start
  }

  /** As long as nothing wraps, cursors only grow, and the regions of a space are disjoint and in
      register order. */
  lemma {:induction false} WalkOrders(responses: seq<nat>, k: nat, io: nat, mem: nat, ioEnd: nat, memEnd: nat)
    requires |responses| == 7 && Conforming(responses) && ioEnd < W32 && memEnd < W32
    requires OnBoard(WalkFrom(responses, k, io, mem, ioEnd, memEnd).turns)
    requires NoneWraps(responses, WalkFrom(responses, k, io, mem, ioEnd, memEnd).turns, ioEnd, memEnd)
    ensures var turns := WalkFrom(responses, k, io, mem, ioEnd, memEnd).turns;
            && NoneZero(responses, turns) && AllBeyond(turns, io, mem)
            && forall i, j :: 0 <= i < j < |turns| ==> InOrder(responses, turns[i], turns[j])
    decreases 7 - k
  {
    hide BarSize, KindOf, RegionOf, NoWrap, InOrder, Conforming, LeastMultiple, PowerOfTwo;
    if k <= 5 {
      if responses[k] == 0 {
        WalkOrders(responses, k + 1, io, mem, ioEnd, memEnd);
      } else {
        var t := TurnAt(responses, k, io, mem, ioEnd, memEnd);
        var k', io', mem' := NextReg(responses, k, t.accepted), IoAfter(responses, t), MemAfter(responses, t);
        var w := WalkFrom(responses, k, io, mem, ioEnd, memEnd);
        var rest := WalkFrom(responses, k', io', mem', ioEnd, memEnd);
        assert w.turns == [t] + rest.turns;
        assert w.turns[0] == t;
        forall i | 0 <= i < |rest.turns|
          ensures rest.turns[i].reg < 6 && NoWrap(responses, rest.turns[i], ioEnd, memEnd)
        {
          assert w.turns[i + 1] == rest.turns[i];
        }
        WalkOrders(responses, k', io', mem', ioEnd, memEnd);
        TurnGrows(responses, t, ioEnd, memEnd);
        forall j | 0 <= j < |rest.turns|
          ensures Beyond(rest.turns[j], io, mem) && InOrder(responses, t, rest.turns[j])
        {
          TurnThen(responses, t, rest.turns[j], ioEnd, memEnd);
        }
      }
    }
  }

  lemma TurnGrows(responses: seq<nat>, t: Turn, ioEnd: nat, memEnd: nat)
    requires |responses| == 7 && Conforming(responses) && t.reg < 6 && responses[t.reg] != 0
    requires NoWrap(responses, t, ioEnd, memEnd) && ioEnd < W32 && memEnd < W32
    ensures t.io <= IoAfter(responses, t) && t.mem <= MemAfter(responses, t)
  {
    hide BarSize, KindOf, RegionOf, Conforming, LeastMultiple, PowerOfTwo, NoWrap;
    if t.accepted {
      TurnPlaces(responses, t, ioEnd, memEnd);
    }
  }

  /** A later turn starts where an earlier one has stopped, or behind it. */
  lemma TurnThen(responses: seq<nat>, t: Turn, u: Turn, ioEnd: nat, memEnd: nat)
    requires |responses| == 7 && Conforming(responses) && ioEnd < W32 && memEnd < W32
    requires t.reg < 6 && u.reg < 6 && responses[t.reg] != 0 && responses[u.reg] != 0
    requires NoWrap(responses, t, ioEnd, memEnd) && NoWrap(responses, u, ioEnd, memEnd)
    requires Beyond(u, IoAfter(responses, t), MemAfter(responses, t))
    ensures Beyond(u, t.io, t.mem) && InOrder(responses, t, u)
  {
    hide BarSize, KindOf, RegionOf, Conforming, LeastMultiple, PowerOfTwo, NoWrap;
    TurnGrows(responses, t, ioEnd, memEnd);
    if t.accepted && u.accepted {
      TurnPlaces(responses, t, ioEnd, memEnd);
      TurnPlaces(responses, u, ioEnd, memEnd);
    }
  }

  /** The layout of a whole device: unless a sum wraps, every region is naturally aligned, not
      below its window, and apart from the other regions of its space. */
  lemma Layout(responses: seq<nat>, io: nat, mem: nat, ioEnd: nat, memEnd: nat, i: nat)
    requires |responses| == 7 && Conforming(responses) && ioEnd < W32 && memEnd < W32
    requires OnBoard(WalkFrom(responses, 0, io, mem, ioEnd, memEnd).turns)
    requires NoneWraps(responses, WalkFrom(responses, 0, io, mem, ioEnd, memEnd).turns, ioEnd, memEnd)
    requires i < |WalkFrom(responses, 0, io, mem, ioEnd, memEnd).turns|
    ensures var turns := WalkFrom(responses, 0, io, mem, ioEnd, memEnd).turns;
            && (turns[i].accepted ==>
                  var r := RegionOf(responses, turns[i]);
                  PowerOfTwo(r.size) && 0 < r.size && r.start % r.size == 0 && r.size == SizeOf(responses, turns[i])
                  && Cursor(responses, turns[i].reg, io, mem) <= r.start)
            && (forall j :: i < j < |turns| ==> InOrder(responses, turns[i], turns[j]))
  {
    hide BarSize, KindOf, RegionOf, Conforming, LeastMultiple, PowerOfTwo, NoWrap, InOrder, WalkFrom;
    WalkOrders(responses, 0, io, mem, ioEnd, memEnd);
    var t := WalkFrom(responses, 0, io, mem, ioEnd, memEnd).turns[i];
    assert Beyond(t, io, mem);
    if t.accepted {
      TurnPlaces(responses, t, ioEnd, memEnd);
    }
  }

  // ------------------------------------------------------------ containment

  predicate Inside(responses: seq<nat>, t: Turn, ioEnd: nat, memEnd: nat)
    requires |responses| == 7 && t.reg < 6
  {
    t.accepted ==> Stop(RegionOf(responses, t)) <= EndOf(responses, t, ioEnd, memEnd)
  }

  /** What rounding skips fits into the window together with the region. */
  predicate PadFits(responses: seq<nat>, t: Turn, ioEnd: nat, memEnd: nat)
    requires |responses| == 7 && t.reg < 6
  {
    var cursor, size := CursorOf(responses, t), SizeOf(responses, t);
    t.accepted ==> 0 < size && (0 - cursor) % size <= EndOf(responses, t, ioEnd, memEnd) - cursor - size
  }

  predicate AllInside(responses: seq<nat>, turns: seq<Turn>, ioEnd: nat, memEnd: nat)
    requires |responses| == 7 && OnBoard(turns)
  {
    forall i :: 0 <= i < |turns| ==> Inside(responses, turns[i], ioEnd, memEnd)
  }

  predicate AllPadsFit(responses: seq<nat>, turns: seq<Turn>, ioEnd: nat, memEnd: nat)
    requires |responses| == 7 && OnBoard(turns)
  {
    forall i :: 0 <= i < |turns| ==> PadFits(responses, turns[i], ioEnd, memEnd)
  }

  /** The cursors are inside their windows, and those end 16 bytes below 4 GiB at the latest. */
  predicate Roomy(io: nat, mem: nat, ioEnd: nat, memEnd: nat) {
    io <= ioEnd < W32 - 16 && mem <= memEnd < W32 - 16
  }

  lemma TurnContained(responses: seq<nat>, k: nat, io: nat, mem: nat, ioEnd: nat, memEnd: nat)
    requires |responses| == 7 && Conforming(responses) && k < 6 && responses[k] != 0 && Roomy(io, mem, ioEnd, memEnd)
    ensures var t := TurnAt(responses, k, io, mem, ioEnd, memEnd);
            && (Inside(responses, t, ioEnd, memEnd) <==> PadFits(responses, t, ioEnd, memEnd))
            && (Inside(responses, t, ioEnd, memEnd) ==>
                  NoWrap(responses, t, ioEnd, memEnd)
                  && Roomy(IoAfter(responses, t), MemAfter(responses, t), ioEnd, memEnd))
  {
    hide BarSize, KindOf, At, Behind, Conforming, LeastMultiple, PowerOfTwo;
    var t := TurnAt(responses, k, io, mem, ioEnd, memEnd);
    SizeFine(responses, k);
    if t.accepted {
      var cursor, size, end := CursorOf(responses, t), SizeOf(responses, t), EndOf(responses, t, ioEnd, memEnd);
      Small(cursor + size);
      PlaceFacts(cursor, size, end);
      PaddedIff(cursor, size, end);
    }
  }

  /** The size check runs before rounding: what it accepts stays inside the window exactly when
      the padding fits as well. */
  lemma PaddedIff(cursor: nat, size: nat, end: nat)
    requires 0 < size && PowerOfTwo(size) && cursor + size <= end < W32
    ensures At(cursor, size) + size <= end <==> (0 - cursor) % size <= end - cursor - size
  {
    hide PowerOfTwo, RoundUp;
    PlaceFacts(cursor, size, end);
    RoundUpIsLeast(cursor, size);
    hide At;
  }

  /** Every region of a device lies inside its window if and only if, register by register, the
      padding of each accepted BAR fits. Both sides speak of the answers, the cursors and the
      window ends before the call. */
  lemma {:induction false} ContainedIff(responses: seq<nat>, k: nat, io: nat, mem: nat, ioEnd: nat, memEnd: nat)
    requires |responses| == 7 && Conforming(responses) && Roomy(io, mem, ioEnd, memEnd)
    ensures OnBoard(WalkFrom(responses, k, io, mem, ioEnd, memEnd).turns)
    ensures var turns := WalkFrom(responses, k, io, mem, ioEnd, memEnd).turns;
            && (AllInside(responses, turns, ioEnd, memEnd) <==> AllPadsFit(responses, turns, ioEnd, memEnd))
            && (AllInside(responses, turns, ioEnd, memEnd) ==> NoneWraps(responses, turns, ioEnd, memEnd))
    decreases 7 - k
  {
    hide BarSize, KindOf, Inside, PadFits, NoWrap, Conforming, TurnAt, IoAfter, MemAfter;
    WalkOnBoard(responses, k, io, mem, ioEnd, memEnd);
    if k <= 5 {
      if responses[k] == 0 {
        ContainedIff(responses, k + 1, io, mem, ioEnd, memEnd);
      } else {
        var t := TurnAt(responses, k, io, mem, ioEnd, memEnd);
        RegOfTurn(responses, k, io, mem, ioEnd, memEnd);
        TurnContained(responses, k, io, mem, ioEnd, memEnd);
        var k', io', mem' := NextReg(responses, k, t.accepted), IoAfter(responses, t), MemAfter(responses, t);
        var rest := WalkFrom(responses, k', io', mem', ioEnd, memEnd).turns;
        WalkOnBoard(responses, k', io', mem', ioEnd, memEnd);
        AllCons(responses, t, rest, ioEnd, memEnd);
        if Inside(responses, t, ioEnd, memEnd) {
          ContainedIff(responses, k', io', mem', ioEnd, memEnd);
        }
      }
    }
  }

  lemma RegOfTurn(responses: seq<nat>, k: nat, io: nat, mem: nat, ioEnd: nat, memEnd: nat)
    requires |responses| == 7 && k < 6
    ensures var t := TurnAt(responses, k, io, mem, ioEnd, memEnd);
            && t.reg == k && t.io == io && t.mem == mem
            && (!t.accepted ==> IoAfter(responses, t) == io && MemAfter(responses, t) == mem)
  {
  }

  lemma AllCons(responses: seq<nat>, t: Turn, rest: seq<Turn>, ioEnd: nat, memEnd: nat)
    requires |responses| == 7 && t.reg < 6 && OnBoard(rest)
    ensures OnBoard([t] + rest)
    ensures AllInside(responses, [t] + rest, ioEnd, memEnd)
            <==> Inside(responses, t, ioEnd, memEnd) && AllInside(responses, rest, ioEnd, memEnd)
    ensures AllPadsFit(responses, [t] + rest, ioEnd, memEnd)
            <==> PadFits(responses, t, ioEnd, memEnd) && AllPadsFit(responses, rest, ioEnd, memEnd)
    ensures NoWrap(responses, t, ioEnd, memEnd) && NoneWraps(responses, rest, ioEnd, memEnd)
            ==> NoneWraps(responses, [t] + rest, ioEnd, memEnd)
  {
    hide Inside, PadFits, NoWrap;
    var all := [t] + rest;
    assert all[0] == t && forall i :: 0 <= i < |rest| ==> all[i + 1] == rest[i];
  }

  /** Twice the sizes of all BARs of a space, from register k on. */
  function Need(responses: seq<nat>, k: nat, inIo: bool): nat
    requires |responses| == 7
    decreases 7 - k
  {
    if k > 5 then 0
    else if responses[k] == 0 then Need(responses, k + 1, inIo)
    else
      (if (KindOf(responses[k]) == Io) == inIo then 2 * BarSize(responses, k) else 0)
      + Need(responses, NextReg(responses, k, true), inIo)
  }

  /** Every register from k on that starts a BAR has a turn. */
  ghost predicate AllServed(responses: seq<nat>, turns: seq<Turn>, k: nat)
    requires |responses| == 7
  {
    forall r :: k <= r < 6 && IsStart(responses, r) && responses[r] != 0 ==>
      exists i :: 0 <= i < |turns| && turns[i].reg == r
  }

  /** Every turn is that of a register that starts a BAR, and gives it a region. */
  ghost predicate AllStart(responses: seq<nat>, turns: seq<Turn>)
    requires |responses| == 7
  {
    forall i :: 0 <= i < |turns| ==> turns[i].reg < 6 && turns[i].accepted && IsStart(responses, turns[i].reg)
  }

  lemma NothingServed(responses: seq<nat>, k: nat, ioEnd: nat, memEnd: nat)
    requires |responses| == 7 && 5 < k
    ensures AllInside(responses, [], ioEnd, memEnd) && AllServed(responses, [], k) && AllStart(responses, [])
  {
  }

  lemma ServedSkips(responses: seq<nat>, k: nat, turns: seq<Turn>)
    requires |responses| == 7 && k < 6 && responses[k] == 0
    ensures AllServed(responses, turns, k + 1) ==> AllServed(responses, turns, k)
  {
    hide IsStart;
  }

  lemma TurnFits(responses: seq<nat>, k: nat, io: nat, mem: nat, ioEnd: nat, memEnd: nat, room: nat)
    requires |responses| == 7 && Conforming(responses) && k < 6 && responses[k] != 0 && ioEnd < W32 && memEnd < W32
    requires Cursor(responses, k, io, mem) + 2 * BarSize(responses, k) + room <= Cursor(responses, k, ioEnd, memEnd)
    ensures var t := TurnAt(responses, k, io, mem, ioEnd, memEnd);
            && t.accepted && Inside(responses, t, ioEnd, memEnd)
            && (if KindOf(responses[k]) == Io
                then IoAfter(responses, t) + room <= ioEnd && MemAfter(responses, t) == mem
                else MemAfter(responses, t) + room <= memEnd && IoAfter(responses, t) == io)
  {
    hide BarSize, KindOf, At, Behind, Conforming, LeastMultiple, PowerOfTwo;
    SizeFine(responses, k);
    var cursor, size, end := Cursor(responses, k, io, mem), BarSize(responses, k), Cursor(responses, k, ioEnd, memEnd);
    Small(cursor + size);
    PlaceFacts(cursor, size, end);
  }

  /** Windows of twice the total size leave no BAR out, put every region inside, and let no upper
      half be taken for a BAR. */
  lemma {:induction false} RoomForAll(responses: seq<nat>, k: nat, io: nat, mem: nat, ioEnd: nat, memEnd: nat)
    requires |responses| == 7 && Conforming(responses) && k <= 7 && IsStart(responses, k)
    requires io + Need(responses, k, true) <= ioEnd < W32 - 16 && mem + Need(responses, k, false) <= memEnd < W32 - 16
    ensures OnBoard(WalkFrom(responses, k, io, mem, ioEnd, memEnd).turns)
    ensures var turns := WalkFrom(responses, k, io, mem, ioEnd, memEnd).turns;
            AllInside(responses, turns, ioEnd, memEnd) && AllServed(responses, turns, k) && AllStart(responses, turns)
    decreases 7 - k
  {
    hide BarSize, KindOf, Inside, Conforming, TurnAt, IoAfter, MemAfter, PadFits, NoWrap;
    hide WalkFrom, AllServed, AllInside, AllPadsFit, NoneWraps, AllStart;
    WalkOnBoard(responses, k, io, mem, ioEnd, memEnd);
    if k > 5 {
      WalkEnds(responses, k, io, mem, ioEnd, memEnd);
      NothingServed(responses, k, ioEnd, memEnd);
    } else {
      if responses[k] == 0 {
        WalkSkips(responses, k, io, mem, ioEnd, memEnd);
        ServedSkips(responses, k, WalkFrom(responses, k, io, mem, ioEnd, memEnd).turns);
        KindOfZero();
        RoomForAll(responses, k + 1, io, mem, ioEnd, memEnd);
      } else {
        var t := TurnAt(responses, k, io, mem, ioEnd, memEnd);
        RegOfTurn(responses, k, io, mem, ioEnd, memEnd);
        var k' := NextReg(responses, k, true);
        var inIo := KindOf(responses[k]) == Io;
        TurnFits(responses, k, io, mem, ioEnd, memEnd, Need(responses, k', inIo));
        var io', mem' := IoAfter(responses, t), MemAfter(responses, t);
        RoomForAll(responses, k', io', mem', ioEnd, memEnd);
        WalkSteps(responses, k, io, mem, ioEnd, memEnd);
        var rest := WalkFrom(responses, k', io', mem', ioEnd, memEnd).turns;
        AllCons(responses, t, rest, ioEnd, memEnd);
        ServedCons(responses, t, rest, k, k');
      }
    }
  }

  lemma KindOfZero()
    ensures KindOf(0) == Mem32
  {
  }

  lemma ServedCons(responses: seq<nat>, t: Turn, rest: seq<Turn>, k: nat, k': nat)
    requires |responses| == 7 && k < 6 && t.reg == k && k < k' <= k + 2
    requires AllServed(responses, rest, k') && (k' == k + 2 ==> !IsStart(responses, k + 1))
    ensures AllServed(responses, [t] + rest, k)
    ensures t.accepted && IsStart(responses, k) && AllStart(responses, rest) ==> AllStart(responses, [t] + rest)
  {
    hide IsStart;
    forall r | k <= r < 6 && IsStart(responses, r) && responses[r] != 0
      ensures exists i :: 0 <= i < |[t] + rest| && ([t] + rest)[i].reg == r
    {
      if r == k {
        assert ([t] + rest)[0].reg == r;
      } else {
        var i :| 0 <= i < |rest| && rest[i].reg == r;
        assert ([t] + rest)[i + 1].reg == r;
      }
    }
  }

  // ------------------------------------------------------------ upper halves taken for BARs

  /** Register r starts no BAR, and is given a region all the same. */
  ghost predicate Phantom(responses: seq<nat>, turns: seq<Turn>, r: nat)
    requires |responses| == 7 && r < 6
  {
    exists i :: 0 <= i < |turns| && PhantomTurn(responses, turns[i], r)
  }

  predicate PhantomTurn(responses: seq<nat>, t: Turn, r: nat)
    requires |responses| == 7 && r < 6
  {
    t.reg == r && t.accepted && !IsStart(responses, r)
  }

  /** The 64-bit BAR under register r - 1 has been refused, and what its upper half asks for when
      it is sized alone passes the check at that moment. */
  ghost predicate HalfFits(responses: seq<nat>, turns: seq<Turn>, r: nat, ioEnd: nat, memEnd: nat)
    requires |responses| == 7 && r < 6
  {
    exists i :: 0 <= i < |turns| && HalfFitsTurn(responses, turns[i], r, ioEnd, memEnd)
  }

  predicate HalfFitsTurn(responses: seq<nat>, t: Turn, r: nat, ioEnd: nat, memEnd: nat)
    requires |responses| == 7 && r < 6
  {
    && t.reg + 1 == r && IsStart(responses, t.reg) && KindOf(responses[t.reg]) == Mem64 && !t.accepted
    && TurnAt(responses, r, t.io, t.mem, ioEnd, memEnd).accepted
  }

  lemma PhantomCons(responses: seq<nat>, t: Turn, rest: seq<Turn>, r: nat, ioEnd: nat, memEnd: nat)
    requires |responses| == 7 && r < 6
    ensures Phantom(responses, [t] + rest, r) <==> PhantomTurn(responses, t, r) || Phantom(responses, rest, r)
    ensures HalfFits(responses, [t] + rest, r, ioEnd, memEnd)
            <==> HalfFitsTurn(responses, t, r, ioEnd, memEnd) || HalfFits(responses, rest, r, ioEnd, memEnd)
  {
    hide PhantomTurn, HalfFitsTurn;
    var all := [t] + rest;
    assert all[0] == t && forall i :: 0 <= i < |rest| ==> all[i + 1] == rest[i];
    assert forall i :: 0 < i < |all| ==> all[i] == rest[i - 1];
  }

  /** A register that starts no BAR is given a region exactly when the 64-bit BAR below it was
      refused and its upper half, sized alone, fits. */
  lemma {:induction false} PhantomIff(responses: seq<nat>, k: nat, io: nat, mem: nat, ioEnd: nat, memEnd: nat, r: nat)
    requires |responses| == 7 && Conforming(responses) && ioEnd < W32 && memEnd < W32
    requires k <= 7 && IsStart(responses, k) && r < 6
    requires OnBoard(WalkFrom(responses, k, io, mem, ioEnd, memEnd).turns)
    requires NoneWraps(responses, WalkFrom(responses, k, io, mem, ioEnd, memEnd).turns, ioEnd, memEnd)
    ensures var turns := WalkFrom(responses, k, io, mem, ioEnd, memEnd).turns;
            Phantom(responses, turns, r) <==> HalfFits(responses, turns, r, ioEnd, memEnd)
    decreases 7 - k, 1
  {
    hide BarSize, KindOf, NoWrap, Conforming, TurnAt, IoAfter, MemAfter;
    if k <= 5 {
      if responses[k] == 0 {
        KindOfZero();
        PhantomIff(responses, k + 1, io, mem, ioEnd, memEnd, r);
      } else {
        var t := TurnAt(responses, k, io, mem, ioEnd, memEnd);
        RegOfTurn(responses, k, io, mem, ioEnd, memEnd);
        var k', io', mem' := NextReg(responses, k, t.accepted), IoAfter(responses, t), MemAfter(responses, t);
        var rest := WalkFrom(responses, k', io', mem', ioEnd, memEnd).turns;
        RestClean(responses, t, rest, ioEnd, memEnd);
        PhantomCons(responses, t, rest, r, ioEnd, memEnd);
        if t.accepted || KindOf(responses[k]) != Mem64 {
          PhantomIff(responses, k', io', mem', ioEnd, memEnd, r);
        } else {
          AfterRefused(responses, k, io, mem, ioEnd, memEnd, r);
        }
      }
    }
  }

  lemma RestClean(responses: seq<nat>, t: Turn, rest: seq<Turn>, ioEnd: nat, memEnd: nat)
    requires |responses| == 7 && OnBoard([t] + rest) && NoneWraps(responses, [t] + rest, ioEnd, memEnd)
    ensures t.reg < 6 && NoWrap(responses, t, ioEnd, memEnd)
    ensures OnBoard(rest) && NoneWraps(responses, rest, ioEnd, memEnd)
  {
    hide NoWrap;
    var all := [t] + rest;
    assert all[0] == t && forall i :: 0 <= i < |rest| ==> all[i + 1] == rest[i];
    forall i | 0 <= i < |rest|
      ensures rest[i].reg < 6 && NoWrap(responses, rest[i], ioEnd, memEnd)
    {
      assert all[i + 1].reg < 6;
    }
  }

  lemma AfterRefused(responses: seq<nat>, k: nat, io: nat, mem: nat, ioEnd: nat, memEnd: nat, r: nat)
    requires |responses| == 7 && Conforming(responses) && ioEnd < W32 && memEnd < W32
    requires k <= 5 && IsStart(responses, k) && r < 6 && responses[k] != 0 && KindOf(responses[k]) == Mem64
    requires var t := TurnAt(responses, k, io, mem, ioEnd, memEnd); !t.accepted
    requires OnBoard(WalkFrom(responses, k + 1, io, mem, ioEnd, memEnd).turns)
    requires NoneWraps(responses, WalkFrom(responses, k + 1, io, mem, ioEnd, memEnd).turns, ioEnd, memEnd)
    ensures var t, rest := TurnAt(responses, k, io, mem, ioEnd, memEnd),
                           WalkFrom(responses, k + 1, io, mem, ioEnd, memEnd).turns;
            PhantomTurn(responses, t, r) || Phantom(responses, rest, r)
            <==> HalfFitsTurn(responses, t, r, ioEnd, memEnd) || HalfFits(responses, rest, r, ioEnd, memEnd)
    decreases 7 - k, 0
  {
    hide BarSize, KindOf, NoWrap, Conforming, IoAfter, MemAfter, TurnAt;
    var t := TurnAt(responses, k, io, mem, ioEnd, memEnd);
    RegOfTurn(responses, k, io, mem, ioEnd, memEnd);
    if k < 5 {
      UpperHalf(responses, k);
      RegOfTurn(responses, k + 1, io, mem, ioEnd, memEnd);
      var u := TurnAt(responses, k + 1, io, mem, ioEnd, memEnd);
      var k', io', mem' := NextReg(responses, k + 1, u.accepted), IoAfter(responses, u), MemAfter(responses, u);
      var rest := WalkFrom(responses, k', io', mem', ioEnd, memEnd).turns;
      RestClean(responses, u, rest, ioEnd, memEnd);
      PhantomCons(responses, u, rest, r, ioEnd, memEnd);
      if u.accepted && KindOf(responses[k + 1]) == Mem64 {
        SwallowsOneBar(responses, k + 1, u, ioEnd, memEnd);
      }
      PhantomIff(responses, k', io', mem', ioEnd, memEnd, r);
    }
  }

  /** An upper half that reads as a 64-bit BAR and is accepted takes the one-register BAR above it
      along. */
  lemma SwallowsOneBar(responses: seq<nat>, k: nat, u: Turn, ioEnd: nat, memEnd: nat)
    requires |responses| == 7 && Conforming(responses) && ioEnd < W32 && memEnd < W32
    requires 0 < k < 6 && u.reg == k && u.accepted && NoWrap(responses, u, ioEnd, memEnd)
    requires responses[k] != 0 && !IsStart(responses, k) && KindOf(responses[k]) == Mem64
    ensures IsStart(responses, k + 1) && KindOf(responses[k + 1]) == Io && IsStart(responses, k + 2)
  {
    SizeFine(responses, k);
  }

  // ------------------------------------------------------------ instances

  function Answers(low: nat, up: nat): seq<nat> {
    [low, up, 0, 0, 0, 0, 0]
  }

  /** A device with one BAR conforms if its size is a power of two; 16 GiB is fine. */
  lemma OneBarConforms(low: nat, up: nat)
    requires 0 < low < W32 && up < W32 && PowerOfTwo(BarSize(Answers(low, up), 0))
    requires if KindOf(low) == Mem64 then true else up == 0
    ensures Conforming(Answers(low, up))
  {
    hide BarSize, PowerOfTwo;
    var responses := Answers(low, up);
    assert IsStart(responses, 1) <==> KindOf(low) != Mem64;
  }

  /** Nothing is placed from the second register on. */
  lemma Tail(low: nat, up: nat, io: nat, mem: nat, ioEnd: nat, memEnd: nat)
    ensures WalkFrom(Answers(low, up), 2, io, mem, ioEnd, memEnd) == Walk([], io, mem)
    ensures up == 0 ==> WalkFrom(Answers(low, up), 1, io, mem, ioEnd, memEnd) == Walk([], io, mem)
  {
    hide BarSize, KindOf, At, Behind;
    assert WalkFrom(Answers(low, up), 4, io, mem, ioEnd, memEnd) == Walk([], io, mem);
  }

  lemma SixteenGigabytes()
    ensures Conforming(Answers(0x0000_000C, 0xFFFF_FFFC))
  {
    hide Pow2;
    FirstPowers();
    Pow2Of64();
    Pow2Split(32, 2);
    assert BarSize(Answers(0x0000_000C, 0xFFFF_FFFC), 0) == Pow2(34);
    OneBarConforms(0x0000_000C, 0xFFFF_FFFC);
  }

  /** A 2 GiB BAR that does not fit its window leaves its upper half to be given four bytes of the
      I/O window. */
  lemma HalfTaken()
    ensures var responses := Answers(0x8000_000C, 0xFFFF_FFFF);
            var turns := WalkFrom(responses, 0, 0x1000, 0x4000_0000, 0x2000, 0x5000_0000).turns;
            && Conforming(responses) && Phantom(responses, turns, 1)
            && turns == [Turn(0, 0x1000, 0x4000_0000, false), Turn(1, 0x1000, 0x4000_0000, true)]
            && RegionOf(responses, turns[1]) == Region(0x1000, 4)
  {
    hide BarSize, KindOf, At, Behind, PowerOfTwo, Conforming, TurnAt, WalkFrom;
    var responses := Answers(0x8000_000C, 0xFFFF_FFFF);
    TwoGigabytes();
    FourByteRegion();
    HalfTurns();
    var t := TurnAt(responses, 0, 0x1000, 0x4000_0000, 0x2000, 0x5000_0000);
    var u := TurnAt(responses, 1, 0x1000, 0x4000_0000, 0x2000, 0x5000_0000);
    WalkSteps(responses, 0, 0x1000, 0x4000_0000, 0x2000, 0x5000_0000);
    WalkSteps(responses, 1, 0x1000, 0x4000_0000, 0x2000, 0x5000_0000);
    Tail(0x8000_000C, 0xFFFF_FFFF, 0x1004, 0x4000_0000, 0x2000, 0x5000_0000);
    assert WalkFrom(responses, 0, 0x1000, 0x4000_0000, 0x2000, 0x5000_0000).turns == [t, u];
    assert PhantomTurn(responses, [t, u][1], 1);
  }

  lemma TwoGigabytes()
    ensures Conforming(Answers(0x8000_000C, 0xFFFF_FFFF))
  {
    hide Pow2;
    FirstPowers();
    Pow2Of64();
    Pow2Split(31, 1);
    assert BarSize(Answers(0x8000_000C, 0xFFFF_FFFF), 0) == Pow2(31);
    OneBarConforms(0x8000_000C, 0xFFFF_FFFF);
  }

  lemma HalfTurns()
    ensures var responses := Answers(0x8000_000C, 0xFFFF_FFFF);
            var t := TurnAt(responses, 0, 0x1000, 0x4000_0000, 0x2000, 0x5000_0000);
            var u := TurnAt(responses, 1, 0x1000, 0x4000_0000, 0x2000, 0x5000_0000);
            && t == Turn(0, 0x1000, 0x4000_0000, false) && u == Turn(1, 0x1000, 0x4000_0000, true)
            && KindOf(responses[0]) == Mem64 && KindOf(responses[1]) == Io && BarSize(responses, 1) == 4
  {
    hide KindOf, BarSize;
    HalfSizes();
  }

  lemma HalfSizes()
    ensures KindOf(0x8000_000C) == Mem64 && KindOf(0xFFFF_FFFF) == Io
    ensures BarSize(Answers(0x8000_000C, 0xFFFF_FFFF), 0) == 0x8000_0000
    ensures BarSize(Answers(0x8000_000C, 0xFFFF_FFFF), 1) == 4
  {
    assert 0xFFFF_FFFF * W32 + 0x8000_000C == 0xFFFF_FFFF_8000_000C;
  }

  lemma FourByteRegion()
    ensures At(0x1000, 4) == 0x1000 && Behind(0x1000, 4) == 0x1004
  {
    hide RoundUp, Pow2, LeastMultiple;
    FirstPowers();
    IsPower(2);
    RoundUpIsLeast(0x1000, 4);
    LeastFacts(RoundUp(0x1000, 4), 0x1000, 4);
  }

  /** A 4 KiB BAR accepted into a window that starts and ends in the middle of a page sticks out. */
  lemma SticksOut()
    ensures var responses := Answers(0xFFFF_F000, 0);
            var turns := WalkFrom(responses, 0, 0x1000, 0x4000_0800, 0x2000, 0x4000_1800).turns;
            && Conforming(responses) && turns == [Turn(0, 0x1000, 0x4000_0800, true)]
            && RegionOf(responses, turns[0]) == Region(0x4000_1000, 0x1000)
            && Stop(RegionOf(responses, turns[0])) > 0x4000_1800
  {
    hide BarSize, KindOf, At, PowerOfTwo, Conforming, TurnAt, WalkFrom;
    var responses := Answers(0xFFFF_F000, 0);
    PageRegion();
    var t := TurnAt(responses, 0, 0x1000, 0x4000_0800, 0x2000, 0x4000_1800);
    WalkSteps(responses, 0, 0x1000, 0x4000_0800, 0x2000, 0x4000_1800);
    Tail(0xFFFF_F000, 0, IoAfter(responses, t), MemAfter(responses, t), 0x2000, 0x4000_1800);
    assert WalkFrom(responses, 0, 0x1000, 0x4000_0800, 0x2000, 0x4000_1800).turns == [t];
  }

  lemma PageRegion()
    ensures var responses := Answers(0xFFFF_F000, 0);
            && Conforming(responses) && BarSize(responses, 0) == 0x1000 && KindOf(responses[0]) == Mem32
            && TurnAt(responses, 0, 0x1000, 0x4000_0800, 0x2000, 0x4000_1800) == Turn(0, 0x1000, 0x4000_0800, true)
            && At(0x4000_0800, 0x1000) == 0x4000_1000
  {
    hide RoundUp;
    assert Pow2(4) == 16;
    Pow2Split(4, 4);
    Pow2Split(8, 4);
    assert BarSize(Answers(0xFFFF_F000, 0), 0) == Pow2(12);
    OneBarConforms(0xFFFF_F000, 0);
    RoundUpIsLeast(0x4000_0800, 0x1000);
  }
}
