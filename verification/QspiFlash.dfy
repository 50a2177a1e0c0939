// The QSPI flash driver, drivers/qspi_flash/tegrabl_qspi_flash.c: write-enable and
// write-in-progress polling, sector, parameter-sector and bulk erase, chunked programming,
// and the block-granular erase that saves and restores what shares a sector.
module QspiFlash {
  import opened Arith
  import opened Buffers
  import opened NorFlash
  import opened FlashMarks

  const WE_RETRY_COUNT := 2000
  const WIP_RETRY_COUNT := 2000
  const TWO32 := 0x1_0000_0000

  datatype Error = NoError | Timeout | TransferFailed | Invalid | BadAddress | NoMemory

  /** How the transfer of an erase or program command ends: well, or with an error, in which case
      the chip may have seen the command all the same. */
  datatype Fate = Good | Unseen | Seen

  /** What a transfer other than an erase or program command is for: reading blocks, the bus mode, the
      write-enable latch, or the wait for an operation to end; or anything on behalf of the erase of
      the parameter sectors. */
  datatype Purpose = Blocks | BusMode | Latch | Waiting | Small

  /** The driver looks at the error of such a transfer, except that of a wait and those of the erase
      of the parameter sectors. */
  predicate Heeded(p: Purpose) {
    p != Waiting && p != Small
  }

  /** block_num_to_sector_num on 32-bit block numbers. */
  function BlockToSector(g: Geometry, block: nat): nat
    requires 0 < g.sectorBlocks
  {
    (block * BLOCK % TWO32) / (g.sectorBlocks * BLOCK)
  }

  lemma BlockToSectorIs(g: Geometry, block: nat)
    requires ValidGeometry(g) && block <= BlockCount(g) + g.sectorBlocks
    ensures BlockToSector(g, block) == FloorOf(block, g.sectorBlocks)
  {
    SectorQuotient(block, g.sectorBlocks);
    var bytes := block * BLOCK;
    assert 0 <= bytes < TWO32;
    assert bytes % TWO32 == bytes;
  }

  lemma SectorQuotient(block: nat, p: nat)
    requires 0 < p
    ensures (block * BLOCK) / (p * BLOCK) == block / p
  {
    var q, r := block / p, block % p;
    TimesBlock(q, p);
    assert block * BLOCK == q * (p * BLOCK) + r * BLOCK;
    DivModUnique(block * BLOCK, p * BLOCK, q, r * BLOCK);
  }

  function Spared(g: Geometry, sector: nat): nat {
    if g.hybrid && sector == 0 then g.paramSectors * PARAM_SECTOR else 0
  }

  lemma SectorByteNext(g: Geometry, sector: nat)
    requires ValidGeometry(g)
    ensures SectorByte(g, sector + 1) == SectorByte(g, sector) + g.sectorBlocks * BLOCK
    ensures forall other: nat :: other <= sector ==> SectorByte(g, other) <= SectorByte(g, sector)
    ensures sector < g.sectorCount ==> SectorByte(g, sector + 1) <= BlockCount(g) * BLOCK
  {
    forall other: nat | other <= sector
      ensures SectorByte(g, other) <= SectorByte(g, sector)
    {
      TimesGrows(other, sector, g.sectorBlocks);
    }
    if sector < g.sectorCount {
      TimesGrows(sector, g.sectorCount, g.sectorBlocks);
    }
  }

  // ------------------------------------------------------------ what a schedule makes of a loop

  ghost predicate AllGood(fate: nat -> Fate, from: nat, to: nat) {
    forall j: nat :: from <= j < to ==> fate(j) == Good
  }

  /** How many commands from the from-th on go well before one that does not, at most n. */
  ghost function GoodRun(fate: nat -> Fate, from: nat, n: nat): (k: nat)
    ensures k <= n && AllGood(fate, from, from + k) && (k < n ==> fate(from + k) != Good)
    decreases n
  {
    if n == 0 || fate(from) != Good then 0 else 1 + GoodRun(fate, from + 1, n - 1)
  }

  /** How many of n commands a loop sends that stops at the first error. */
  ghost function Sent(fate: nat -> Fate, from: nat, n: nat): nat {
    if GoodRun(fate, from, n) < n then GoodRun(fate, from, n) + 1 else n
  }

  /** How many of them take effect. */
  ghost function Taken(fate: nat -> Fate, from: nat, n: nat): (k: nat)
    ensures k <= n
  {
    var k := GoodRun(fate, from, n);
    if k < n && fate(from + k) == Seen then k + 1 else k
  }

  lemma {:induction false} GoodSoFar(fate: nat -> Fate, from: nat, n: nat, k: nat)
    requires k <= n && AllGood(fate, from, from + k) && (k < n ==> fate(from + k) != Good)
    ensures GoodRun(fate, from, n) == k
    decreases n
  {
    if 0 < n && fate(from) == Good {
      GoodSoFar(fate, from + 1, n - 1, k - 1);
    }
  }

  lemma NothingSent(fate: nat -> Fate, from: nat)
    ensures AllGood(fate, from, from)
  {
  }

  lemma OneMoreGood(fate: nat -> Fate, from: nat, k: nat)
    requires AllGood(fate, from, from + k) && fate(from + k) == Good
    ensures AllGood(fate, from, from + k + 1)
  {
  }

  lemma GoodMeansAll(fate: nat -> Fate, from: nat, n: nat)
    requires AllGood(fate, from, from + Sent(fate, from, n))
    ensures Sent(fate, from, n) == Taken(fate, from, n) == n
  {
  }

  lemma AllGoodParts(fate: nat -> Fate, a: nat, b: nat, c: nat, d: nat, e: nat)
    requires a <= b <= c <= d <= e && AllGood(fate, a, e)
    ensures AllGood(fate, a, b) && AllGood(fate, b, c) && AllGood(fate, c, d) && AllGood(fate, d, e)
  {
  }

  /** A loop over n commands that stops after k good ones and a bad one. */
  lemma LoopStops(fate: nat -> Fate, from: nat, n: nat, k: nat)
    requires k < n && AllGood(fate, from, from + k) && fate(from + k) != Good
    ensures Sent(fate, from, n) == k + 1
    ensures Taken(fate, from, n) == if fate(from + k) == Seen then k + 1 else k
  {
    GoodSoFar(fate, from, n, k);
  }

  lemma LoopEnds(fate: nat -> Fate, from: nat, n: nat)
    requires AllGood(fate, from, from + n)
    ensures Sent(fate, from, n) == Taken(fate, from, n) == n
  {
    GoodSoFar(fate, from, n, n);
  }

  /** Bytes of n pages, and pages of so many bytes. */
  function PageBytes(g: Geometry, n: nat): nat {
    if g.pageSize == 256 then n * 256 else n * 512
  }

  function Pages(g: Geometry, len: nat): nat {
    if g.pageSize == 256 then len / 256 else len / 512
  }

  // ------------------------------------------------------------ which failed transfers are told

  /** From position from on the transfers of the log went well, but for the last one if err says so. */
  ghost predicate Straight(link: nat -> bool, log: seq<Purpose>, from: nat, err: Error) {
    && from <= |log|
    && (forall n: nat :: from <= n < |log| && !link(n) ==> err == TransferFailed && n == |log| - 1)
    && (err == TransferFailed ==> from < |log| && !link(|log| - 1))
  }

  lemma StraightMore(link: nat -> bool, log: seq<Purpose>, from: nat, p: Purpose)
    requires from <= |log| && Straight(link, log, from, NoError) && AllFor(log, from, p)
    ensures AllFor(log + [p], from, p)
    ensures Straight(link, log + [p], from, if link(|log|) then NoError else TransferFailed)
  {
  }

  lemma StraightThen(link: nat -> bool, log: seq<Purpose>, more: seq<Purpose>, from: nat, p: Purpose, err: Error)
    requires Straight(link, log, from, NoError) && AllFor(log, from, p) && log <= more
    requires Straight(link, more, |log|, err) && AllFor(more, |log|, p)
    ensures Straight(link, more, from, err) && AllFor(more, from, p)
  {
    SameNotes(log, more, from);
  }

  lemma NoTransfers(link: nat -> bool, log: seq<Purpose>, p: Purpose)
    ensures AllFor(log, |log|, p) && Straight(link, log, |log|, NoError)
  {
  }

  lemma StraightTimeout(link: nat -> bool, log: seq<Purpose>, from: nat)
    requires Straight(link, log, from, NoError)
    ensures Straight(link, log, from, Timeout)
  {
  }

  ghost predicate AllFor(log: seq<Purpose>, from: nat, p: Purpose) {
    forall n: nat :: from <= n < |log| ==> log[n] == p
  }

  /** Whether a part of the driver heeds none of its transfers, some, or all but its waits. */
  datatype Voice = Mute | Mixed | Loud

  /** A failed transfer that is heeded is the last, and err reports it; and err reports no other. Of a
      mute part of the driver, only that nobody heeds its transfers. */
  ghost predicate Told(link: nat -> bool, log: seq<Purpose>, from: nat, err: Error, v: Voice) {
    && from <= |log|
    && if v.Mute? then forall n: nat :: from <= n < |log| ==> !Heeded(log[n])
       else
         && (forall n: nat :: from <= n < |log| && Heeded(log[n]) && !link(n) ==>
               err == TransferFailed && n == |log| - 1)
         && (err == TransferFailed ==> from < |log| && Heeded(log[|log| - 1]) && !link(|log| - 1))
         && (v.Loud? ==> forall n: nat :: from <= n < |log| ==> log[n] != Small)
  }

  lemma NothingTold(link: nat -> bool, log: seq<Purpose>, err: Error, v: Voice)
    requires err != TransferFailed
    ensures Told(link, log, |log|, err, v)
  {
  }

  /** More transfers, all for one purpose. */
  lemma ToldMore(link: nat -> bool, log: seq<Purpose>, more: seq<Purpose>, from: nat, err: Error, p: Purpose, v: Voice)
    requires Told(link, log, from, NoError, v) && log <= more && AllFor(more, |log|, p) && (Heeded(p) ==> !v.Mute?)
    requires (p == Small ==> v.Mute?)
    requires Straight(link, more, |log|, err)
    ensures Told(link, more, from, if Heeded(p) then err else NoError, v)
  {
    SameNotes(log, more, from);
  }

  lemma ToldThen(link: nat -> bool, log: seq<Purpose>, more: seq<Purpose>, from: nat, err: Error, v: Voice)
    requires Told(link, log, from, NoError, v) && log <= more && Told(link, more, |log|, err, v)
    ensures Told(link, more, from, err, v)
  {
    SameNotes(log, more, from);
  }

  lemma SameNotes(log: seq<Purpose>, more: seq<Purpose>, from: nat)
    requires log <= more
    ensures forall n: nat :: from <= n < |log| ==> more[n] == log[n]
  {
  }

  /** What nobody heeds is no error. */
  lemma ToldQuiet(link: nat -> bool, log: seq<Purpose>, from: nat, err: Error)
    requires Told(link, log, from, err, Mute)
    ensures Told(link, log, from, NoError, Mixed)
  {
  }

  lemma ToldLess(link: nat -> bool, log: seq<Purpose>, from: nat, err: Error)
    requires Told(link, log, from, err, Loud)
    ensures Told(link, log, from, err, Mixed)
  {
  }

  /** Where no transfer has failed, it does not matter which error is told. */
  lemma ToldOther(link: nat -> bool, log: seq<Purpose>, from: nat, err: Error, other: Error, v: Voice)
    requires Told(link, log, from, err, v) && err != TransferFailed && other != TransferFailed
    ensures Told(link, log, from, other, v)
  {
  }

  /** So a run that reports success has met no failed transfer it heeds. */
  lemma ToldMeans(link: nat -> bool, log: seq<Purpose>, from: nat, err: Error, v: Voice, n: nat)
    requires Told(link, log, from, err, v) && !v.Mute? && from <= n < |log| && Heeded(log[n]) && !link(n)
    ensures err == TransferFailed && n == |log| - 1
  {
  }

  class FlashDriver {
    const g: Geometry
    // the environment, read in order: transfers other than erase and program commands, looks at a
    // running operation, allocations, and the fates of erase and program commands
    const link: nat -> bool
    const ended: nat -> bool
    const room: nat -> bool
    const fate: nat -> Fate
    var links: nat
    var looks: nat
    var rooms: nat
    var sent: nat
    var chip: Chip
    /** Whether data goes over four lines, and whether commands do too, as last set. */
    var quad: bool
    var qpi: bool
    /** No transfer other than an erase or program command has failed, and no wait for the chip has
        run out of retries. */
    ghost var steady: bool
    /** What each of the transfers counted by links was for. */
    ghost var log: seq<Purpose>

    ghost predicate Valid()
      reads this`chip, this`log, this`links
    {
      && |log| == links && ValidGeometry(g) && |chip.mem| == BlockCount(g) * BLOCK
      && (chip.busy ==> chip.wel)
    }

    constructor (g: Geometry, mem: seq<bv8>, link: nat -> bool, ended: nat -> bool, room: nat -> bool,
                 fate: nat -> Fate)
      requires ValidGeometry(g) && |mem| == BlockCount(g) * BLOCK
      ensures Valid() && this.g == g && chip == Chip(mem, false, false, 0) && steady && links == rooms == 0
      ensures this.link == link && this.ended == ended && this.room == room && this.fate == fate && sent == 0
      ensures quad && !qpi
    {
      this.g := g;
      this.link, this.ended, this.room, this.fate := link, ended, room, fate;
      links, looks, rooms, sent, log := 0, 0, 0, 0, [];
      chip := Chip(mem, false, false, 0);
      quad, qpi, steady := true, false, true;
    }

    /** Nothing goes wrong but, perhaps, erase and program commands. */
    ghost predicate Fair() {
      && (forall n: nat :: link(n)) && (forall n: nat :: ended(n)) && (forall n: nat :: room(n))
    }

    /** Idle, and no modifying command has been refused since before. */
    ghost predicate Quiet(before: Chip)
      reads this`chip
    {
      !chip.busy && chip.refused == before.refused
    }

    /** The chip has been busy at the last n looks and still is. */
    ghost predicate Stuck(n: nat)
      reads this`chip, this`looks
    {
      chip.busy && n <= looks && NeverEnded(looks - n, looks)
    }

    ghost predicate NeverEnded(lo: nat, hi: nat) {
      forall l: nat :: lo <= l < hi ==> !ended(l)
    }

    lemma NoLooks(at: nat)
      ensures NeverEnded(at, at)
    {
    }

    lemma OneMoreLook(lo: nat, hi: nat)
      requires NeverEnded(lo, hi) && !ended(hi)
      ensures NeverEnded(lo, hi + 1)
    {
    }

    /** A transfer on the bus that may fail. */
    method Transact(ghost p: Purpose) returns (ok: bool)
      modifies this`links, this`log, this`steady
      ensures steady == (old(steady) && ok) && (Fair() ==> ok)
      ensures links == old(links) + 1 && log == old(log) + [p] && ok == link(old(links))
    {
      ok := link(links);
      links := links + 1;
      log := log + [p];
      steady := steady && ok;
    }

    /** The running operation may have ended. */
    method TimePasses()
      modifies this`looks, this`chip
      ensures chip == old(chip) || chip == Settled(old(chip))
      ensures Fair() ==> chip == Settled(old(chip))
      ensures looks == old(looks) + 1 && chip == if ended(old(looks)) then Settled(old(chip)) else old(chip)
    {
      if ended(looks) {
        chip := Settled(chip);
      }
      looks := looks + 1;
    }

    /** qspi_writein_progress, waiting for ready. */
    method WaitReady() returns (err: Error)
      requires |log| == links
      modifies this`links, this`log, this`looks, this`chip, this`steady
      ensures chip == old(chip) || chip == Settled(old(chip))
      ensures err == NoError ==> !chip.busy && steady == old(steady)
      ensures err != NoError ==> !steady
      ensures err in {NoError, Timeout, TransferFailed}
      ensures Fair() ==> err == NoError
      ensures |log| == links && old(log) <= log && AllFor(log, old(links), Waiting)
      ensures Straight(link, log, old(links), err) && (err == Timeout ==> Stuck(2000))
    {
      hide Straight, AllFor, NeverEnded;
      var tried := 0;
      NoTransfers(link, log, Waiting);
      NoLooks(looks);
      while true
        invariant 0 <= tried <= WIP_RETRY_COUNT && steady == old(steady)
        invariant |log| == links && old(log) <= log && AllFor(log, old(links), Waiting)
        invariant Straight(link, log, old(links), NoError)
        invariant looks == old(looks) + tried && NeverEnded(old(looks), looks) && (0 < tried ==> chip.busy)
        invariant chip == old(chip) || chip == Settled(old(chip))
        invariant Fair() ==> tried == 0
        decreases WIP_RETRY_COUNT - tried
      {
        if tried == WIP_RETRY_COUNT {
          steady := false;
          StraightTimeout(link, log, old(links));
          return Timeout;
        }
        ghost var look := looks;
        TimePasses();
        StraightMore(link, log, old(links), Waiting);
        var ok := Transact(Waiting);
        if !ok {
          return TransferFailed;
        }
        tried := tried + 1;
        if !chip.busy {
          return NoError;
        }
        OneMoreLook(old(looks), look);
      }
    }

    /** One attempt: WREN or WRDI, and a look at the status register. */
    method LatchOnce(enable: bool, ghost p: Purpose) returns (ok: bool)
      requires Valid()
      modifies this`links, this`log, this`looks, this`chip, this`steady
      ensures Valid() && chip.mem == old(chip).mem && chip.refused == old(chip).refused
      ensures !old(chip).busy ==> !chip.busy
      ensures steady == (old(steady) && ok) && (Fair() ==> ok)
      ensures old(log) <= log && AllFor(log, old(links), p)
      ensures Straight(link, log, old(links), if ok then NoError else TransferFailed)
      ensures ok ==> looks == old(looks) + 1 && links == old(links) + 2
      ensures ok && chip.wel != enable ==> old(chip).busy && (Fair() ==> enable)
      ensures ok && chip.wel != enable ==> if enable then !chip.busy else chip.busy && !ended(old(looks))
    {
      hide Straight, AllFor, ValidGeometry;
      NoTransfers(link, log, p);
      StraightMore(link, log, old(links), p);
      ok := Transact(p);
      if !ok {
        return;
      }
      chip := if enable then WriteEnabled(chip) else WriteDisabled(chip);
      TimePasses();
      StraightMore(link, log, old(links), p);
      ok := Transact(p);
    }

    /** qspi_write_en: repeat WREN or WRDI until the status register shows it took effect. A chip
        found write-disabled is idle. */
    method WriteEn(enable: bool, ghost p: Purpose) returns (err: Error)
      requires Valid() && (p == Latch || p == Small)
      modifies this`links, this`log, this`looks, this`chip, this`steady
      ensures Valid() && chip.mem == old(chip).mem && chip.refused == old(chip).refused
      ensures err == NoError ==> chip.wel == enable && steady == old(steady)
      ensures !old(chip).busy ==> !chip.busy
      ensures err != NoError ==> !steady
      ensures err in {NoError, Timeout, TransferFailed}
      ensures Fair() && (enable ==> !old(chip).busy) ==> err == NoError
      ensures old(log) <= log && AllFor(log, old(links), p)
      ensures Straight(link, log, old(links), err) && (err == Timeout ==> Stuck(2000))
    {
      hide Straight, AllFor, NeverEnded, ValidGeometry;
      var tried := 0;
      NoTransfers(link, log, p);
      NoLooks(looks);
      while true
        invariant 0 <= tried <= WE_RETRY_COUNT && steady == old(steady) && Valid()
        invariant chip.mem == old(chip).mem && chip.refused == old(chip).refused
        invariant !old(chip).busy ==> !chip.busy
        invariant Fair() && (enable ==> !old(chip).busy) ==> tried == 0
        invariant old(log) <= log && AllFor(log, old(links), p) && Straight(link, log, old(links), NoError)
        invariant looks == old(looks) + tried && (!enable ==> NeverEnded(old(looks), looks))
        invariant 0 < tried ==> if enable then tried == 1 && !chip.busy else chip.busy
        decreases WE_RETRY_COUNT - tried
      {
        if tried == WE_RETRY_COUNT {
          steady := false;
          StraightTimeout(link, log, old(links));
          return Timeout;
        }
        ghost var look, l1 := looks, log;
        var ok := LatchOnce(enable, p);
        StraightThen(link, l1, log, old(links), p, if ok then NoError else TransferFailed);
        if !ok {
          return TransferFailed;
        }
        tried := tried + 1;
        if chip.wel == enable {
          return NoError;
        }
        if !enable {
          OneMoreLook(old(looks), look);
        }
      }
    }

    /** qspi_quad_flag_set and qspi_qpi_flag_set: vendor register writes that may fail and do not
        touch the array. */
    method SetQuad(on: bool, ghost p: Purpose) returns (err: Error)
      requires |log| == links && (p == BusMode || p == Small)
      modifies this`links, this`log, this`steady, this`quad
      ensures quad == if err == NoError then on else old(quad)
      ensures err == NoError ==> steady == old(steady)
      ensures err != NoError ==> !steady && err == TransferFailed
      ensures Fair() ==> err == NoError
      ensures |log| == links && old(log) <= log && AllFor(log, old(links), p) && Straight(link, log, old(links), err)
    {
      var ok := Transact(p);
      err := if ok then NoError else TransferFailed;
      quad := if ok then on else quad;
    }

    /** qspi_qpi_flag_set, likewise. */
    method SetQpi(on: bool) returns (err: Error)
      requires |log| == links
      modifies this`links, this`log, this`steady, this`qpi
      ensures qpi == if err == NoError then on else old(qpi)
      ensures err == NoError ==> steady == old(steady)
      ensures err != NoError ==> !steady && err == TransferFailed
      ensures Fair() ==> err == NoError
      ensures |log| == links && old(log) <= log && AllFor(log, old(links), BusMode)
      ensures Straight(link, log, old(links), err)
    {
      var ok := Transact(BusMode);
      err := if ok then NoError else TransferFailed;
      qpi := if ok then on else qpi;
    }

    /** Send a modifying command whose accepted effect is after. */
    method SendModify(after: Chip) returns (ok: bool)
      modifies this`chip, this`sent
      ensures sent == old(sent) + 1 && (ok <==> fate(old(sent)) == Good)
      ensures chip == if fate(old(sent)) == Unseen then old(chip) else after
    {
      ok := fate(sent) == Good;
      if fate(sent) != Unseen {
        chip := after;
      }
      sent := sent + 1;
    }

    // ------------------------------------------------------------ erase

    /** One erase command with its write-enable, wait and write-disable. again says whether the
        caller's loop goes on; a failed transfer ends it without an error of its own. marks are the
        bytes it erased. On an idle chip its fate alone decides what a run without an error does. */
    method EraseCommand(parameter: bool, address: nat, ghost sector: nat)
      returns (err: Error, again: bool, ghost marks: set<int>)
      requires Valid() && !quad && sector < (if parameter then g.paramSectors else g.sectorCount)
      requires address == if parameter then sector * PARAM_SECTOR else SectorByte(g, sector)
      modifies this`links, this`log, this`looks, this`sent, this`chip, this`steady
      ensures Valid() && (steady ==> old(steady))
      ensures err in {NoError, Timeout, TransferFailed} && (err != NoError ==> !again && !steady)
      ensures chip.mem == Partly(old(chip).mem, marks, {}) && marks <= TargetRange(g, parameter, sector)
      ensures err == NoError && !old(chip).busy ==>
                && Quiet(old(chip)) && sent == old(sent) + 1 && again == (fate(old(sent)) == Good)
                && marks == if fate(old(sent)) == Unseen then {} else TargetRange(g, parameter, sector)
      ensures Fair() && !old(chip).busy ==> err == NoError && steady == old(steady)
      ensures old(log) <= log && Told(link, log, old(links), if parameter then NoError else err,
                                      if parameter then Mute else Loud)
      ensures err == Timeout ==> Stuck(2000)
    {
      hide Erased, Partly, TargetRange, AddressBytes, Told, Straight, AllFor, Stuck, SectorErase, ParameterErase;
      hide ValidGeometry, BlockCount, SectorByte;
      PageSizeIs();
      again := false;
      marks := {};
      NoMarks(chip.mem);
      ghost var was := chip.mem;
      ghost var p, v, l0 := if parameter then Small else Latch, if parameter then Mute else Loud, log;
      NothingTold(link, l0, NoError, v);
      err := WriteEn(true, p);
      ToldMore(link, l0, log, |l0|, err, p, v);
      if err != NoError {
        return;
      }
      var bytes := AddressBytes(address, g.addressLength);
      if parameter {
        ParameterEraseAt(chip, g, sector);
      } else {
        SectorEraseAt(chip, g, sector);
      }
      TargetMarks(parameter, sector, was);
      ghost var before := chip;
      var ok := SendModify(if parameter then ParameterErase(chip, bytes) else SectorErase(chip, g, bytes));
      if fate(old(sent)) != Unseen && !before.busy {
        marks := TargetRange(g, parameter, sector);
      }
      ghost var l1 := log;
      if !ok {
        err := WriteEn(false, p);
        ToldMore(link, l1, log, |l0|, err, p, v);
        return;
      }
      var ignored := WaitReady();
      ToldMore(link, l1, log, |l0|, ignored, Waiting, v);
      ghost var l2 := log;
      err := WriteEn(false, p);
      ToldMore(link, l2, log, |l0|, err, p, v);
      again := err == NoError;
    }

    lemma TargetMarks(parameter: bool, sector: nat, mem: seq<bv8>)
      ensures Partly(mem, TargetRange(g, parameter, sector), {})
           == if parameter then Erased(mem, sector * PARAM_SECTOR, (sector + 1) * PARAM_SECTOR)
              else Erased(mem, SectorByte(g, sector) + Spared(g, sector), SectorByte(g, sector + 1))
    {
      if parameter {
        EraseWhole(mem, sector * PARAM_SECTOR, (sector + 1) * PARAM_SECTOR);
      } else {
        EraseWhole(mem, SectorByte(g, sector) + Spared(g, sector), SectorByte(g, sector + 1));
      }
    }

    /** First byte of a parameter sector or a sector. */
    ghost function At(parameter: bool, sector: nat): nat {
      if parameter then sector * PARAM_SECTOR else SectorByte(g, sector)
    }

    /** First byte that erasing from sector start on erases. */
    ghost function Lowest(parameter: bool, start: nat): nat {
      At(parameter, start) + if parameter then 0 else Spared(g, start)
    }

    /** The bytes of the k-th sector continue those of the sectors before it. */
    lemma PassMarks(parameter: bool, start: nat, count: nat, k: nat)
      requires ValidGeometry(g) && k < count && start + count <= (if parameter then g.paramSectors else g.sectorCount)
      ensures At(parameter, start + k + 1)
           == At(parameter, start + k) + if parameter then PARAM_SECTOR else g.sectorBlocks * BLOCK
      ensures TargetRange(g, parameter, start + k) <= Range(At(parameter, start), At(parameter, start + count))
      ensures Range(Lowest(parameter, start), At(parameter, start + k)) + TargetRange(g, parameter, start + k)
           == Range(Lowest(parameter, start), At(parameter, start + k + 1))
    {
      hide Range, SectorByte;
      if !parameter {
        SectorByteNext(g, start);
        SectorByteNext(g, start + k);
        SectorByteNext(g, start + count - 1);
      }
      var lo, mid, hi := Lowest(parameter, start), At(parameter, start + k), At(parameter, start + k + 1);
      var first := mid + if parameter then 0 else Spared(g, start + k);
      RangeInside(first, hi, At(parameter, start), At(parameter, start + count));
      RangeJoin(lo, mid, hi);
    }

    /** One pass of either loop, whose first command was for sector start. */
    method ErasePass(parameter: bool, address: nat, ghost start: nat, ghost count: nat, ghost k: nat,
                     ghost was: seq<bv8>, ghost marks: set<int>, ghost from: nat)
      returns (err: Error, again: bool, ghost more: set<int>)
      requires Valid() && !quad && k < count && start + count <= (if parameter then g.paramSectors else g.sectorCount)
      requires address == At(parameter, start + k)
      requires chip.mem == Partly(was, marks, {}) && marks <= Range(At(parameter, start), At(parameter, start + count))
      requires Told(link, log, from, NoError, if parameter then Mute else Loud)
      modifies this`links, this`log, this`looks, this`sent, this`chip, this`steady
      ensures Valid() && (steady ==> old(steady)) && old(log) <= log
      ensures err in {NoError, Timeout, TransferFailed} && (err != NoError ==> !again && !steady)
      ensures chip.mem == Partly(was, more, {}) && more <= Range(At(parameter, start), At(parameter, start + count))
      ensures Told(link, log, from, if parameter then NoError else err, if parameter then Mute else Loud)
      ensures err == Timeout ==> Stuck(2000)
      ensures err == NoError && !old(chip).busy ==>
                && Quiet(old(chip)) && sent == old(sent) + 1 && again == (fate(old(sent)) == Good)
                && (marks == Range(Lowest(parameter, start), address) ==>
                      more == Range(Lowest(parameter, start),
                                    if fate(old(sent)) == Unseen then address else At(parameter, start + k + 1)))
      ensures Fair() && !old(chip).busy ==> err == NoError && steady == old(steady)
      ensures At(parameter, start + k + 1) == address + if parameter then PARAM_SECTOR else g.sectorBlocks * BLOCK
    {
      hide Partly, Range, SectorByte, Spared, TargetRange, Told, Stuck;
      ghost var l1, took := log, {};
      PassMarks(parameter, start, count, k);
      err, again, took := EraseCommand(parameter, address, start + k);
      ToldThen(link, l1, log, from, if parameter then NoError else err, if parameter then Mute else Loud);
      EraseTwoMarks(was, marks, took);
      more := marks + took;
    }

    /** The loop of either erase: one command after the other until one fails. A run without an error
        has erased as many sectors as the fates of its commands say, in order. */
    method EraseLoop(parameter: bool, start: nat, count: nat) returns (err: Error, ghost marks: set<int>)
      requires Valid() && !quad && start + count <= (if parameter then g.paramSectors else g.sectorCount)
      modifies this`links, this`log, this`looks, this`sent, this`chip, this`steady
      ensures Valid() && (steady ==> old(steady)) && err in {NoError, Timeout, TransferFailed}
      ensures chip.mem == Partly(old(chip).mem, marks, {})
      ensures marks <= Range(At(parameter, start), At(parameter, start + count))
      ensures err != NoError ==> !steady
      ensures err == NoError && !old(chip).busy ==>
                && Quiet(old(chip)) && sent == old(sent) + Sent(fate, old(sent), count)
                && marks == Range(Lowest(parameter, start), At(parameter, start + Taken(fate, old(sent), count)))
      ensures Fair() && !old(chip).busy ==> err == NoError && steady == old(steady)
      ensures err == Timeout ==> Stuck(2000)
      ensures Told(link, log, old(links), if parameter then NoError else err, if parameter then Mute else Loud)
      ensures old(log) <= log
    {
      hide Partly, Range, ValidGeometry, SectorByte, Spared, AllGood, Sent, Taken, Told, Stuck, At, Lowest;
      ghost var v, l0 := if parameter then Mute else Loud, log;
      NothingTold(link, l0, NoError, v);
      NothingSent(fate, sent);
      marks := {};
      NoMarks(chip.mem);
      err := NoError;
      var address: nat := if parameter then start * PARAM_SECTOR else Times(start, g.sectorBlocks) * BLOCK;
      FirstAddress(parameter, start);
      var left: nat := count;
      ghost var before, from, k: nat := chip, sent, 0;
      while left != 0
        invariant err == NoError && Valid() && (steady ==> old(steady))
        invariant left + k == count && address == At(parameter, start + k)
        invariant l0 <= log && Told(link, log, |l0|, NoError, v)
        invariant chip.mem == Partly(before.mem, marks, {})
        invariant marks <= Range(At(parameter, start), At(parameter, start + count))
        invariant !before.busy ==>
                    Quiet(before) && sent == from + k && AllGood(fate, from, from + k)
                    && marks == Range(Lowest(parameter, start), address)
        invariant Fair() && !before.busy ==> steady == old(steady)
      {
        var again;
        err, again, marks := ErasePass(parameter, address, start, count, k, before.mem, marks, |l0|);
        if err != NoError {
          return;
        }
        if !again {
          if !before.busy {
            LoopStops(fate, from, count, k);
          }
          return;
        }
        if !before.busy {
          OneMoreGood(fate, from, k);
        }
        address := address + if parameter then PARAM_SECTOR else g.sectorBlocks * BLOCK;
        left := left - 1;
        k := k + 1;
      }
      if !before.busy {
        LoopEnds(fate, from, count);
      }
    }

    /** Nothing lies between the start and itself. */
    lemma FirstAddress(parameter: bool, start: nat)
      ensures At(parameter, start) == if parameter then start * PARAM_SECTOR else Times(start, g.sectorBlocks) * BLOCK
      ensures Range(Lowest(parameter, start), At(parameter, start)) == {}
    {
      RangeJoin(Lowest(parameter, start), At(parameter, start), At(parameter, start));
    }

    /** tegrabl_qspi_flash_parameter_sector_erase for sectors at the bottom of the chip. A run
        without an error has erased as many as the fates of its commands say, in order. */
    method ParameterSectorErase(start: nat, count: nat) returns (err: Error, ghost marks: set<int>)
      requires Valid()
      modifies this`links, this`log, this`looks, this`sent, this`chip, this`steady, this`quad
      ensures Valid() && (steady ==> old(steady))
      ensures chip.mem == Partly(old(chip).mem, marks, {})
      ensures marks <= Range(start * PARAM_SECTOR, (start + count) * PARAM_SECTOR)
      ensures count == 0 || g.paramSectors < start + count <==> err == Invalid
      ensures err == Invalid ==> chip == old(chip) && sent == old(sent) && steady == old(steady) && marks == {}
      ensures (err != NoError && err != Invalid ==> !steady) && (err == NoError ==> quad)
      ensures err == NoError && !old(chip).busy ==>
                && Quiet(old(chip)) && sent == old(sent) + Sent(fate, old(sent), count)
                && marks == Range(start * PARAM_SECTOR, (start + Taken(fate, old(sent), count)) * PARAM_SECTOR)
      ensures Fair() && !old(chip).busy && err != Invalid ==> err == NoError && steady == old(steady)
      ensures old(log) <= log && Told(link, log, old(links), NoError, Mute)
    {
      hide Partly, Range, ValidGeometry, Sent, Taken, Told, Straight, AllFor;
      ghost var l0 := log;
      NothingTold(link, l0, NoError, Mute);
      marks := {};
      NoMarks(chip.mem);
      if start > g.paramSectors || count == 0 || count > g.paramSectors || start + count > g.paramSectors {
        return Invalid, marks;
      }
      err := SetQuad(false, Small);
      ToldMore(link, l0, log, |l0|, err, Small, Mute);
      if err != NoError {
        return;
      }
      ghost var l1 := log;
      err, marks := EraseLoop(true, start, count);
      ToldThen(link, l1, log, |l0|, NoError, Mute);
      if err != NoError {
        return;
      }
      ghost var l2 := log;
      err := SetQuad(true, Small);
      ToldMore(link, l2, log, |l0|, err, Small, Mute);
    }

    /** tegrabl_qspi_flash_sector_erase. On a hybrid chip the parameter sectors in sector 0 are
        left alone. A run without an error on an idle chip has erased as many sectors as the fates
        of its commands say, in order. */
    method SectorErases(start: nat, count: nat) returns (err: Error, ghost marks: set<int>)
      requires Valid() && start + count <= g.sectorCount
      modifies this`links, this`log, this`looks, this`sent, this`chip, this`steady, this`quad
      ensures Valid() && (steady ==> old(steady)) && (err == Invalid <==> count == 0) && (err == NoError ==> quad)
      ensures chip.mem == Partly(old(chip).mem, marks, {})
      ensures marks <= Range(SectorByte(g, start), SectorByte(g, start + count))
      ensures err == Invalid ==> chip == old(chip)
      ensures err != NoError && err != Invalid ==> !steady
      ensures err == NoError && !old(chip).busy ==>
                && Quiet(old(chip)) && sent == old(sent) + Sent(fate, old(sent), count)
                && marks == Range(SectorByte(g, start) + Spared(g, start),
                                  SectorByte(g, start + Taken(fate, old(sent), count)))
      ensures Fair() && !old(chip).busy && 0 < count ==> err == NoError && steady == old(steady)
      ensures old(log) <= log && Told(link, log, old(links), err, Loud) && (err == Timeout ==> Stuck(2000))
      ensures err in {NoError, Timeout, TransferFailed, Invalid}
    {
      hide Partly, Range, ValidGeometry, SectorByte, Spared, Sent, Taken, Told, Straight, AllFor, Stuck;
      ghost var l0 := log;
      NothingTold(link, l0, NoError, Loud);
      NothingTold(link, l0, Invalid, Loud);
      marks := {};
      NoMarks(chip.mem);
      if count == 0 {
        return Invalid, marks;
      }
      err := SetQuad(false, BusMode);
      ToldMore(link, l0, log, |l0|, err, BusMode, Loud);
      if err != NoError {
        return;
      }
      ghost var l1 := log;
      err, marks := EraseLoop(false, start, count);
      ToldThen(link, l1, log, |l0|, err, Loud);
      if err != NoError {
        return;
      }
      ghost var l2 := log;
      err := SetQuad(true, BusMode);
      ToldMore(link, l2, log, |l0|, err, BusMode, Loud);
    }

    /** tegrabl_qspi_flash_bulk_erase: the one erase whose wait decides the result. */
    method BulkErases() returns (err: Error, ghost marks: set<int>)
      requires Valid()
      modifies this`links, this`log, this`looks, this`sent, this`chip, this`steady
      ensures err in {NoError, Timeout, TransferFailed}
      ensures Valid() && (steady ==> old(steady))
      ensures chip.mem == Partly(old(chip).mem, marks, {}) && marks <= Range(0, |chip.mem|)
      ensures err == NoError && !old(chip).busy ==> Quiet(old(chip)) && marks == Range(0, |chip.mem|)
      ensures Fair() && !old(chip).busy ==>
                steady == old(steady) && (err == NoError <==> fate(old(sent)) == Good)
      ensures old(log) <= log && (err == NoError ==> fate(old(sent)) == Good)
      ensures forall n: nat :: old(links) <= n < links && !link(n) ==> err == TransferFailed && n == links - 1
      ensures err == TransferFailed ==> (old(links) < links && !link(links - 1)) || fate(old(sent)) != Good
      ensures err == Timeout ==> Stuck(2000)
    {
      hide Stuck;
      marks := {};
      NoMarks(chip.mem);
      EraseWhole(chip.mem, 0, |chip.mem|);
      hide Partly, Range;
      err := WriteEn(true, Latch);
      if err == NoError {
        if fate(sent) != Unseen && !chip.busy {
          marks := Range(0, |chip.mem|);
        }
        var ok := SendModify(BulkErase(chip));
        if !ok {
          return TransferFailed, marks;
        }
        err := WaitReady();
      }
    }

    // ------------------------------------------------------------ program

    /** tegrabl_qspi_flash_write: program page by page. source is the address of the buffer. In a
        steady run on an idle chip the fates of its commands say how many pages are stored. */
    method FlashWrite(startBlock: nat, blocks: nat, source: nat, data: seq<bv8>)
      returns (err: Error, ghost marks: set<int>)
      requires Valid() && startBlock + blocks <= BlockCount(g) && |data| == blocks * BLOCK
      modifies this`links, this`log, this`looks, this`sent, this`chip, this`steady, this`qpi
      ensures Valid() && (steady ==> old(steady)) && (err == Invalid <==> blocks == 0) && err != NoMemory
      ensures chip.mem == Stored(old(chip).mem, startBlock * BLOCK, data, marks)
      ensures marks <= Range(startBlock * BLOCK, (startBlock + blocks) * BLOCK)
      ensures err == Invalid ==> chip == old(chip) && sent == old(sent)
      ensures steady && !old(chip).busy && 0 < blocks && source % 4 == 0 ==>
                && err == NoError && Quiet(old(chip)) && sent == old(sent) + Sent(fate, old(sent), Pages(g, |data|))
                && marks == Range(startBlock * BLOCK,
                                  startBlock * BLOCK + PageBytes(g, Taken(fate, old(sent), Pages(g, |data|))))
      ensures Fair() && !old(chip).busy && 0 < blocks && source % 4 == 0 ==> steady == old(steady)
      ensures old(log) <= log && Told(link, log, old(links), err, Loud) && (err == Timeout ==> Stuck(2000))
      ensures (source % 4 == 0 ==> err != BadAddress) && (err == NoError ==> !qpi)
    {
      hide Told, Straight, AllFor, Stuck;
      ghost var l0 := log;
      NothingTold(link, l0, NoError, Loud);
      NothingTold(link, l0, Invalid, Loud);
      marks := {};
      NothingStored(chip.mem, startBlock * BLOCK, data);
      hide Stored, Range, PageBytes, Pages;
      if blocks == 0 {
        return Invalid, marks;
      }
      err := SetQpi(true);
      ToldMore(link, l0, log, |l0|, err, BusMode, Loud);
      if err != NoError {
        return;
      }
      ghost var l1 := log;
      err, marks := ProgramPages(startBlock * BLOCK, source, data);
      ToldThen(link, l1, log, |l0|, err, Loud);
      if err == NoError {
        ghost var l2 := log;
        err := SetQpi(false);
        ToldMore(link, l2, log, |l0|, err, BusMode, Loud);
      }
    }

    /** The programming loop: page-sized chunks until the data is used up. */
    method ProgramPages(start: nat, source: nat, data: seq<bv8>) returns (err: Error, ghost marks: set<int>)
      requires Valid() && qpi && start + |data| <= |chip.mem| && start % BLOCK == 0 && |data| % BLOCK == 0
      modifies this`links, this`log, this`looks, this`sent, this`chip, this`steady
      ensures err != Invalid && err != NoMemory && Valid() && (steady ==> old(steady))
      ensures chip.mem == Stored(old(chip).mem, start, data, marks) && marks <= Range(start, start + |data|)
      ensures steady && !old(chip).busy && source % 4 == 0 ==>
                && err == NoError && Quiet(old(chip)) && sent == old(sent) + Sent(fate, old(sent), Pages(g, |data|))
                && marks == Range(start, start + PageBytes(g, Taken(fate, old(sent), Pages(g, |data|))))
      ensures Fair() && !old(chip).busy && source % 4 == 0 ==> steady == old(steady)
      ensures old(log) <= log && Told(link, log, old(links), err, Loud) && (err == Timeout ==> Stuck(2000))
      ensures source % 4 == 0 ==> err != BadAddress
    {
      hide Stored, Range, PageBytes, Pages, AllGood, Sent, Taken, Told, Stuck, ValidGeometry, BlockCount;
      ghost var l0 := log;
      NothingTold(link, l0, NoError, Loud);
      NothingSent(fate, sent);
      marks := {};
      err := NoError;
      NothingStored(chip.mem, start, data);
      var address: nat, left: nat, src: nat := start, |data|, source;
      ghost var before, from, k: nat, pages := chip, sent, 0, Pages(g, |data|);
      PageSizeIs();
      PageFacts(|data|, 0);
      RangeJoin(start, start, start);
      while left != 0
        invariant err == NoError && Valid() && (steady ==> old(steady))
        invariant k <= pages && left == |data| - PageBytes(g, k) && (left != 0 ==> address == start + PageBytes(g, k))
        invariant src % 4 == source % 4 && l0 <= log && Told(link, log, |l0|, NoError, Loud)
        invariant chip.mem == Stored(before.mem, start, data, marks) && marks <= Range(start, start + |data|)
        invariant steady && !before.busy ==>
                    && Quiet(before) && sent == from + k && AllGood(fate, from, from + k)
                    && marks == Range(start, start + PageBytes(g, k))
        invariant Fair() && !before.busy ==> steady == old(steady)
        decreases left
      {
        PageFacts(|data|, k);
        var again;
        ghost var more, l1 := {}, log;
        err, again, more := ProgramStep(before.mem, start, address, src, data, |data| - left, marks, k);
        ToldThen(link, l1, log, |l0|, err, Loud);
        RangeJoin(start, start + PageBytes(g, k), start + PageBytes(g, k + 1));
        marks := marks + more;
        if err != NoError {
          return;
        }
        if !again {
          if steady && !before.busy {
            LoopStops(fate, from, pages, k);
          }
          return;
        }
        if steady && !before.busy {
          OneMoreGood(fate, from, k);
        }
        left, address, src := NextPage(left, address, src);
        k := k + 1;
      }
      PageFacts(|data|, k);
      if steady && !before.busy {
        LoopEnds(fate, from, pages);
      }
    }

    /** Whole pages of a block-sized buffer, counted. */
    lemma PageFacts(len: nat, k: nat)
      requires ValidGeometry(g) && len % BLOCK == 0
      ensures PageBytes(g, 0) == 0 && PageBytes(g, Pages(g, len)) == len
      ensures k <= Pages(g, len) ==> PageBytes(g, k) <= len && (PageBytes(g, k) == len <==> k == Pages(g, len))
      ensures k < Pages(g, len) ==> PageBytes(g, k) + g.pageSize <= len
      ensures PageBytes(g, k + 1) == PageBytes(g, k) + g.pageSize && PageBytes(g, k) % g.pageSize == 0
    {
      hide ValidGeometry;
      PageSizeIs();
      if g.pageSize == 256 {
        WholePages(len, k, 256);
      } else {
        WholePages(len, k, 512);
      }
    }

    lemma WholePages(len: nat, k: nat, p: nat)
      requires len % BLOCK == 0 && (p == 256 || p == 512)
      ensures var n := len / p;
              && n * p == len && (k <= n ==> k * p <= len && (k * p == len <==> k == n))
              && (k < n ==> k * p + p <= len) && k * p % p == 0
    {
      var blocks := len / BLOCK;
      if p == 256 {
        DivModUnique(len, 256, 2 * blocks, 0);
      }
      DivModUnique(k * p, p, k, 0);
      MulMonotone(k, len / p, p);
      MulMonotone(k + 1, len / p, p);
    }

    lemma PageSizeIs()
      requires ValidGeometry(g)
      ensures (g.pageSize == 256 || g.pageSize == 512) && 0 < g.sectorBlocks
    {
    }

    /** Advance by a page, or stop after the last, possibly shorter, chunk. */
    method NextPage(left: nat, address: nat, src: nat) returns (left': nat, address': nat, src': nat)
      requires g.pageSize == 256 || g.pageSize == 512
      ensures left' == left - Min(left, g.pageSize) && src' % 4 == src % 4 && (left != 0 ==> left' < left)
      ensures left' != 0 ==> address' == address + g.pageSize
    {
      if left > g.pageSize {
        left', address', src' := left - g.pageSize, address + g.pageSize, src + g.pageSize;
      } else {
        left', address', src' := 0, address, src;
      }
    }

    /** One pass of the programming loop, k pages into the data. */
    method ProgramStep(ghost before: seq<bv8>, start: nat, address: nat, src: nat, data: seq<bv8>, done: nat,
                       ghost marks: set<int>, ghost k: nat)
      returns (err: Error, again: bool, ghost more: set<int>)
      requires Valid() && qpi && |before| == |chip.mem| && start + |data| <= |chip.mem|
      requires start % BLOCK == 0 && |data| % BLOCK == 0 && k < Pages(g, |data|)
      requires done == PageBytes(g, k) && address == start + done
      requires chip.mem == Stored(before, start, data, marks)
      modifies this`links, this`log, this`looks, this`sent, this`chip, this`steady
      ensures Valid() && (steady ==> old(steady)) && err != Invalid && err != NoMemory
      ensures chip.mem == Stored(before, start, data, marks + more) && more <= Range(start, start + |data|)
      ensures (err == NoError ==> src % 4 == 0) && (src % 4 == 0 && err != NoError ==> !steady)
      ensures err == NoError && !old(chip).busy ==>
                && sent == old(sent) + 1 && again == (fate(old(sent)) == Good) && chip.refused == old(chip).refused
                && more == (if fate(old(sent)) == Unseen then {} else Range(address, address + g.pageSize))
                && (steady ==> !chip.busy)
      ensures Fair() && !old(chip).busy ==> steady == old(steady) && (src % 4 == 0 ==> err == NoError)
      ensures old(log) <= log && Told(link, log, old(links), err, Loud) && (err == Timeout ==> Stuck(2000))
      ensures src % 4 == 0 ==> err != BadAddress
    {
      hide Stored, Range, PageBytes, Pages, Programmed, Told, Straight, AllFor, Stuck;
      ghost var l0 := log;
      NothingTold(link, l0, NoError, Loud);
      PageFacts(|data|, k);
      more, again := {}, false;
      assert marks + {} == marks;
      if src % 4 != 0 {
        // the write-enable already sent stays in force
        err := WriteEn(true, Latch);
        ToldMore(link, l0, log, |l0|, err, Latch, Loud);
        if err == NoError {
          ToldOther(link, log, |l0|, NoError, BadAddress, Loud);
        }
        return if err == NoError then BadAddress else err, false, more;
      }
      var size := if |data| - done < g.pageSize then |data| - done else g.pageSize;
      PageAligned(start, done);
      StoreMarks(before, start, data, marks, done, size);
      RangeInside(address, address + size, start, start + |data|);
      ghost var took;
      err, again, took := ProgramCommand(address, data[done..done + size]);
      if took {
        more := Range(address, address + size);
      }
    }

    lemma PageAligned(start: nat, done: nat)
      requires ValidGeometry(g) && start % BLOCK == 0 && done % g.pageSize == 0
      ensures (start + done) % g.pageSize == 0
    {
      hide ValidGeometry;
      PageSizeIs();
      var blocks := start / BLOCK;
      if g.pageSize == 256 {
        assert start + done == done + 2 * blocks * 256;
        ShiftMod(done, 2 * blocks, 256);
      } else {
        ShiftMod(done, blocks, 512);
      }
    }

    /** One page program command; no chunk reaches past the end of its page. took says whether it
        took effect, which on an idle chip is a matter of its fate. */
    method ProgramCommand(address: nat, data: seq<bv8>) returns (err: Error, again: bool, ghost took: bool)
      requires Valid() && qpi && 0 < |data| <= g.pageSize && address % g.pageSize == 0 && address + |data| <= |chip.mem|
      modifies this`links, this`log, this`looks, this`sent, this`chip, this`steady
      ensures Valid() && (steady ==> old(steady)) && err in {NoError, Timeout, TransferFailed}
      ensures err != NoError ==> !again && !steady
      ensures chip.mem == if took then Programmed(old(chip).mem, address, data) else old(chip).mem
      ensures err == NoError && !old(chip).busy ==>
                && sent == old(sent) + 1 && again == (fate(old(sent)) == Good) && chip.refused == old(chip).refused
                && took == (fate(old(sent)) != Unseen) && (steady ==> !chip.busy)
      ensures Fair() && !old(chip).busy ==> err == NoError && steady == old(steady)
      ensures old(log) <= log && Told(link, log, old(links), err, Loud) && (err == Timeout ==> Stuck(2000))
    {
      hide Programmed, AddressBytes, Told, Straight, AllFor, Stuck;
      again, took := false, false;
      ghost var l0 := log;
      NothingTold(link, l0, NoError, Loud);
      err := WriteEn(true, Latch);
      ToldMore(link, l0, log, |l0|, err, Latch, Loud);
      if err != NoError {
        return;
      }
      ProgramInsidePage(chip, g, address, data);
      took := fate(sent) != Unseen && !chip.busy;
      var ok := SendModify(PageProgram(chip, g, AddressBytes(address, g.addressLength), data));
      ghost var l1 := log;
      if !ok {
        err := WriteEn(false, Latch);
        ToldMore(link, l1, log, |l0|, err, Latch, Loud);
        return;
      }
      again := true;
      var ignored := WaitReady();
      ToldMore(link, l1, log, |l0|, ignored, Waiting, Loud);
    }

    // ------------------------------------------------------------ read, save, restore

    /** tegrabl_qspi_flash_read: one transaction; a chip that is still busy returns anything. */
    method FlashRead(startBlock: nat, blocks: nat, dest: nat) returns (err: Error, data: seq<bv8>)
      requires Valid() && startBlock + blocks <= BlockCount(g)
      modifies this`links, this`log, this`steady
      ensures (steady ==> old(steady)) && (err == NoError ==> steady == old(steady))
      ensures (blocks == 0 <==> err == Invalid) && err != NoMemory
      ensures steady && 0 < blocks && dest % 4 == 0 ==> err == NoError
      ensures err == NoError ==> |data| == blocks * BLOCK
      ensures err == NoError && !chip.busy ==> data == chip.mem[startBlock * BLOCK..(startBlock + blocks) * BLOCK]
      ensures Fair() ==> steady == old(steady)
      ensures |log| == links && log == if blocks == 0 || dest % 4 != 0 then old(log) else old(log) + [Blocks]
      ensures err == if blocks == 0 then Invalid else if dest % 4 != 0 then BadAddress
                     else if link(old(links)) then NoError else TransferFailed
    {
      data := [];
      if blocks == 0 {
        return Invalid, data;
      }
      var bytes := AddressBytes(startBlock * BLOCK, g.addressLength);
      AddressRoundTrip(g, startBlock * BLOCK);
      if dest % 4 != 0 {
        return BadAddress, data;
      }
      var ok := Transact(Blocks);
      if !ok {
        return TransferFailed, data;
      }
      err := NoError;
      if chip.busy {
        data := AnyBytes(blocks * BLOCK);
      } else {
        data := chip.mem[AddressOf(bytes)..AddressOf(bytes) + blocks * BLOCK];
      }
    }

    /** Read the blocks that share a sector with the erased range, if any. */
    method Backup(startBlock: nat, blocks: nat) returns (err: Error, data: seq<bv8>)
      requires Valid() && startBlock + blocks <= BlockCount(g)
      modifies this`links, this`log, this`rooms, this`steady
      ensures (steady ==> old(steady)) && err != Invalid
      ensures steady ==> err == NoError || err == NoMemory
      ensures err == NoError ==> |data| == blocks * BLOCK
      ensures err == NoError && !chip.busy ==> data == chip.mem[startBlock * BLOCK..(startBlock + blocks) * BLOCK]
      ensures Fair() ==> steady == old(steady) && err != NoMemory
      ensures rooms == old(rooms) + (if blocks == 0 then 0 else 1) && |log| == links
      ensures log == if blocks == 0 || !room(old(rooms)) then old(log) else old(log) + [Blocks]
      ensures Told(link, log, old(links), err, Loud)
      ensures err == if blocks == 0 then NoError else if !room(old(rooms)) then NoMemory
                     else if link(old(links)) then NoError else TransferFailed
    {
      err, data := NoError, [];
      if blocks != 0 {
        var full := !room(rooms);
        rooms := rooms + 1;
        if full {
          return NoMemory, data;
        }
        err, data := FlashRead(startBlock, blocks, 0);
      }
    }

    /** Program back what was saved, if anything. */
    method Restore(startBlock: nat, data: seq<bv8>, blocks: nat) returns (err: Error, ghost marks: set<int>)
      requires Valid() && startBlock + blocks <= BlockCount(g) && |data| == blocks * BLOCK
      modifies this`links, this`log, this`looks, this`sent, this`chip, this`steady, this`qpi
      ensures Valid() && (steady ==> old(steady)) && err != Invalid && err != NoMemory
      ensures chip.mem == Stored(old(chip).mem, startBlock * BLOCK, data, marks)
      ensures marks <= Range(startBlock * BLOCK, (startBlock + blocks) * BLOCK)
      ensures steady && !old(chip).busy ==>
                && err == NoError && Quiet(old(chip)) && sent == old(sent) + Sent(fate, old(sent), Pages(g, |data|))
                && marks == Range(startBlock * BLOCK,
                                  startBlock * BLOCK + PageBytes(g, Taken(fate, old(sent), Pages(g, |data|))))
      ensures Fair() && !old(chip).busy ==> steady == old(steady)
      ensures old(log) <= log && Told(link, log, old(links), err, Loud) && (err == Timeout ==> Stuck(2000))
      ensures err in {NoError, Timeout, TransferFailed} && (err == NoError && (0 < blocks || !old(qpi)) ==> !qpi)
    {
      hide Stored, Range, Told, Stuck;
      NothingTold(link, log, NoError, Loud);
      err, marks := NoError, {};
      NothingStored(chip.mem, startBlock * BLOCK, data);
      RangeJoin(startBlock * BLOCK, startBlock * BLOCK, startBlock * BLOCK);
      if blocks != 0 {
        err, marks := FlashWrite(startBlock, blocks, 0, data);
      }
    }

    /** Erase whole sectors, sector 0 through its parameter sectors first; the result of the
        parameter erase is not looked at. */
    method EraseSectors(start: nat, count: nat) returns (err: Error, ghost marks: set<int>)
      requires Valid() && 0 < count && start + count <= g.sectorCount
      modifies this`links, this`log, this`looks, this`sent, this`chip, this`steady, this`quad
      ensures Valid() && (steady ==> old(steady)) && err != Invalid && err != NoMemory
      ensures chip.mem == Partly(old(chip).mem, marks, {})
      ensures marks <= Range(SectorByte(g, start), SectorByte(g, start + count))
      ensures steady && !old(chip).busy ==>
                err == NoError && Quiet(old(chip)) && sent == SentErasing(old(sent), start, count)
                && marks == TakenErasing(old(sent), start, count)
      ensures Fair() && !old(chip).busy ==> steady == old(steady)
      ensures old(log) <= log && Told(link, log, old(links), err, Speaks(start)) && (err == Timeout ==> Stuck(2000))
      ensures err in {NoError, Timeout, TransferFailed} && (err == NoError ==> quad)
    {
      hide Partly, Range, Sent, Taken, SectorByte, Spared, Told, Stuck;
      ghost var l0 := log;
      NothingTold(link, l0, NoError, Loud);
      ghost var before, params := chip.mem, {};
      NoMarks(chip.mem);
      RangeJoin(0, 0, 0);
      SectorByteNext(g, 0);
      SectorByteNext(g, start + count - 1);
      if start == 0 {
        var ignored;
        ignored, params := ParameterSectorErase(0, 8);
        SmallSectors(params, count);
        ToldQuiet(link, log, |l0|, NoError);
      }
      ghost var l1 := log;
      err, marks := SectorErases(start, count);
      if start == 0 {
        ToldLess(link, log, |l1|, err);
      }
      ToldThen(link, l1, log, |l0|, err, Speaks(start));
      EraseTwoMarks(before, params, marks);
      marks := params + marks;
    }

    /** Sector 0 is erased with its parameter sectors. */
    ghost function Speaks(sector: nat): Voice {
      if sector == 0 then Mixed else Loud
    }

    /** The parameter sectors are within sector 0. */
    lemma SmallSectors(params: set<int>, count: nat)
      requires ValidGeometry(g) && 0 < count <= g.sectorCount && params <= Range(0, 8 * PARAM_SECTOR)
      ensures params <= Range(SectorByte(g, 0), SectorByte(g, count))
    {
      SectorByteNext(g, 0);
      SectorByteNext(g, count);
      RangeInside(0, 8 * PARAM_SECTOR, SectorByte(g, 0), SectorByte(g, count));
    }

    /** Parameter sector commands sent ahead of sector start, by the fates from the from-th on. */
    ghost function ParamsSent(from: nat, start: nat): nat {
      if start == 0 && g.paramSectors == 8 then Sent(fate, from, 8) else 0
    }

    /** Bytes erased by them. */
    ghost function SmallTaken(from: nat, start: nat): nat {
      if start == 0 && g.paramSectors == 8 then Taken(fate, from, 8) * PARAM_SECTOR else 0
    }

    lemma SmallFacts(from: nat, start: nat)
      requires ValidGeometry(g)
      ensures SmallTaken(from, start) <= 8 * PARAM_SECTOR
      ensures 0 < SmallTaken(from, start) || 0 < Spared(g, start) ==> start == 0
    {
    }

    ghost function SentErasing(from: nat, start: nat, count: nat): nat {
      var next := from + ParamsSent(from, start);
      next + Sent(fate, next, count)
    }

    /** What they and the sector commands after them erase. */
    ghost function TakenErasing(from: nat, start: nat, count: nat): set<int> {
      var next := from + ParamsSent(from, start);
      Range(0, SmallTaken(from, start))
      + Range(SectorByte(g, start) + Spared(g, start), SectorByte(g, start + Taken(fate, next, count)))
    }

    /** The request is the whole chip, and the chip has a command for that. */
    predicate Bulk(block: nat, count: nat) {
      block == 0 && count == BlockCount(g) && g.bulkErase
    }

    /** qspi_bdev_erase. A failed transfer that the driver heeds is the last of the run and its error
        the result; without one the result is success, unless the chip has been stuck. Where saving
        head and tail fails, nothing has been erased. In every run a byte of the chip holds ones if
        an erase command for it took effect and no later program command put it back, and what it
        held before if not; nothing outside the sectors from first up to end is concerned. So
        exactly the request has been erased if and only if no byte made a difference (Truthful).
        In a steady run the driver reports success whatever the fates of its commands, and those
        alone decide which took effect; if all went well, exactly the request has been erased. */
    method BdevErase(block: nat, count: nat)
      returns (err: Error, ghost first: nat, ghost end: nat, ghost p: Plan,
               ghost erased: set<int>, ghost restored: set<int>)
      requires Valid() && !chip.busy && block + count <= BlockCount(g)
      modifies this
      ensures Valid() && (steady ==> old(steady))
      ensures count == 0 <==> err == Invalid
      ensures count == 0 || err == NoMemory ==> chip == old(chip)
      ensures 0 < count ==> Covering(g, first, end, block, block + count)
      ensures chip.mem == Partly(old(chip).mem, erased, restored)
      ensures erased <= Range(SectorByte(g, first), SectorByte(g, end))
      ensures restored !! Range(block * BLOCK, (block + count) * BLOCK)
      ensures chip.mem == Erased(old(chip).mem, block * BLOCK, (block + count) * BLOCK)
              <==> Truthful(old(chip).mem, erased, restored, block * BLOCK, (block + count) * BLOCK)
      ensures 0 < count && !Bulk(block, count) ==>
                && Encloses(p, block, block + count) && first == p.sector && end == p.sector + p.sectors
                && Told(link, log, old(links), err, Speaks(p.sector)) && (err == Timeout ==> Stuck(2000))
                && err in {NoError, Timeout, TransferFailed, NoMemory}
                && var saved := Saving(p, old(links), old(rooms));
                   if saved != NoError then err == saved && chip == old(chip) else err != NoMemory
      ensures 0 < count && Bulk(block, count) ==>
                && (forall n: nat :: old(links) <= n < links && !link(n) ==> err == TransferFailed && n == links - 1)
                && (err == NoError ==> fate(old(sent)) == Good)
                && err in {NoError, Timeout, TransferFailed} && (err == Timeout ==> Stuck(2000))
      ensures err == NoError && !Bulk(block, count) ==> quad && (old(qpi) || !qpi)
      ensures steady && 0 < count && !Bulk(block, count) && err != NoMemory ==>
                && err == NoError && Quiet(old(chip))
                && erased == TakenErasing(old(sent), p.sector, p.sectors)
                && restored == TakenRestoring(SentErasing(old(sent), p.sector, p.sectors), p)
      ensures err == NoError && Bulk(block, count) ==>
                Quiet(old(chip)) && chip.mem == Erased(old(chip).mem, block * BLOCK, (block + count) * BLOCK)
      ensures steady && err == NoError && AllGood(fate, old(sent), sent) ==>
                Quiet(old(chip)) && chip.mem == Erased(old(chip).mem, block * BLOCK, (block + count) * BLOCK)
      ensures Fair() ==> steady == old(steady) && err != NoMemory
    {
      hide SectorByte, Encloses, Covering, Partly, Range, Erased, Truthful, TakenErasing, TakenRestoring, SentErasing;
      hide AllGood, SentRestoring, Told, Stuck, Saving;
      first, end, erased, restored, p := 0, 0, {}, {}, Plan(0, 0, 0, 0, 0, 0);
      NoMarks(chip.mem);
      TruthfulIff(chip.mem, {}, {}, block * BLOCK, (block + count) * BLOCK);
      if count == 0 {
        EraseNothing(chip.mem, block * BLOCK);
        err := Invalid;
        return;
      }
      if block == 0 && count == BlockCount(g) && g.bulkErase {
        first, end := 0, g.sectorCount;
        WholeChip(g);
        err, erased := BulkErases();
        EraseWhole(old(chip).mem, 0, |chip.mem|);
        TruthfulIff(old(chip).mem, erased, {}, 0, count * BLOCK);
        return;
      }
      err, p, erased, restored := ErasePlanned(block, count);
      first, end := p.sector, p.sector + p.sectors;
      TruthfulIff(old(chip).mem, erased, restored, block * BLOCK, (block + count) * BLOCK);
    }

    /** The part of qspi_bdev_erase that goes sector by sector. */
    method ErasePlanned(block: nat, count: nat)
      returns (err: Error, ghost p: Plan, ghost erased: set<int>, ghost restored: set<int>)
      requires Valid() && !chip.busy && 0 < count && block + count <= BlockCount(g)
      modifies this
      ensures Valid() && (steady ==> old(steady)) && err != Invalid
      ensures err == NoMemory ==> chip == old(chip)
      ensures Covering(g, p.sector, p.sector + p.sectors, block, block + count) && Encloses(p, block, block + count)
      ensures chip.mem == Partly(old(chip).mem, erased, restored)
      ensures erased <= Range(SectorByte(g, p.sector), SectorByte(g, p.sector + p.sectors))
      ensures restored !! Range(block * BLOCK, (block + count) * BLOCK)
      ensures steady && err != NoMemory ==>
                && err == NoError && Quiet(old(chip))
                && erased == TakenErasing(old(sent), p.sector, p.sectors)
                && restored == TakenRestoring(SentErasing(old(sent), p.sector, p.sectors), p)
                && sent == SentRestoring(SentErasing(old(sent), p.sector, p.sectors), p)
      ensures steady && err == NoError && AllGood(fate, old(sent), sent) ==>
                chip.mem == Erased(old(chip).mem, block * BLOCK, (block + count) * BLOCK)
      ensures Fair() ==> steady == old(steady) && err != NoMemory
      ensures old(log) <= log && Told(link, log, old(links), err, Speaks(p.sector)) && (err == Timeout ==> Stuck(2000))
      ensures err in {NoError, Timeout, TransferFailed, NoMemory} && (err == NoError ==> quad && (old(qpi) || !qpi))
      ensures var saved := Saving(p, old(links), old(rooms));
              if saved != NoError then err == saved && chip == old(chip) else err != NoMemory
    {
      hide SectorByte, Encloses, Covering, Partly, Range, Erased, AllGood, Told, Stuck;
      ghost var l0 := log;
      hide TakenErasing, TakenRestoring, SentErasing, SentRestoring;
      erased, restored := {}, {};
      NoMarks(chip.mem);
      var plan := PlanErase(block, count);
      p := plan;
      var head, tail;
      err, head, tail := BackupAround(plan, block, block + count);
      ghost var l1 := log;
      if plan.sector == 0 {
        ToldLess(link, l1, |l0|, err);
      }
      if err == NoError {
        err, erased, restored := EraseAndRestore(plan, block, block + count, head, tail);
        ToldThen(link, l1, log, |l0|, err, Speaks(plan.sector));
        if steady && AllGood(fate, old(sent), sent) {
          AllTaken(p, block, block + count, old(sent), old(chip).mem);
        }
      }
    }

    /** What saving head and tail comes to, by the schedule: for each that is not empty an allocation
        and a transfer. */
    ghost function Saving(p: Plan, at: nat, rm: nat): Error {
      var h, t := p.headCount != 0, p.tailCount != 0;
      var at', rm' := if h then at + 1 else at, if h then rm + 1 else rm;
      if h && !room(rm) then NoMemory
      else if h && !link(at) then TransferFailed
      else if t && !room(rm') then NoMemory
      else if t && !link(at') then TransferFailed
      else NoError
    }

    /** Save what shares the first and the last sector; the chip is only read. */
    method BackupAround(p: Plan, ghost from: nat, ghost to: nat) returns (err: Error, head: seq<bv8>, tail: seq<bv8>)
      requires Valid() && !chip.busy && Encloses(p, from, to)
      modifies this`links, this`log, this`rooms, this`steady
      ensures err != Invalid && (steady ==> old(steady))
      ensures steady ==> err == NoError || err == NoMemory
      ensures err == NoError ==>
                && head == chip.mem[p.headStart * BLOCK..from * BLOCK]
                && tail == chip.mem[to * BLOCK..(to + p.tailCount) * BLOCK]
      ensures Fair() ==> steady == old(steady) && err != NoMemory
      ensures err == Saving(p, old(links), old(rooms))
      ensures old(log) <= log && |log| == links && Told(link, log, old(links), err, Loud)
    {
      hide Told;
      ghost var l0 := log;
      tail := [];
      err, head := Backup(p.headStart, p.headCount);
      if err == NoError {
        ghost var l1 := log;
        err, tail := Backup(p.tailStart, p.tailCount);
        ToldThen(link, l1, log, |l0|, err, Loud);
      }
    }

    /** The plan p encloses the blocks [from, to): sectors start at its head and end with its tail. */
    ghost predicate Encloses(p: Plan, from: nat, to: nat) {
      && ValidGeometry(g)
      && 0 < p.sectors && p.sector + p.sectors <= g.sectorCount
      && p.headStart * BLOCK == SectorByte(g, p.sector) && p.headStart + p.headCount == from <= to
      && (p.tailCount != 0 ==> p.tailStart == to)
      && (p.tailCount == 0 ==> p.tailStart == 0 || p.tailStart == to)
      && (to + p.tailCount) * BLOCK == SectorByte(g, p.sector + p.sectors) <= BlockCount(g) * BLOCK
    }

    /** What the program commands for head and tail put back, by the fates from the from-th on. */
    ghost function TakenRestoring(from: nat, p: Plan): set<int> {
      var h, t := Pages(g, p.headCount * BLOCK), Pages(g, p.tailCount * BLOCK);
      Range(p.headStart * BLOCK, p.headStart * BLOCK + PageBytes(g, Taken(fate, from, h)))
      + Range(p.tailStart * BLOCK, p.tailStart * BLOCK + PageBytes(g, Taken(fate, from + Sent(fate, from, h), t)))
    }

    ghost function SentRestoring(from: nat, p: Plan): nat {
      var h, t := Pages(g, p.headCount * BLOCK), Pages(g, p.tailCount * BLOCK);
      var next := from + Sent(fate, from, h);
      next + Sent(fate, next, t)
    }

    /** Erase the sectors, then program head and tail back. */
    method EraseAndRestore(p: Plan, ghost from: nat, ghost to: nat, head: seq<bv8>, tail: seq<bv8>)
      returns (err: Error, ghost erased: set<int>, ghost restored: set<int>)
      requires Valid() && !chip.busy && Encloses(p, from, to)
      requires head == chip.mem[p.headStart * BLOCK..from * BLOCK]
      requires tail == chip.mem[to * BLOCK..(to + p.tailCount) * BLOCK]
      modifies this`links, this`log, this`looks, this`sent, this`chip, this`steady, this`quad, this`qpi
      ensures Valid() && (steady ==> old(steady)) && err != Invalid && err != NoMemory
      ensures chip.mem == Partly(old(chip).mem, erased, restored)
      ensures erased <= Range(SectorByte(g, p.sector), SectorByte(g, p.sector + p.sectors))
      ensures restored !! Range(from * BLOCK, to * BLOCK)
      ensures steady ==>
                && err == NoError && Quiet(old(chip))
                && erased == TakenErasing(old(sent), p.sector, p.sectors)
                && restored == TakenRestoring(SentErasing(old(sent), p.sector, p.sectors), p)
                && sent == SentRestoring(SentErasing(old(sent), p.sector, p.sectors), p)
      ensures Fair() ==> steady == old(steady)
      ensures old(log) <= log && Told(link, log, old(links), err, Speaks(p.sector)) && (err == Timeout ==> Stuck(2000))
      ensures err in {NoError, Timeout, TransferFailed} && (err == NoError ==> quad && (old(qpi) || !qpi))
    {
      hide SectorByte, ValidGeometry, Partly, Stored, Range, TakenErasing, SentErasing, Sent, Taken, Pages, PageBytes;
      hide Told, Stuck;
      ghost var l0 := log;
      ghost var before, headMarks, tailMarks := chip.mem, {}, {};
      ghost var lo, hi := p.headStart * BLOCK, (to + p.tailCount) * BLOCK;
      restored := {};
      err, erased := EraseSectors(p.sector, p.sectors);
      if err != NoError {
        return;
      }
      ghost var l1 := log;
      err, headMarks := Restore(p.headStart, head, p.headCount);
      ToldOn(l1, log, |l0|, err, p.sector);
      RestoreMarks(before, erased, {}, lo, from * BLOCK - lo, headMarks);
      MarksApart(headMarks, lo, from * BLOCK, from * BLOCK, to * BLOCK);
      restored := {} + headMarks;
      if err != NoError {
        return;
      }
      ghost var l2 := log;
      err, tailMarks := Restore(p.tailStart, tail, p.tailCount);
      ToldOn(l2, log, |l0|, err, p.sector);
      if p.tailCount == 0 {
        EmptyRange(tailMarks, p.tailStart * BLOCK);
        NothingStored(Partly(before, erased, restored), p.tailStart * BLOCK, tail);
        assert restored + tailMarks == restored;
      } else {
        RestoreMarks(before, erased, restored, to * BLOCK, hi - to * BLOCK, tailMarks);
        MarksApart(tailMarks, to * BLOCK, hi, from * BLOCK, to * BLOCK);
      }
      restored := restored + tailMarks;
    }

    lemma ToldOn(before: seq<Purpose>, now: seq<Purpose>, from: nat, err: Error, sector: nat)
      requires Told(link, before, from, NoError, Speaks(sector)) && before <= now
      requires Told(link, now, |before|, err, Loud)
      ensures Told(link, now, from, err, Speaks(sector))
    {
      hide Told;
      if sector == 0 {
        ToldLess(link, now, |before|, err);
      }
      ToldThen(link, before, now, from, err, Speaks(sector));
    }

    /** If no command of a steady run failed, all sectors are erased and all pages put back. */
    lemma AllTaken(p: Plan, from: nat, to: nat, first: nat, mem: seq<bv8>)
      requires Encloses(p, from, to) && |mem| == BlockCount(g) * BLOCK
      requires AllGood(fate, first, SentRestoring(SentErasing(first, p.sector, p.sectors), p))
      ensures Partly(mem, TakenErasing(first, p.sector, p.sectors),
                     TakenRestoring(SentErasing(first, p.sector, p.sectors), p))
           == Erased(mem, from * BLOCK, to * BLOCK)
    {
      hide Partly, Erased, Sent, Taken, Pages, PageBytes, SectorByte, Range;
      var n1 := first + ParamsSent(first, p.sector);
      var n2 := SentErasing(first, p.sector, p.sectors);
      var h, t := Pages(g, p.headCount * BLOCK), Pages(g, p.tailCount * BLOCK);
      var n3 := n2 + Sent(fate, n2, h);
      AllGoodParts(fate, first, n1, n2, n3, SentRestoring(n2, p));
      if p.sector == 0 && g.paramSectors == 8 {
        GoodMeansAll(fate, first, 8);
      }
      GoodMeansAll(fate, n1, p.sectors);
      GoodMeansAll(fate, n2, h);
      GoodMeansAll(fate, n3, t);
      PageFacts(p.headCount * BLOCK, h);
      PageFacts(p.tailCount * BLOCK, t);
      var lo, hi := p.headStart * BLOCK, (to + p.tailCount) * BLOCK;
      ErasedAll(p.sector, p.sectors);
      RangeJoin(p.tailStart * BLOCK, p.tailStart * BLOCK, p.tailStart * BLOCK);
      RangeJoin(to * BLOCK, to * BLOCK, to * BLOCK);
      AroundRequest(mem, lo, from * BLOCK, to * BLOCK, hi);
    }

    /** Which commands of the plan may be missing: none but some whose bytes make no difference on a
        chip with parameter sectors. Where all sector commands took effect, parameter sectors that
        no byte of the request lies in, and then pages of the head or tail that were not erased in
        the first place; where the one sector command did not, it and pages beyond the parameter
        sectors that were erased, if those hold the request. */
    ghost predicate SkipsHarmless(p: Plan, from: nat, to: nat, first: nat) {
      var n2 := SentErasing(first, p.sector, p.sectors);
      var h, t := Pages(g, p.headCount * BLOCK), Pages(g, p.tailCount * BLOCK);
      var eh, et := Taken(fate, n2, h), Taken(fate, n2 + Sent(fate, n2, h), t);
      var small, spared := SmallTaken(first, p.sector), Spared(g, p.sector);
      if Taken(fate, first + ParamsSent(first, p.sector), p.sectors) == p.sectors then
        && (spared <= small || to * BLOCK <= small || spared <= from * BLOCK)
        && (eh == h || (spared == from * BLOCK && small <= PageBytes(g, eh)))
        && (et == t || ((to + p.tailCount) * BLOCK <= spared && small <= to * BLOCK + PageBytes(g, et)))
      else
        && Taken(fate, first + ParamsSent(first, p.sector), p.sectors) == 0
        && to * BLOCK <= small && eh == h && (et == t || small <= to * BLOCK + PageBytes(g, et))
    }

    /** The condition by commands: where no byte of the sectors concerned held ones, a success is
        truthful if and only if every command took effect but harmless ones. A command may be
        skipped because its own transfer failed or because an earlier one ended its loop. */
    lemma SkippedIff(p: Plan, from: nat, to: nat, first: nat, mem: seq<bv8>)
      requires Encloses(p, from, to) && Covering(g, p.sector, p.sector + p.sectors, from, to)
      requires |mem| == BlockCount(g) * BLOCK && from < to
      requires NoOnes(mem, SectorByte(g, p.sector), SectorByte(g, p.sector + p.sectors))
      ensures Truthful(mem, TakenErasing(first, p.sector, p.sectors),
                       TakenRestoring(SentErasing(first, p.sector, p.sectors), p), from * BLOCK, to * BLOCK)
              <==> SkipsHarmless(p, from, to, first)
    {
      hide Truthful, Sent, Taken, Pages, PageBytes, SectorByte, Range, NoOnes, Covering, Spared;
      hide SentErasing, ParamsSent, SmallTaken, ValidGeometry;
      var n2 := SentErasing(first, p.sector, p.sectors);
      var h, t := Pages(g, p.headCount * BLOCK), Pages(g, p.tailCount * BLOCK);
      var es := Taken(fate, first + ParamsSent(first, p.sector), p.sectors);
      var eh, et := Taken(fate, n2, h), Taken(fate, n2 + Sent(fate, n2, h), t);
      var lo, hi := p.headStart * BLOCK, (to + p.tailCount) * BLOCK;
      var headDone, tailDone := lo + PageBytes(g, eh), to * BLOCK + PageBytes(g, et);
      PageFacts(p.headCount * BLOCK, eh);
      PageFacts(p.tailCount * BLOCK, et);
      PageFacts(0, 0);
      TopOfErased(p, from, to, es);
      SmallFacts(first, p.sector);
      RangeJoin(p.tailStart * BLOCK, p.tailStart * BLOCK, p.tailStart * BLOCK);
      RangeJoin(to * BLOCK, to * BLOCK, to * BLOCK);
      SkipsTell(mem, lo, from * BLOCK, to * BLOCK, hi, SmallTaken(first, p.sector), Spared(g, p.sector),
                SectorByte(g, p.sector + es), headDone, tailDone);
    }

    /** Where the erase commands stopped: at the end, or before the end of the request. */
    lemma TopOfErased(p: Plan, from: nat, to: nat, es: nat)
      requires Encloses(p, from, to) && Covering(g, p.sector, p.sector + p.sectors, from, to) && es <= p.sectors
      ensures var lo, top := SectorByte(g, p.sector), SectorByte(g, p.sector + es);
              var hi := SectorByte(g, p.sector + p.sectors);
              && lo <= top <= hi && (top == hi <==> es == p.sectors) && (top == lo <==> es == 0)
              && (es < p.sectors ==> top < to * BLOCK) && (0 < es ==> 8 * PARAM_SECTOR <= top)
              && (p.sector == 0 ==> lo == 0) && (0 < p.sector ==> 0 < lo) && 8 * PARAM_SECTOR <= hi
    {
      hide SectorByte, ValidGeometry;
      SectorZero();
      SectorOrder(0, p.sector);
      SectorOrder(p.sector, p.sector + es);
      SectorOrder(p.sector + es, p.sector + p.sectors);
      SectorOrder(0, p.sector + p.sectors);
      if es < p.sectors {
        SectorOrder(p.sector + es, p.sector + p.sectors - 1);
      }
    }

    lemma SectorOrder(a: nat, b: nat)
      requires ValidGeometry(g) && a <= b
      ensures SectorByte(g, a) <= SectorByte(g, b)
      ensures a < b ==> SectorByte(g, a) + 8 * PARAM_SECTOR <= SectorByte(g, b)
    {
      hide SectorByte;
      SectorByteNext(g, b);
      if a < b {
        SectorByteNext(g, a);
        SectorByteNext(g, b - 1);
        SectorByteNext(g, b);
      }
    }

    /** Without parameter sectors no skipped command is harmless. */
    lemma NoParameterSectors(p: Plan, from: nat, to: nat, first: nat)
      requires Encloses(p, from, to) && Covering(g, p.sector, p.sector + p.sectors, from, to)
      requires g.paramSectors == 0 && from < to
      ensures var n2 := SentErasing(first, p.sector, p.sectors);
              var h, t := Pages(g, p.headCount * BLOCK), Pages(g, p.tailCount * BLOCK);
              SkipsHarmless(p, from, to, first)
              <==> Taken(fate, first, p.sectors) == p.sectors && Taken(fate, n2, h) == h
                   && Taken(fate, n2 + Sent(fate, n2, h), t) == t
    {
      hide Taken, Sent, SectorByte;
      TopOfErased(p, from, to, 0);
    }

    /** Parameter sectors and spared sector 0 make up the whole of it. */
    lemma ErasedAll(start: nat, count: nat)
      requires ValidGeometry(g) && 0 < count && start + count <= g.sectorCount
      ensures Range(0, if start == 0 && g.paramSectors == 8 then 8 * PARAM_SECTOR else 0)
              + Range(SectorByte(g, start) + Spared(g, start), SectorByte(g, start + count))
           == Range(SectorByte(g, start), SectorByte(g, start + count))
    {
      hide Range, SectorByte;
      RangeJoin(0, 0, 0);
      SectorByteNext(g, 0);
      SectorByteNext(g, start + count - 1);
      if start == 0 && g.paramSectors == 8 {
        assert SectorByte(g, 0) == 0 by {
          SectorZero();
        }
        RangeJoin(0, 8 * PARAM_SECTOR, SectorByte(g, count));
        RangeInside(0, 8 * PARAM_SECTOR, 0, SectorByte(g, count));
      }
    }

    lemma SectorZero()
      ensures SectorByte(g, 0) == 0
    {
    }

    /** Which sectors to erase and which blocks to save around the request. */
    method PlanErase(block: nat, count: nat) returns (p: Plan)
      requires ValidGeometry(g) && 0 < count && block + count <= BlockCount(g)
      ensures Encloses(p, block, block + count)
      ensures Covering(g, p.sector, p.sector + p.sectors, block, block + count)
    {
      hide FloorOf, CeilOf, BlockToSector;
      SectorsCover(g, block, count);
      FloorTimes(block, g.sectorBlocks);
      TimesIs(FloorOf(block, g.sectorBlocks), g.sectorBlocks);
      TimesIs(SectorsUpTo(g, block + count), g.sectorBlocks);
      BlockToSectorIs(g, block);
      CeilIsFloor(block + count, g.sectorBlocks);
      BlockToSectorIs(g, block + count + (g.sectorBlocks - 1));
      var sector := BlockToSector(g, block);
      if count == BlockCount(g) {
        p := Plan(sector, SectorsUpTo(g, count), 0, 0, 0, 0);
      } else {
        var tailStart := block + count;
        var end := BlockToSector(g, tailStart + (g.sectorBlocks - 1));
        p := Plan(sector, end - sector, sector * g.sectorBlocks, block % g.sectorBlocks,
                  tailStart, end * g.sectorBlocks - tailStart);
      }
    }
  }

  // ------------------------------------------------------------ a success that is not one

  /** Two sectors of 32 KiB, programmed with zeros; all goes well but the n-th erase or program
      command, which the chip does not see. */
  const TWO_SECTORS := Geometry(64, 2, 256, 0, false, 3, false)

  function Zeros(): seq<bv8> {
    seq(0x1_0000, _ => 0)
  }

  lemma TwoSectors()
    ensures ValidGeometry(TWO_SECTORS) && BlockCount(TWO_SECTORS) == 128
    ensures SectorByte(TWO_SECTORS, 0) == 0 && SectorByte(TWO_SECTORS, 1) == 0x8000
    ensures SectorByte(TWO_SECTORS, 2) == 0x1_0000
  {
    assert Times(1, 64) == 64;
    assert Times(2, 64) == 128;
  }

  /** Erasing sector 0: the erase command is lost, the driver reports success, and nothing has been
      erased. */
  method SectorNotErased() returns (d: FlashDriver, err: Error)
    ensures fresh(d) && err == NoError && d.chip.mem == Zeros()
    ensures d.chip.mem != Erased(Zeros(), 0, 0x8000)
  {
    TwoSectors();
    d := new FlashDriver(TWO_SECTORS, Zeros(), n => true, n => true, n => true, n => if n == 0 then Unseen else Good);
    ghost var first, end, p, erased, restored;
    err, first, end, p, erased, restored := d.BdevErase(0, 64);
    assert Erased(Zeros(), 0, 0x8000)[0] == ONES;
  }

  /** The sectors, the page commands and their fates, of erasing all of sector 0 but its first block. */
  lemma HeadPlan(d: FlashDriver, p: Plan)
    requires d.g == TWO_SECTORS && d.Encloses(p, 1, 64) && Covering(TWO_SECTORS, p.sector, p.sector + p.sectors, 1, 64)
    ensures p.sector == 0 && p.sectors == 1 && p.headStart == 0 && p.headCount == 1 && p.tailCount == 0
  {
    hide SectorByte;
    TwoSectors();
    SectorByteNext(TWO_SECTORS, p.sector);
    SectorByteNext(TWO_SECTORS, p.sector + p.sectors - 1);
  }

  lemma HeadFates(d: FlashDriver, p: Plan)
    requires d.g == TWO_SECTORS && d.fate(0) == Good && d.fate(1) == Unseen
    requires p.sector == 0 && p.sectors == 1 && p.headStart == 0 && p.headCount == 1 && p.tailCount == 0
    ensures d.TakenErasing(0, 0, 1) == Range(0, 0x8000) && d.SentErasing(0, 0, 1) == 1
    ensures d.TakenRestoring(1, p) == {}
  {
    hide Range, SectorByte;
    TwoSectors();
    RangeJoin(0, 0, 0x8000);
    RangeJoin(0, 0, 0);
    RangeJoin(p.tailStart * BLOCK, p.tailStart * BLOCK, p.tailStart * BLOCK);
    GoodSoFar(d.fate, 0, 1, 1);
    GoodSoFar(d.fate, 1, 2, 0);
  }

  lemma BlockGone(after: seq<bv8>)
    requires after == Partly(Zeros(), Range(0, 0x8000), {})
    ensures |after| == 0x1_0000 && forall i :: 0 <= i < 0x200 ==> after[i] == ONES && Zeros()[i] == 0
  {
  }

  /** Erasing all of sector 0 but its first block: the first program command is lost, the driver
      reports success, and the block that was to be kept is gone. */
  method HeadPageLost() returns (d: FlashDriver, err: Error)
    ensures fresh(d) && err == NoError && |d.chip.mem| == 0x1_0000
    ensures forall i :: 0 <= i < 0x200 ==> d.chip.mem[i] == ONES && Zeros()[i] == 0
  {
    hide *;
    TwoSectors();
    var zeros := Zeros();
    ZerosLength();
    d := new FlashDriver(TWO_SECTORS, zeros, n => true, n => true, n => true, n => if n == 1 then Unseen else Good);
    ghost var first, end, p, erased, restored;
    NothingElseFails(d);
    err, first, end, p, erased, restored := d.BdevErase(1, 63);
    HeadPlan(d, p);
    HeadFates(d, p);
    BlockGone(d.chip.mem);
  }

  /** The same request, where reading the first block fails: the driver reports it, and has not touched
      the chip. */
  method HeadUnread() returns (d: FlashDriver, err: Error)
    ensures fresh(d) && err == TransferFailed && d.chip.mem == Zeros()
  {
    hide *;
    TwoSectors();
    var zeros := Zeros();
    ZerosLength();
    d := new FlashDriver(TWO_SECTORS, zeros, n => n != 0, n => true, n => true, n => Good);
    ghost var first, end, p, erased, restored;
    HeadIsNotBulk(d);
    err, first, end, p, erased, restored := d.BdevErase(1, 63);
    HeadPlan(d, p);
    FirstReadFails(d, p);
  }

  lemma HeadIsNotBulk(d: FlashDriver)
    ensures !d.Bulk(1, 63)
  {
  }

  lemma FirstReadFails(d: FlashDriver, p: Plan)
    requires p.headCount == 1 && d.room(0) && !d.link(0)
    ensures d.Saving(p, 0, 0) == TransferFailed
  {
  }

  lemma NothingElseFails(d: FlashDriver)
    requires forall n: nat :: d.link(n) && d.ended(n) && d.room(n)
    ensures d.Fair() && !d.Bulk(1, 63)
  {
  }

  lemma ZerosLength()
    ensures |Zeros()| == BlockCount(TWO_SECTORS) * BLOCK
  {
    TwoSectors();
  }

  datatype Plan = Plan(sector: nat, sectors: nat, headStart: nat, headCount: nat, tailStart: nat, tailCount: nat)

  function FloorOf(n: nat, p: nat): nat
    requires 0 < p
  {
    n / p
  }

  function CeilOf(n: nat, p: nat): nat
    requires 0 < p
  {
    (n + (p - 1)) / p
  }

  /** Sectors needed to reach block end. */
  function SectorsUpTo(g: Geometry, end: nat): nat
    requires 0 < g.sectorBlocks
  {
    CeilOf(end, g.sectorBlocks)
  }

  /** The sectors first..end are the least run of sectors that holds blocks from..to. */
  predicate Covering(g: Geometry, first: nat, end: nat, from: nat, to: nat) {
    && first < end <= g.sectorCount
    && SectorByte(g, first) <= from * BLOCK < SectorByte(g, first + 1)
    && SectorByte(g, end - 1) < to * BLOCK <= SectorByte(g, end)
  }

  lemma WholeChip(g: Geometry)
    requires ValidGeometry(g)
    ensures SectorByte(g, 0) == 0 && SectorByte(g, g.sectorCount) == BlockCount(g) * BLOCK
    ensures Covering(g, 0, g.sectorCount, 0, BlockCount(g))
  {
  }

  /** The sectors from block's own to SectorsUpTo enclose the request and lie on the chip. */
  lemma SectorsCover(g: Geometry, block: nat, count: nat)
    requires ValidGeometry(g) && 0 < count && block + count <= BlockCount(g)
    ensures var first, end := FloorOf(block, g.sectorBlocks), SectorsUpTo(g, block + count);
            && Covering(g, first, end, block, block + count)
            && Times(first, g.sectorBlocks) <= block < Times(first, g.sectorBlocks) + g.sectorBlocks
            && block + count <= Times(end, g.sectorBlocks) <= BlockCount(g)
  {
    hide FloorOf, CeilOf;
    var p, first, end := g.sectorBlocks, FloorOf(block, g.sectorBlocks), SectorsUpTo(g, block + count);
    FloorTimes(block, p);
    CeilTimes(block + count, p, g.sectorCount);
    FloorBelow(block, block + count, p);
    TimesGrows(end, g.sectorCount, p);
  }

  lemma CeilIsFloor(n: nat, p: nat)
    requires 0 < p
    ensures CeilOf(n, p) == FloorOf(n + (p - 1), p)
  {
  }

  lemma FloorTimes(n: nat, p: nat)
    requires 0 < p
    ensures Times(FloorOf(n, p), p) <= n < Times(FloorOf(n, p), p) + p
    ensures n - Times(FloorOf(n, p), p) == n % p
  {
    TimesIs(n / p, p);
  }

  lemma CeilTimes(n: nat, p: nat, units: nat)
    requires 0 < p && n <= Times(units, p)
    ensures n <= Times(CeilOf(n, p), p) < n + p && CeilOf(n, p) <= units
  {
    TimesIs(units, p);
    TimesIs(CeilOf(n, p), p);
    CeilBounds(n, p, units);
  }

  /** Rounding up to whole units reaches the end, overshoots by less than a unit, and stays
      within a whole number of units. */
  lemma CeilBounds(n: nat, p: nat, units: nat)
    requires 0 < p && n <= units * p
    ensures var q := (n + (p - 1)) / p;
            n <= q * p < n + p && q <= units && q * p <= units * p && (n == units * p ==> q == units)
  {
    var q := (n + (p - 1)) / p;
    assert q * p <= n + (p - 1) < q * p + p;
    Distribute(units, 1, p);
    Distribute(units, -1, p);
    MulMonotone(units + 1, q, p);
    MulMonotone(q, units, p);
    MulMonotone(q, units - 1, p);
  }

  lemma FloorBelow(a: nat, b: nat, p: nat)
    requires 0 < p && a < b
    ensures FloorOf(a, p) < CeilOf(b, p)
  {
    var q := (b + (p - 1)) / p;
    assert b + (p - 1) < q * p + p;
    MulMonotone(q, a / p, p);
  }

  lemma EraseNothing(s: seq<bv8>, at: int)
    ensures Erased(s, at, at) == s
  {
  }

  /** Erasing [lo, hi) and programming back what was around [a, b) erases exactly [a, b). */
  lemma RestoredAround(s: seq<bv8>, lo: nat, a: nat, b: nat, hi: nat)
    requires lo <= a <= b <= hi <= |s|
    ensures Programmed(Programmed(Erased(s, lo, hi), lo, s[lo..a]), b, s[b..hi]) == Erased(s, a, b)
  {
    var erased := Erased(s, lo, hi);
    ProgramOverErased(erased, lo, s[lo..a]);
    var headBack := Programmed(erased, lo, s[lo..a]);
    ProgramOverErased(headBack, b, s[b..hi]);
    var r := Programmed(headBack, b, s[b..hi]);
    forall i | 0 <= i < |s|
      ensures r[i] == Erased(s, a, b)[i]
    {
      if lo <= i < a {
        assert headBack[i] == headBack[lo..lo + |s[lo..a]|][i - lo];
      } else if b <= i < hi {
        assert r[i] == r[b..b + |s[b..hi]|][i - b];
      }
    }
  }

  /** The bytes an erase command for a sector erases. */
  ghost function TargetRange(g: Geometry, parameter: bool, sector: nat): set<int> {
    if parameter then Range(sector * PARAM_SECTOR, (sector + 1) * PARAM_SECTOR)
    else Range(SectorByte(g, sector) + Spared(g, sector), SectorByte(g, sector + 1))
  }
}
