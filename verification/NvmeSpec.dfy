// What an NVMe controller does with a read or write command: the controller's
// own reading of PRP1/PRP2 (NVM Express Base Specification 1.4, section 4.3),
// and the data movement the described pages stand for. Nothing here looks at
// how the driver builds the description.
module NvmeSpec {
  import opened Arith
  import opened Buffers
  import opened Options

  const MAX_TRANSFER := 0x80000
  const PRP_ENTRY_BYTES := 8

  datatype Opcode = Zeroed | ReadOp | WriteOp

  /** A submission queue entry; cdw12 holds the zero-based block count in 16 bits. */
  datatype Command = Command(opc: Opcode, cid: nat, cdw10: nat, cdw12: nat, prp1: nat, prp2: nat)

  const ZERO_COMMAND := Command(Zeroed, 0, 0, 0, 0, 0)

  /** Page and block sizes in bytes, and what tegrabl_create_prp_list fixed at start-up. */
  datatype Geometry = Geometry(pageSize: nat, blockSize: nat, maxSize: nat, maxEntries: nat, listAddr: nat)

  predicate ValidGeometry(g: Geometry) {
    && 4096 <= g.pageSize
    && 8 <= g.blockSize <= g.maxSize <= MAX_TRANSFER
    && g.maxSize == g.maxEntries * g.pageSize
    && g.listAddr % g.pageSize == 0
  }

  /** What the controller works on: data memory, the PRP list page, the namespace. reach: with an SMMU
      in between, the pages of data memory it lets the controller reach; faults: how many commands
      have met a page it did not. */
  datatype World = World(mem: seq<bv8>, prpList: seq<nat>, disk: seq<bv8>, reach: Option<set<nat>>, faults: nat)

  // ---------------------------------------------------------------- PRP decoding

  datatype Segment = Segment(addr: nat, len: nat)

  /** The pages named by a PRP list for len bytes; every entry must have offset 0. */
  function ListSegments(pageSize: nat, list: seq<nat>, len: nat): (r: Option<seq<Segment>>)
    requires 0 < pageSize
    decreases len
  {
    if len == 0 then Some([])
    else if list == [] || list[0] % pageSize != 0 then None
    else
      var here := Min(pageSize, len);
      match ListSegments(pageSize, list[1..], len - here)
      case None => None
      case Some(rest) => Some([Segment(list[0], here)] + rest)
  }

  /** Section 4.3: PRP1 may start inside a page; PRP2 is unused, a page, or a list. A list
      that does not fit in the rest of its page would have to be chained: None. */
  function PrpSegments(g: Geometry, list: seq<nat>, prp1: nat, prp2: nat, len: nat): (r: Option<seq<Segment>>)
    requires 0 < g.pageSize
  {
    var first := Min(len, g.pageSize - prp1 % g.pageSize);
    var rest := len - first;
    if rest == 0 then Some([Segment(prp1, first)])
    else if rest <= g.pageSize then
      if prp2 % g.pageSize != 0 then None else Some([Segment(prp1, first), Segment(prp2, rest)])
    else if prp2 != g.listAddr || PagesFor(rest, g.pageSize) > SlotsFrom(prp2, g.pageSize) then None
    else
      match ListSegments(g.pageSize, list, rest)
      case None => None
      case Some(pages) => Some([Segment(prp1, first)] + pages)
  }

  function PagesFor(len: nat, pageSize: nat): (n: nat)
    requires 0 < pageSize
  {
    (len + pageSize - 1) / pageSize
  }

  function SlotsFrom(addr: nat, pageSize: nat): (n: int)
    requires 0 < pageSize
  {
    (pageSize - addr % pageSize) / PRP_ENTRY_BYTES
  }

  // ---------------------------------------------------------------- data movement

  predicate InMemory(mem: seq<bv8>, segs: seq<Segment>) {
    forall s :: s in segs ==> s.addr + s.len <= |mem|
  }

  function TotalLen(segs: seq<Segment>): (n: nat) {
    if segs == [] then 0 else segs[0].len + TotalLen(segs[1..])
  }

  function Gather(mem: seq<bv8>, segs: seq<Segment>): (r: seq<bv8>)
    requires InMemory(mem, segs)
    ensures |r| == TotalLen(segs)
  {
    if segs == [] then [] else mem[segs[0].addr..segs[0].addr + segs[0].len] + Gather(mem, segs[1..])
  }

  function Scatter(mem: seq<bv8>, segs: seq<Segment>, data: seq<bv8>): (r: seq<bv8>)
    requires InMemory(mem, segs) && |data| == TotalLen(segs)
    ensures |r| == |mem|
    decreases |segs|
  {
    if segs == [] then mem
    else Scatter(Splice(mem, segs[0].addr, data[..segs[0].len]), segs[1..], data[segs[0].len..])
  }

  /** Move the bytes of the segments from or to the namespace at byte at. */
  function MoveData(w: World, read: bool, segs: seq<Segment>, at: nat): (r: World)
    requires InMemory(w.mem, segs) && at + TotalLen(segs) <= |w.disk|
    ensures |r.mem| == |w.mem| && |r.disk| == |w.disk| && r.prpList == w.prpList
    ensures r.reach == w.reach && r.faults == w.faults
  {
    if read then w.(mem := Scatter(w.mem, segs, w.disk[at..at + TotalLen(segs)]))
    else w.(disk := Splice(w.disk, at, Gather(w.mem, segs)))
  }

  function TransferLen(g: Geometry, c: Command): nat {
    (c.cdw12 + 1) * g.blockSize
  }

  /** The controller can carry out c: its pages decode, add up, and lie in memory, and its
      blocks lie on the namespace. */
  predicate Executable(g: Geometry, w: World, c: Command) {
    && 0 < g.pageSize
    && c.opc != Zeroed
    && c.cdw12 < 0x10000
    && c.cdw10 * g.blockSize + TransferLen(g, c) <= |w.disk|
    && var s := PrpSegments(g, w.prpList, c.prp1, c.prp2, TransferLen(g, c));
       s.Some? && InMemory(w.mem, s.value) && TotalLen(s.value) == TransferLen(g, c)
  }

  function Execute(g: Geometry, w: World, c: Command): (r: World)
    requires Executable(g, w, c)
    ensures |r.mem| == |w.mem| && |r.disk| == |w.disk| && r.prpList == w.prpList
    ensures r.reach == w.reach && r.faults == w.faults
  {
    MoveData(w, c.opc == ReadOp, PrpSegments(g, w.prpList, c.prp1, c.prp2, TransferLen(g, c)).value,
             c.cdw10 * g.blockSize)
  }

  /** Byte i of memory lies on one of the pages. */
  predicate Names(segs: seq<Segment>, i: int) {
    exists s :: s in segs && s.addr <= i < s.addr + s.len
  }

  function PageOf(i: int, pageSize: nat): int
    requires 0 < pageSize
  {
    i / pageSize
  }

  /** The controller can reach byte i of memory. */
  predicate Mapped(g: Geometry, w: World, i: int) {
    w.reach.None? || (0 < g.pageSize && PageOf(i, g.pageSize) in w.reach.value)
  }

  /** The controller can reach every byte the command names. */
  predicate Reachable(g: Geometry, w: World, c: Command) {
    0 < g.pageSize ==>
      var s := PrpSegments(g, w.prpList, c.prp1, c.prp2, TransferLen(g, c));
      s.Some? ==> forall i :: 0 <= i < |w.mem| && Names(s.value, i) ==> Mapped(g, w, i)
  }

  /** What is left if the controller rejects the command without touching anything. */
  function Rejected(g: Geometry, w: World, c: Command): World {
    if Reachable(g, w, c) then w else w.(faults := w.faults + 1)
  }

  /** What a failed command may leave behind: the bytes it names, and no others, may have
      been overwritten with anything, as far as they can be reached. */
  predicate Disturbed(g: Geometry, w: World, c: Command, after: World) {
    && |after.mem| == |w.mem| && |after.disk| == |w.disk| && after.prpList == w.prpList
    && after.reach == w.reach && after.faults == Rejected(g, w, c).faults
    && (!Executable(g, w, c) ==> after == Rejected(g, w, c))
    && (Executable(g, w, c) ==>
          var segs := PrpSegments(g, w.prpList, c.prp1, c.prp2, TransferLen(g, c)).value;
          if c.opc == ReadOp then
            && after.disk == w.disk
            && forall i :: 0 <= i < |w.mem| && !(Names(segs, i) && Mapped(g, w, i)) ==> after.mem[i] == w.mem[i]
          else
            && after.mem == w.mem
            && Untouched(w.disk, after.disk, c.cdw10 * g.blockSize, c.cdw10 * g.blockSize + TransferLen(g, c)))
  }

  /** The effect of a command the controller reports with the given status. Success takes reaching
      every byte. */
  predicate Effect(g: Geometry, w: World, c: Command, ok: bool, after: World) {
    if ok then Executable(g, w, c) && Reachable(g, w, c) && after == Execute(g, w, c) else Disturbed(g, w, c, after)
  }

  /** Whatever is reported, a command meets an unmapped page exactly if it names one. */
  lemma EffectFaults(g: Geometry, w: World, c: Command, ok: bool, after: World)
    requires Effect(g, w, c, ok, after)
    ensures after.reach == w.reach && after.faults == if Reachable(g, w, c) then w.faults else w.faults + 1
    ensures ok ==> Reachable(g, w, c)
  {
    hide PrpSegments, Names;
  }

  /** Rejecting a command is one way to fail at it. */
  lemma RejectionFails(g: Geometry, w: World, c: Command)
    ensures Effect(g, w, c, false, Rejected(g, w, c))
  {
    hide PrpSegments, Names, Mapped;
  }

  // ---------------------------------------------------------------- contiguous descriptions

  /** The segments describe exactly [addr, addr + len), in order, none empty. */
  ghost predicate Contiguous(segs: seq<Segment>, addr: nat, len: nat)
    decreases |segs|
  {
    if segs == [] then len == 0
    else
      && segs[0].addr == addr
      && 0 < segs[0].len <= len
      && Contiguous(segs[1..], addr + segs[0].len, len - segs[0].len)
  }

  lemma {:induction false} ContiguousTotal(segs: seq<Segment>, addr: nat, len: nat, mem: seq<bv8>)
    requires Contiguous(segs, addr, len) && addr + len <= |mem|
    ensures TotalLen(segs) == len && InMemory(mem, segs)
    decreases |segs|
  {
    if segs != [] {
      ContiguousTotal(segs[1..], addr + segs[0].len, len - segs[0].len, mem);
      assert forall s :: s in segs ==> s == segs[0] || s in segs[1..];
    }
  }

  /** Reading through a contiguous description reads the plain range. */
  lemma {:induction false} GatherContiguous(segs: seq<Segment>, addr: nat, len: nat, mem: seq<bv8>)
    requires Contiguous(segs, addr, len) && addr + len <= |mem|
    ensures InMemory(mem, segs) && Gather(mem, segs) == mem[addr..addr + len]
    decreases |segs|
  {
    ContiguousTotal(segs, addr, len, mem);
    if segs != [] {
      GatherContiguous(segs[1..], addr + segs[0].len, len - segs[0].len, mem);
    }
  }

  /** Writing through a contiguous description replaces the plain range. */
  lemma {:induction false} ScatterContiguous(segs: seq<Segment>, addr: nat, data: seq<bv8>, mem: seq<bv8>)
    requires Contiguous(segs, addr, |data|) && addr + |data| <= |mem|
    ensures InMemory(mem, segs) && TotalLen(segs) == |data|
    ensures Scatter(mem, segs, data) == Splice(mem, addr, data)
    decreases |segs|
  {
    ContiguousTotal(segs, addr, |data|, mem);
    if segs == [] {
      SpliceNothing(mem, addr);
    } else {
      var n := segs[0].len;
      var mem' := Splice(mem, addr, data[..n]);
      ScatterContiguous(segs[1..], addr + n, data[n..], mem');
      SpliceAdjacent(mem, addr, data[..n], data[n..]);
      assert data[..n] + data[n..] == data;
    }
  }

  /** A contiguous description names exactly the plain range. */
  lemma {:induction false} NamesContiguous(segs: seq<Segment>, addr: nat, len: nat, i: int)
    requires Contiguous(segs, addr, len)
    ensures Names(segs, i) <==> addr <= i < addr + len
    decreases |segs|
  {
    if segs != [] {
      NamesContiguous(segs[1..], addr + segs[0].len, len - segs[0].len, i);
      assert segs == [segs[0]] + segs[1..];
      if addr <= i < addr + segs[0].len {
        assert segs[0] in segs;
      }
      if Names(segs[1..], i) {
        var s :| s in segs[1..] && s.addr <= i < s.addr + s.len;
        assert s in segs;
      }
    }
  }
}
