// The QSPI controller driver, drivers/qspi/tegrabl_qspi.c: every transfer is split into DMA
// words, PIO words and PIO bytes, pushed or drained through a FIFO of arbitrary fullness, in
// calls that may wait, return early and be continued later.
module QspiEngine {
  import opened Arith
  import opened Buffers
  import opened Options

  const DMA_BLK_SIZE_MAX := 65536
  const DMA_THRESHOLD := 16

  datatype Error = NoError | InvalidArgs | Timeout | TransferInProgress | WriteFailed | DmaFailed | BadOpMode

  /** One half-duplex transfer; addresses index the caller's memory. */
  datatype Transfer = Transfer(txBuf: Option<nat>, rxBuf: Option<nat>, writeLen: nat, readLen: nat, packetBits: nat)

  /** Memory, the bytes sent to the device, and the bytes it has answered, in order. */
  datatype Bus = Bus(mem: seq<bv8>, sent: seq<bv8>, received: seq<bv8>)

  predicate IsTx(t: Transfer) {
    t.txBuf.Some?
  }

  function BufOf(t: Transfer): nat {
    if t.txBuf.Some? then t.txBuf.value else if t.rxBuf.Some? then t.rxBuf.value else 0
  }

  function LenOf(t: Transfer): nat {
    if t.txBuf.Some? then t.writeLen else t.readLen
  }

  /** What qspi_validate_parameters lets through. */
  predicate Valid1(t: Transfer) {
    && (t.txBuf.Some? <==> t.rxBuf.None?)
    && LenOf(t) != 0
    && (t.packetBits == 32 ==> LenOf(t) % 4 == 0 && BufOf(t) % 4 == 0)
  }

  predicate Fits(t: Transfer, size: nat) {
    Valid1(t) && BufOf(t) + LenOf(t) <= size
  }

  // ---------------------------------------------------------------- reference

  /** The first n bytes of a transfer carried out; a receive takes them from data. */
  function Partial(s: Bus, t: Transfer, n: nat, data: seq<bv8>): (r: Bus)
    requires Fits(t, |s.mem|) && n <= LenOf(t) && (IsTx(t) ==> data == []) && (!IsTx(t) ==> |data| == n)
    ensures |r.mem| == |s.mem| && s.received <= r.received && r.received[|s.received|..] == data
  {
    if IsTx(t) then s.(sent := s.sent + s.mem[BufOf(t)..BufOf(t) + n])
    else s.(received := s.received + data, mem := Splice(s.mem, BufOf(t), data))
  }

  function RxLen(ts: seq<Transfer>): nat {
    if ts == [] then 0 else (if IsTx(ts[0]) then 0 else LenOf(ts[0])) + RxLen(ts[1..])
  }

  predicate AllFit(ts: seq<Transfer>, size: nat) {
    forall t :: t in ts ==> Fits(t, size)
  }

  /** A whole transfer list carried out one transfer after the other, the device answering with
      exactly the bytes of data. */
  function Replay(s: Bus, ts: seq<Transfer>, data: seq<bv8>): (r: Bus)
    requires AllFit(ts, |s.mem|) && |data| == RxLen(ts)
    ensures |r.mem| == |s.mem| && s.received <= r.received && r.received[|s.received|..] == data
    decreases |ts|
  {
    if ts == [] then s
    else
      var n := if IsTx(ts[0]) then 0 else LenOf(ts[0]);
      var s' := Partial(s, ts[0], LenOf(ts[0]), data[..n]);
      assert s'.received == s.received + data[..n];
      Replay(s', ts[1..], data[n..])
  }

  /** The transaction ts, begun at b0, is over: every transfer has moved exactly its bytes, in
      order, and nothing else has happened. */
  ghost predicate Completed(b0: Bus, ts: seq<Transfer>, b: Bus) {
    && AllFit(ts, |b0.mem|) && b0.received <= b.received && RxLen(ts) == |b.received| - |b0.received|
    && b == Replay(b0, ts, b.received[|b0.received|..])
  }

  lemma {:induction false} ReplayAppend(s: Bus, ts: seq<Transfer>, data: seq<bv8>, t: Transfer, more: seq<bv8>)
    requires AllFit(ts, |s.mem|) && |data| == RxLen(ts) && Fits(t, |s.mem|)
    requires |more| == if IsTx(t) then 0 else LenOf(t)
    ensures AllFit(ts + [t], |s.mem|) && RxLen(ts + [t]) == RxLen(ts) + |more|
    ensures Replay(s, ts + [t], data + more) == Partial(Replay(s, ts, data), t, LenOf(t), more)
    decreases |ts|
  {
    if ts == [] {
      assert ts + [t] == [t] && [t][1..] == [] && data + more == more && more[..|more|] == more;
    } else {
      var n := if IsTx(ts[0]) then 0 else LenOf(ts[0]);
      var s' := Partial(s, ts[0], LenOf(ts[0]), data[..n]);
      assert (ts + [t])[1..] == ts[1..] + [t];
      assert (data + more)[..n] == data[..n] && (data + more)[n..] == data[n..] + more;
      ReplayAppend(s', ts[1..], data[n..], t, more);
    }
  }

  /** n more bytes of the transfer, from where it stands. */
  lemma PartialStep(s: Bus, t: Transfer, done: nat, data: seq<bv8>, n: nat, more: seq<bv8>)
    requires Fits(t, |s.mem|) && done + n <= LenOf(t)
    requires (IsTx(t) ==> data == [] && more == []) && (!IsTx(t) ==> |data| == done && |more| == n)
    ensures var b := Partial(s, t, done, data);
            Partial(s, t, done + n, data + more) ==
              if IsTx(t) then b.(sent := b.sent + b.mem[BufOf(t) + done..BufOf(t) + done + n])
              else b.(received := b.received + more, mem := Splice(b.mem, BufOf(t) + done, more))
  {
    hide Splice;
    if IsTx(t) {
      SliceAdjacent(s.mem, BufOf(t), done, n);
      var sent := s.mem[BufOf(t)..BufOf(t) + done];
      assert s.sent + (sent + s.mem[BufOf(t) + done..BufOf(t) + done + n])
          == s.sent + sent + s.mem[BufOf(t) + done..BufOf(t) + done + n];
    } else {
      SpliceAdjacent(s.mem, BufOf(t), data, more);
      assert s.received + (data + more) == s.received + data + more;
    }
  }

  // ---------------------------------------------------------------- splitting a request

  datatype Split = Split(dmaBytes: nat, pio4wBytes: nat, pio1wBytes: nat)

  /** How qspi_start_one_transaction divides len bytes at address: bytes only when the buffer is
      unaligned or the request short, otherwise as many whole words as there are. */
  function SplitRequest(address: nat, len: nat, dmaMode: bool): Split {
    if address % 4 != 0 || len < DMA_THRESHOLD then Split(0, 0, len)
    else if !dmaMode then Split(0, len / 4 * 4, len - len / 4 * 4)
    else Split(len / 4 * 4, 0, len - len / 4 * 4)
  }

  /** The parts are the request, words are whole and only used on aligned buffers, and no more
      than three bytes are left for the byte phase of a split request. */
  lemma SplitIsWhole(address: nat, len: nat, dmaMode: bool)
    ensures var p := SplitRequest(address, len, dmaMode);
            && p.dmaBytes + p.pio4wBytes + p.pio1wBytes == len
            && p.dmaBytes % 4 == 0 && p.pio4wBytes % 4 == 0
            && (p.dmaBytes + p.pio4wBytes > 0 ==> address % 4 == 0 && p.pio1wBytes < 4)
            && (p.dmaBytes > 0 ==> dmaMode && p.pio4wBytes == 0)
            && (p.dmaBytes > 0 <==> dmaMode && address % 4 == 0 && len >= 16)
            && (p.pio4wBytes > 0 <==> !dmaMode && address % 4 == 0 && len >= 16)
  {
  }

  /** The same in packets. */
  lemma SplitPackets(address: nat, len: nat, dmaMode: bool)
    ensures var p := SplitRequest(address, len, dmaMode);
            var words := address % 4 == 0 && len >= 16;
            && p.dmaBytes / 4 == (if words && dmaMode then len / 4 else 0)
            && p.pio4wBytes / 4 == (if words && !dmaMode then len / 4 else 0)
            && p.pio1wBytes == (if words then len % 4 else len)
            && 4 * (p.dmaBytes / 4) + 4 * (p.pio4wBytes / 4) + p.pio1wBytes == len
  {
    SplitIsWhole(address, len, dmaMode);
  }

  /** Transfers that move their words by DMA. */
  predicate ByDma(t: Transfer, dmaMode: bool) {
    dmaMode && BufOf(t) % 4 == 0 && LenOf(t) >= 16
  }

  /** None of the transfers from lo up to hi does. */
  ghost predicate NoneByDma(ts: seq<Transfer>, lo: int, hi: int, dmaMode: bool) {
    forall j :: 0 <= j < |ts| && lo <= j < hi ==> !ByDma(ts[j], dmaMode)
  }

  class QspiHandle {
    const fifoModeDma: bool
    const dmaMaxSize: nat
    var bus: Bus
    var chipSelect: bool
    var isAsync: bool
    var xferIsProgress: bool
    var reqXfer: seq<Transfer>
    var curXferIndex: nat
    var isTransmit: bool
    var curBuf: nat
    var bytesPw: nat
    var remainDmaPacket: nat
    var remainPio4wPacket: nat
    var remainPio1wPacket: nat
    var remainPioPacket: nat
    var curXferIsDma: bool
    var curReqDmaPacket: nat
    var curReqPioPacket: nat
    var curRemainPioPacket: nat
    /** The bus when the transaction and when the current transfer began. */
    ghost var began: Bus
    ghost var start: Bus
    /** How often the controller has refused a request, or not been ready when it had to be. */
    ghost var failures: nat
    /** How often it has not been ready when it did not have to be. */
    ghost var waits: nat

    /** The transfer the handle is working on. */
    ghost function Cur(): Transfer
      reads this`reqXfer, this`curXferIndex
    {
      if curXferIndex < |reqXfer| then reqXfer[curXferIndex] else Transfer(None, None, 0, 0, 0)
    }

    /** Earlier transfers are done; the current one has moved exactly the bytes between its
        buffer and curBuf. */
    ghost predicate OnTrack()
      reads this`bus, this`reqXfer, this`curXferIndex, this`isTransmit, this`curBuf, this`began, this`start
    {
      && 0 < dmaMaxSize
      && AllFit(reqXfer, |began.mem|) && curXferIndex < |reqXfer|
      && |start.mem| == |began.mem| && |bus.mem| == |began.mem|
      && began.received <= start.received
      && RxLen(reqXfer[..curXferIndex]) == |start.received| - |began.received|
      && AllFit(reqXfer[..curXferIndex], |began.mem|)
      && start == Replay(began, reqXfer[..curXferIndex], start.received[|began.received|..])
      && Fits(Cur(), |start.mem|)
      && isTransmit == IsTx(Cur())
      && BufOf(Cur()) <= curBuf <= BufOf(Cur()) + LenOf(Cur())
      && start.received <= bus.received
      && |bus.received| - |start.received| == (if IsTx(Cur()) then 0 else curBuf - BufOf(Cur()))
      && bus == Partial(start, Cur(), curBuf - BufOf(Cur()), bus.received[|start.received|..])
    }

    /** Bytes of the current transfer that no phase has taken on yet. */
    ghost function Rest(): nat
      reads this`remainDmaPacket, this`remainPio4wPacket, this`remainPio1wPacket
    {
      4 * remainDmaPacket + 4 * remainPio4wPacket + remainPio1wPacket
    }

    ghost function BytesLeft(): int
      reads this`reqXfer, this`curXferIndex, this`curBuf
    {
      BufOf(Cur()) + LenOf(Cur()) - curBuf
    }

    /** A transfer has just been started: its words by DMA, by PIO in words if the buffer is aligned
        and the transfer not short, or all of it byte by byte; the bytes behind the words wait. */
    ghost predicate Divided()
      reads this`reqXfer, this`curXferIndex, this`bytesPw, this`remainDmaPacket, this`remainPio4wPacket
      reads this`remainPio1wPacket, this`remainPioPacket, this`curXferIsDma
    {
      var t := Cur();
      && remainPio4wPacket == 0 && (curXferIsDma <==> ByDma(t, fifoModeDma))
      && if BufOf(t) % 4 == 0 && LenOf(t) >= 16 then
           && bytesPw == 4 && remainPio1wPacket == LenOf(t) % 4
           && if fifoModeDma then remainDmaPacket == LenOf(t) / 4
              else remainDmaPacket == 0 && remainPioPacket == LenOf(t) / 4
         else
           bytesPw == 1 && remainPio1wPacket == 0 && remainDmaPacket == 0 && remainPioPacket == LenOf(t)
    }

    /** Between two phases of a transfer: the counters add up to what is left, and words are
        only left over while the buffer is word aligned. */
    ghost predicate Between()
      reads this`bus, this`reqXfer, this`curXferIndex, this`isTransmit, this`curBuf, this`began, this`start
      reads this`remainDmaPacket, this`remainPio4wPacket, this`remainPio1wPacket
    {
      OnTrack() && Rest() == BytesLeft()
      && (remainDmaPacket + remainPio4wPacket > 0 ==> curBuf % 4 == 0)
    }

    /** Inside a phase: DMA words or PIO packets are under way. */
    ghost predicate InPhase()
      reads this`bus, this`reqXfer, this`curXferIndex, this`isTransmit, this`curBuf, this`began, this`start
      reads this`remainDmaPacket, this`remainPio4wPacket, this`remainPio1wPacket, this`remainPioPacket, this`bytesPw
      reads this`curXferIsDma, this`curReqDmaPacket, this`curReqPioPacket, this`curRemainPioPacket
    {
      && OnTrack() && (bytesPw == 1 || bytesPw == 4)
      && (remainDmaPacket + remainPio4wPacket > 0 ==> bytesPw == 4) && (bytesPw == 4 ==> curBuf % 4 == 0)
      && if curXferIsDma then
           && 0 < curReqDmaPacket <= remainDmaPacket && bytesPw == 4
           && Rest() == BytesLeft()
         else
           && remainDmaPacket == 0
           && curRemainPioPacket <= curReqPioPacket <= remainPioPacket && 0 < curReqPioPacket
           && Rest() + bytesPw * (remainPioPacket - (curReqPioPacket - curRemainPioPacket)) == BytesLeft()
    }

    // -------------------------------------------------------------- moving data

    /** n bytes between memory at curBuf and the bus, and curBuf past them. */
    method MoveData(n: nat)
      requires OnTrack() && n <= BytesLeft()
      modifies this`bus, this`curBuf
      ensures OnTrack() && curBuf == old(curBuf) + n && old(bus).sent <= bus.sent
    {
      hide Splice, Replay, RxLen, Completed;
      ghost var done, data := curBuf - BufOf(Cur()), bus.received[|start.received|..];
      if isTransmit {
        PartialStep(start, Cur(), done, data, n, []);
        bus := bus.(sent := bus.sent + bus.mem[curBuf..curBuf + n]);
        assert data + [] == bus.received[|start.received|..];
      } else {
        var more := AnyBytes(n);
        PartialStep(start, Cur(), done, data, n, more);
        bus := bus.(received := bus.received + more, mem := Splice(bus.mem, curBuf, more));
        assert data + more == bus.received[|start.received|..];
      }
      curBuf := curBuf + n;
    }

    /** What is reported: a failure of the controller as an error, a wait as a transfer in progress,
        neither as success. */
    ghost predicate Told(err: Error, failed: nat, waited: nat)
      reads this`failures, this`waits
    {
      && (err in {NoError, TransferInProgress} <==> failures == failed)
      && (err == TransferInProgress <==> waits != waited)
    }

    /** A request to the controller. */
    method Request() returns (ok: bool)
      modifies this`failures
      ensures failures == old(failures) + if ok then 0 else 1
    {
      ok := *;
      failures := failures + if ok then 0 else 1;
    }

    /** A look at the controller. Where it must be ready, not being so is a failure. */
    method Ready(needed: bool) returns (ok: bool)
      modifies this`failures, this`waits
      ensures failures == old(failures) + if ok || !needed then 0 else 1
      ensures waits == old(waits) + if ok || needed then 0 else 1
    {
      ok := *;
      failures := failures + if ok || !needed then 0 else 1;
      waits := waits + if ok || needed then 0 else 1;
    }

    // -------------------------------------------------------------- PIO

    /** One packet of bytesPw bytes. */
    method MovePacket()
      requires InPhase() && !curXferIsDma && 0 < curRemainPioPacket
      modifies this`bus, this`curBuf, this`curRemainPioPacket
      ensures InPhase() && curRemainPioPacket == old(curRemainPioPacket) - 1
      ensures BytesLeft() == old(BytesLeft()) - bytesPw
    {
      hide OnTrack;
      Room();
      MoveData(bytesPw);
      curRemainPioPacket := curRemainPioPacket - 1;
    }

    lemma Room()
      requires InPhase() && !curXferIsDma
      ensures curRemainPioPacket > 0 ==> bytesPw <= BytesLeft()
      ensures 0 <= BytesLeft() && (bytesPw == 1 || bytesPw == 4)
    {
    }

    /** qspi_fill_tx_fifo: push packets until the FIFO is full or the request is used up. */
    method FillTxFifo() returns (count: nat)
      requires InPhase() && !curXferIsDma && isTransmit && 0 < curRemainPioPacket
      modifies this`bus, this`curBuf, this`curRemainPioPacket, this`failures
      ensures failures == old(failures) + if count == 0 then 1 else 0
      ensures InPhase() && count == old(curRemainPioPacket) - curRemainPioPacket
      ensures BytesLeft() == old(BytesLeft()) - bytesPw * count
    {
      hide OnTrack, InPhase, BytesLeft;
      count := 0;
      while curRemainPioPacket != 0
        invariant InPhase() && count == old(curRemainPioPacket) - curRemainPioPacket
        invariant BytesLeft() == old(BytesLeft()) - bytesPw * count && failures == old(failures)
        decreases curRemainPioPacket
      {
        var full: bool := *;
        if full {
          // a FIFO that has no room at all is a failure of the controller
          failures := failures + if count == 0 then 1 else 0;
          return;
        }
        MovePacket();
        count := count + 1;
      }
    }

    /** qspi_drain_rx_fifo: take as many packets as the FIFO held when its status was read. */
    method DrainRxFifo() returns (count: nat)
      requires InPhase() && !curXferIsDma && !isTransmit && 0 < curRemainPioPacket
      modifies this`bus, this`curBuf, this`curRemainPioPacket, this`failures
      ensures failures == old(failures) + if count == 0 then 1 else 0
      ensures InPhase() && count == old(curRemainPioPacket) - curRemainPioPacket
      ensures BytesLeft() == old(BytesLeft()) - bytesPw * count
    {
      hide OnTrack, InPhase, BytesLeft;
      count := 0;
      var held: int := *;
      var words: nat := if 0 <= held < curRemainPioPacket then held else curRemainPioPacket;
      failures := failures + if words == 0 then 1 else 0;
      ghost var most := words;
      while words != 0
        invariant InPhase() && count == old(curRemainPioPacket) - curRemainPioPacket && words <= curRemainPioPacket
        invariant count + words == most && failures == old(failures) + if most == 0 then 1 else 0
        invariant BytesLeft() == old(BytesLeft()) - bytesPw * count
      {
        MovePacket();
        words := words - 1;
        count := count + 1;
      }
    }

    /** A PIO phase has been chosen: its packets are in remainPioPacket, none requested yet. */
    ghost predicate PioChosen()
      reads this`bus, this`reqXfer, this`curXferIndex, this`isTransmit, this`curBuf, this`began, this`start
      reads this`remainDmaPacket, this`remainPio4wPacket, this`remainPio1wPacket, this`remainPioPacket, this`bytesPw
    {
      && OnTrack() && (bytesPw == 1 || bytesPw == 4) && 0 < remainPioPacket && remainDmaPacket == 0
      && (remainDmaPacket + remainPio4wPacket > 0 ==> bytesPw == 4) && (bytesPw == 4 ==> curBuf % 4 == 0)
      && Rest() + bytesPw * remainPioPacket == BytesLeft()
    }

    /** qspi_send_start_one_xfer_pio and qspi_receive_start_one_xfer_pio: request a block; a send
        pushes what fits at once and gives up if nothing does. */
    method StartPio() returns (err: Error)
      requires PioChosen()
      modifies this`curXferIsDma, this`curReqPioPacket, this`curRemainPioPacket, this`bus, this`curBuf, this`failures
      ensures err == NoError || (err == WriteFailed && isTransmit)
      ensures err == NoError <==> failures == old(failures)
      ensures err == NoError ==> InPhase() && !curXferIsDma && BytesLeft() <= old(BytesLeft())
      ensures err == NoError ==> if isTransmit then BytesLeft() < old(BytesLeft()) else 0 < curRemainPioPacket
    {
      hide OnTrack, InPhase, PioChosen, BytesLeft;
      curXferIsDma := false;
      var size := if remainPioPacket < DMA_BLK_SIZE_MAX then remainPioPacket else DMA_BLK_SIZE_MAX;
      curReqPioPacket := size;
      curRemainPioPacket := size;
      err := NoError;
      PhaseBegins();
      Room();
      if isTransmit {
        var written := FillTxFifo();
        if written == 0 {
          return WriteFailed;
        }
      }
    }

    /** A block has been requested, and none of it has moved. */
    lemma PhaseBegins()
      requires PioChosen() && !curXferIsDma && curReqPioPacket == curRemainPioPacket
      requires curReqPioPacket == if remainPioPacket < DMA_BLK_SIZE_MAX then remainPioPacket else DMA_BLK_SIZE_MAX
      ensures InPhase() && 0 < curRemainPioPacket
    {
      hide OnTrack;
    }

    /** The requested block is through: take it off; the phase is over when nothing remains. */
    method FinishPioBlock()
      requires InPhase() && !curXferIsDma && curRemainPioPacket == 0
      modifies this`remainPioPacket
      ensures if remainPioPacket == 0 then Between() else PioChosen()
    {
      hide OnTrack;
      remainPioPacket := remainPioPacket - curReqPioPacket;
    }

    /** qspi_send_wait_one_xfer_pio. */
    method SendWaitPio(isAbort: bool) returns (err: Error)
      requires InPhase() && !curXferIsDma && isTransmit
      modifies this`curXferIsDma, this`curReqPioPacket, this`curRemainPioPacket, this`bus, this`curBuf
      modifies this`remainPioPacket, this`failures, this`waits
      ensures err in {NoError, Timeout, TransferInProgress, WriteFailed}
      ensures Told(err, old(failures), old(waits))
      ensures err == NoError ==> Between() && BytesLeft() <= old(BytesLeft())
      ensures err == TransferInProgress ==> InPhase() && !isAbort
    {
      hide OnTrack, InPhase, Between, PioChosen, BytesLeft;
      while true
        invariant InPhase() && !curXferIsDma && BytesLeft() <= old(BytesLeft())
        invariant failures == old(failures) && waits == old(waits)
        decreases BytesLeft()
      {
        Room();
        var room := Ready(isAbort);
        if !room {
          return if isAbort then Timeout else TransferInProgress;
        }
        if curRemainPioPacket != 0 {
          var written := FillTxFifo();
          if written == 0 {
            return WriteFailed;
          }
          continue;
        }
        FinishPioBlock();
        if remainPioPacket == 0 {
          return NoError;
        }
        err := StartPio();
        if err != NoError {
          return;
        }
      }
    }

    /** qspi_receive_wait_one_xfer_pio. */
    method ReceiveWaitPio(isAbort: bool) returns (err: Error)
      requires InPhase() && !curXferIsDma && !isTransmit
      modifies this`curXferIsDma, this`curReqPioPacket, this`curRemainPioPacket, this`bus, this`curBuf
      modifies this`remainPioPacket, this`failures, this`waits
      ensures err in {NoError, Timeout, TransferInProgress, WriteFailed}
      ensures Told(err, old(failures), old(waits))
      ensures err == NoError ==> Between() && BytesLeft() <= old(BytesLeft())
      ensures err == TransferInProgress ==> InPhase() && !isAbort
    {
      hide OnTrack, InPhase, Between, PioChosen, BytesLeft;
      while true
        invariant InPhase() && !curXferIsDma && BytesLeft() <= old(BytesLeft())
        invariant failures == old(failures) && waits == old(waits)
        decreases BytesLeft(), curRemainPioPacket == 0
      {
        Room();
        if curRemainPioPacket != 0 {
          var filled := Ready(isAbort);
          if !filled {
            return if isAbort then Timeout else TransferInProgress;
          }
          var read := DrainRxFifo();
          if read == 0 {
            return WriteFailed;
          }
          continue;
        }
        FinishPioBlock();
        if remainPioPacket == 0 {
          return NoError;
        }
        err := StartPio();
      }
    }

    // -------------------------------------------------------------- DMA

    /** qspi_send_start_one_xfer_dma and qspi_receive_start_one_xfer_dma. */
    method StartDma() returns (err: Error)
      requires Between() && 0 < remainDmaPacket && bytesPw == 4
      modifies this`curXferIsDma, this`curReqDmaPacket, this`failures
      ensures (err == NoError || err == DmaFailed) && (err == NoError <==> failures == old(failures))
      ensures err == NoError ==> InPhase() && curXferIsDma
      ensures curReqDmaPacket == Min(remainDmaPacket, if isTransmit then dmaMaxSize else 65536)
    {
      hide OnTrack;
      curXferIsDma := true;
      var most := if isTransmit then dmaMaxSize else DMA_BLK_SIZE_MAX;
      MostPositive();
      curReqDmaPacket := if remainDmaPacket < most then remainDmaPacket else most;
      var started := Request();
      err := if started then NoError else DmaFailed;
    }

    lemma MostPositive()
      requires OnTrack()
      ensures 0 < dmaMaxSize
    {
    }

    /** The requested block has moved: take it off. */
    method FinishDmaBlock()
      requires InPhase() && curXferIsDma
      modifies this`bus, this`curBuf, this`remainDmaPacket
      ensures Between() && bytesPw == 4 && BytesLeft() < old(BytesLeft()) && remainDmaPacket < old(remainDmaPacket)
    {
      hide OnTrack;
      MoveData(4 * curReqDmaPacket);
      remainDmaPacket := remainDmaPacket - curReqDmaPacket;
    }

    /** qspi_send_wait_one_xfer_dma and qspi_receive_wait_one_xfer_dma: each completed block has
        moved its words; blocks follow until none remain. */
    method WaitDma(isAbort: bool) returns (err: Error)
      requires InPhase() && curXferIsDma
      modifies this`curXferIsDma, this`curReqDmaPacket, this`bus, this`curBuf, this`remainDmaPacket
      modifies this`failures, this`waits
      ensures err in {NoError, Timeout, TransferInProgress, DmaFailed}
      ensures Told(err, old(failures), old(waits))
      ensures err == NoError ==> Between() && BytesLeft() < old(BytesLeft()) && remainDmaPacket == 0
      ensures err == TransferInProgress ==> InPhase() && !isAbort
    {
      hide OnTrack, InPhase, Between, BytesLeft;
      while true
        invariant InPhase() && curXferIsDma && BytesLeft() <= old(BytesLeft())
        invariant failures == old(failures) && waits == old(waits)
        decreases remainDmaPacket
      {
        var complete := Ready(isAbort);
        if !complete {
          return if isAbort then Timeout else TransferInProgress;
        }
        FinishDmaBlock();
        if remainDmaPacket == 0 {
          return NoError;
        }
        err := StartDma();
        if err != NoError {
          return;
        }
      }
    }

    // -------------------------------------------------------------- phases

    /** qspi_start_remaining_one_xfer: DMA words first, then PIO words, then PIO bytes. */
    method StartRemaining() returns (err: Error, inProgress: bool)
      requires Between()
      modifies this`curXferIsDma, this`curReqDmaPacket, this`curReqPioPacket, this`curRemainPioPacket, this`bus
      modifies this`curBuf, this`failures
      modifies this`bytesPw, this`remainPioPacket, this`remainPio4wPacket, this`remainPio1wPacket
      ensures err in {NoError, WriteFailed, DmaFailed} && (err == NoError <==> failures == old(failures))
      ensures err == NoError ==>
                BytesLeft() <= old(BytesLeft()) && if inProgress then InPhase() else Between() && BytesLeft() == 0
      ensures old(BytesLeft()) > 0 ==> inProgress
      ensures err == NoError && inProgress ==>
                && (curXferIsDma <==> old(remainDmaPacket) != 0)
                && (old(remainDmaPacket) != 0 ==>
                      bytesPw == 4 && remainPio4wPacket == old(remainPio4wPacket)
                      && remainPio1wPacket == old(remainPio1wPacket))
                && (old(remainDmaPacket) == 0 && old(remainPio4wPacket) != 0 ==>
                      bytesPw == 4 && remainPioPacket == old(remainPio4wPacket) && remainPio4wPacket == 0
                      && remainPio1wPacket == old(remainPio1wPacket))
                && (old(remainDmaPacket) == old(remainPio4wPacket) == 0 ==>
                      bytesPw == 1 && remainPioPacket == old(remainPio1wPacket) && remainPio4wPacket == 0
                      && remainPio1wPacket == 0)
      ensures err == NoError && inProgress && old(remainDmaPacket) == 0 ==> Measure() <= old(Phases())
    {
      hide OnTrack;
      inProgress := true;
      if remainDmaPacket != 0 {
        bytesPw := 4;
        err := StartDma();
        return;
      }
      if remainPio4wPacket != 0 {
        bytesPw := 4;
        remainPioPacket := remainPio4wPacket;
        remainPio4wPacket := 0;
        err := StartPio();
        return;
      }
      if remainPio1wPacket != 0 {
        bytesPw := 1;
        remainPioPacket := remainPio1wPacket;
        remainPio1wPacket := 0;
        err := StartPio();
        return;
      }
      return NoError, false;
    }

    /** qspi_wait_transfer. */
    method WaitTransfer(isAbort: bool) returns (err: Error)
      requires InPhase()
      modifies this`curXferIsDma, this`curReqDmaPacket, this`curReqPioPacket, this`curRemainPioPacket, this`bus
      modifies this`curBuf, this`failures, this`waits
      modifies this`remainPioPacket, this`remainDmaPacket
      ensures err in {NoError, Timeout, TransferInProgress, WriteFailed, DmaFailed}
      ensures Told(err, old(failures), old(waits))
      ensures err == NoError ==> Between() && BytesLeft() <= old(BytesLeft())
      ensures err == NoError ==> remainDmaPacket == 0 && Phases() < old(Measure())
      ensures err == TransferInProgress ==> InPhase() && !isAbort
    {
      hide OnTrack;
      if curXferIsDma {
        err := WaitDma(isAbort);
      } else if isTransmit {
        err := SendWaitPio(isAbort);
      } else {
        err := ReceiveWaitPio(isAbort);
      }
    }

    // -------------------------------------------------------------- transactions

    /** The first k transfers of the transaction are done and nothing else has happened. */
    ghost predicate DoneUpTo(k: nat)
      reads this`bus, this`reqXfer, this`began
    {
      && k <= |reqXfer| && AllFit(reqXfer, |began.mem|) && AllFit(reqXfer[..k], |began.mem|)
      && began.received <= bus.received && RxLen(reqXfer[..k]) == |bus.received| - |began.received|
      && bus == Replay(began, reqXfer[..k], bus.received[|began.received|..])
    }

    /** A transfer that has moved all its bytes is one more transfer done. */
    lemma TransferDone()
      requires OnTrack() && BytesLeft() == 0
      ensures DoneUpTo(curXferIndex + 1)
    {
      var before, more := start.received[|began.received|..], bus.received[|start.received|..];
      ReplayAppend(began, reqXfer[..curXferIndex], before, Cur(), more);
      assert reqXfer[..curXferIndex + 1] == reqXfer[..curXferIndex] + [Cur()];
      assert bus.received[|began.received|..] == before + more;
    }

    /** A transfer about to start has moved nothing. */
    lemma TransferStarts()
      requires DoneUpTo(curXferIndex) && curXferIndex < |reqXfer| && 0 < dmaMaxSize
      requires start == bus && isTransmit == IsTx(Cur()) && curBuf == BufOf(Cur())
      ensures OnTrack()
    {
      assert Cur() in reqXfer;
      assert bus.received[|bus.received|..] == [];
      SpliceNothing(bus.mem, curBuf);
    }

    /** The first part of qspi_start_one_transaction: look at the transfer and divide it. */
    method Divide()
      requires DoneUpTo(curXferIndex) && curXferIndex < |reqXfer| && 0 < dmaMaxSize
      modifies this`curBuf, this`isTransmit, this`start
      modifies this`remainPio4wPacket, this`remainPio1wPacket, this`remainDmaPacket
      ensures Between() && BytesLeft() == LenOf(Cur()) > 0
      ensures var t := Cur();
              var words := BufOf(t) % 4 == 0 && LenOf(t) >= 16;
              && remainDmaPacket == (if words && fifoModeDma then LenOf(t) / 4 else 0)
              && remainPio4wPacket == (if words && !fifoModeDma then LenOf(t) / 4 else 0)
              && remainPio1wPacket == (if words then LenOf(t) % 4 else LenOf(t))
    {
      hide OnTrack, DoneUpTo, SplitRequest, AllFit;
      CurFits();
      var xfer := reqXfer[curXferIndex];
      var len;
      if xfer.txBuf.Some? {
        curBuf, len, isTransmit := xfer.txBuf.value, xfer.writeLen, true;
      } else {
        curBuf, len, isTransmit := xfer.rxBuf.value, xfer.readLen, false;
      }
      start := bus;
      TransferStarts();
      SplitPackets(curBuf, len, fifoModeDma);
      var p := SplitRequest(curBuf, len, fifoModeDma);
      remainDmaPacket := p.dmaBytes / 4;
      remainPio4wPacket := p.pio4wBytes / 4;
      remainPio1wPacket := p.pio1wBytes;
    }

    /** qspi_start_one_transaction: divide the transfer and start its first phase. */
    method StartOneTransaction() returns (err: Error)
      requires DoneUpTo(curXferIndex) && curXferIndex < |reqXfer| && 0 < dmaMaxSize
      modifies this`curXferIsDma, this`curReqDmaPacket, this`curReqPioPacket, this`curRemainPioPacket, this`bus
      modifies this`curBuf, this`failures
      modifies this`bytesPw, this`remainPioPacket, this`remainPio4wPacket, this`remainPio1wPacket, this`remainDmaPacket
      modifies this`isTransmit, this`start
      ensures err in {NoError, WriteFailed, DmaFailed, BadOpMode} && (err == NoError <==> failures == old(failures))
      ensures err == NoError ==> InPhase() && BytesLeft() <= LenOf(Cur()) && Divided()
    {
      hide Between, InPhase, Divided, OnTrack, DoneUpTo, AllFit;
      Divide();
      var modeOk := Request();
      if !modeOk {
        return BadOpMode;
      }
      var inProgress;
      err, inProgress := StartRemaining();
      if err == NoError {
        ItIsDivided(curXferIsDma, bytesPw, remainDmaPacket, remainPioPacket, remainPio1wPacket);
      }
    }

    /** What starting the first phase leaves of the counters. */
    lemma ItIsDivided(dma: bool, width: nat, d: nat, pio: nat, b: nat)
      requires dma == curXferIsDma && width == bytesPw && d == remainDmaPacket && pio == remainPioPacket
      requires b == remainPio1wPacket && remainPio4wPacket == 0
      requires dma <==> ByDma(Cur(), fifoModeDma)
      requires var t := Cur();
               if BufOf(t) % 4 == 0 && LenOf(t) >= 16 then
                 && width == 4 && b == LenOf(t) % 4
                 && if fifoModeDma then d == LenOf(t) / 4 else d == 0 && pio == LenOf(t) / 4
               else width == 1 && b == 0 && d == 0 && pio == LenOf(t)
      ensures Divided()
    {
    }

    lemma CurFits()
      requires DoneUpTo(curXferIndex) && curXferIndex < |reqXfer|
      ensures Fits(Cur(), |began.mem|)
    {
      assert Cur() in reqXfer;
    }

    /** What is true between two calls of the interface. */
    ghost predicate AtRest()
      reads this`chipSelect, this`xferIsProgress
    {
      chipSelect == xferIsProgress
    }

    method CleanExit()
      modifies this`chipSelect, this`xferIsProgress
      ensures AtRest() && !xferIsProgress
    {
      chipSelect := false;
      xferIsProgress := false;
    }

    /** One turn of the transfer loops: wait for the phase, start the next phase or the next
        transfer. over says the transaction has ended, well or badly. */
    method Turn(isAbort: bool) returns (err: Error, over: bool, newTransfer: bool)
      requires InPhase()
      modifies this`curXferIsDma, this`curReqDmaPacket, this`curReqPioPacket, this`curRemainPioPacket, this`bus
      modifies this`curBuf, this`failures, this`waits
      modifies this`bytesPw, this`remainPioPacket, this`remainPio4wPacket, this`remainPio1wPacket, this`remainDmaPacket
      modifies this`isTransmit, this`start, this`curXferIndex
      ensures err != InvalidArgs && Told(err, old(failures), old(waits))
      ensures err == TransferInProgress ==> InPhase() && !over && !isAbort
      ensures err != NoError && err != TransferInProgress ==> over
      ensures err == NoError && over ==> DoneUpTo(|reqXfer|)
      ensures err == NoError && !over ==> InPhase() && curXferIndex < |reqXfer|
      ensures newTransfer ==> curXferIndex == old(curXferIndex) + 1
      ensures newTransfer && !over ==> Divided()
      ensures err == NoError && over ==> newTransfer && curXferIndex >= |reqXfer|
      ensures !newTransfer && !over ==> curXferIndex == old(curXferIndex)
      ensures err == NoError && !over && !newTransfer ==> Measure() < old(Measure())
    {
      hide OnTrack, DoneUpTo, Divided;
      over, newTransfer := false, false;
      err := WaitTransfer(isAbort);
      if err == TransferInProgress {
        return;
      }
      over := true;
      if err != NoError {
        return;
      }
      var inProgress;
      err, inProgress := StartRemaining();
      if err != NoError {
        return;
      }
      if inProgress {
        over := false;
        return;
      }
      TransferDone();
      IndexInRange();
      curXferIndex := curXferIndex + 1;
      newTransfer := true;
      if curXferIndex >= |reqXfer| {
        return;
      }
      err := StartOneTransaction();
      over := err != NoError;
    }

    lemma IndexInRange()
      requires OnTrack()
      ensures curXferIndex < |reqXfer| && 0 < dmaMaxSize
    {
    }

    lemma PhaseIndex()
      requires InPhase()
      ensures curXferIndex < |reqXfer|
    {
    }

    /** Phases of the current transfer not begun yet. */
    ghost function Phases(): nat
      reads this`remainDmaPacket, this`remainPio4wPacket, this`remainPio1wPacket
    {
      (if remainDmaPacket > 0 then 1 else 0) + (if remainPio4wPacket > 0 then 1 else 0)
      + (if remainPio1wPacket > 0 then 1 else 0)
    }

    /** Phases of the current transfer still to end; DMA words are taken off as they complete. */
    ghost function Measure(): nat
      reads this`remainDmaPacket, this`remainPio4wPacket, this`remainPio1wPacket, this`curXferIsDma
    {
      Phases() + if curXferIsDma then 0 else 1
    }

    /** qspi_check_transfer_status: run the transaction on; an asynchronous caller gets it back
        as soon as a later transfer, the first to move its words by DMA, has been started. */
    method CheckTransferStatus(isAbort: bool) returns (err: Error)
      requires InPhase() && AtRest() && xferIsProgress
      modifies this
      ensures err != InvalidArgs && Told(err, old(failures), old(waits))
      ensures Kept(old(began), old(reqXfer)) && AtRest()
      ensures err == NoError && !xferIsProgress ==> DoneUpTo(|reqXfer|)
      ensures err == NoError && !xferIsProgress && isAsync ==>
                NoneByDma(reqXfer, old(curXferIndex) + 1, |reqXfer|, fifoModeDma)
      ensures err == NoError && xferIsProgress ==>
                && isAsync && InPhase() && curXferIsDma && isAsync == old(isAsync)
                && old(curXferIndex) < curXferIndex < |reqXfer| && ByDma(Cur(), fifoModeDma)
                && NoneByDma(reqXfer, old(curXferIndex) + 1, curXferIndex, fifoModeDma)
      ensures isAsync == old(isAsync)
      ensures err == TransferInProgress ==> InPhase() && xferIsProgress && !isAbort
      ensures err != NoError && err != TransferInProgress ==> !xferIsProgress
    {
      hide InPhase, DoneUpTo;
      PhaseIndex();
      while true
        invariant InPhase() && AtRest() && xferIsProgress && Kept(old(began), old(reqXfer)) && curXferIndex <= |reqXfer|
        invariant isAsync == old(isAsync) && old(curXferIndex) <= curXferIndex
        invariant failures == old(failures) && waits == old(waits)
        invariant isAsync ==> NoneByDma(reqXfer, old(curXferIndex) + 1, curXferIndex + 1, fifoModeDma)
        decreases |reqXfer| - curXferIndex, Measure()
      {
        var over, newTransfer;
        err, over, newTransfer := Turn(isAbort);
        if err == TransferInProgress {
          return;
        }
        if over {
          CleanExit();
          return;
        }
        if newTransfer && curXferIsDma && isAsync {
          return;
        }
      }
    }

    /** qspi_xfer_wait: run the transaction to its end, or until time is up. */
    method XferWait(isAbort: bool) returns (err: Error)
      requires InPhase() && AtRest() && xferIsProgress
      modifies this
      ensures err != InvalidArgs && Told(err, old(failures), old(waits))
      ensures Kept(old(began), old(reqXfer)) && AtRest()
      ensures err == NoError ==> !xferIsProgress && Completed(began, reqXfer, bus)
      ensures err == TransferInProgress ==> InPhase() && xferIsProgress && !isAbort
      ensures err != NoError && err != TransferInProgress ==> !xferIsProgress
    {
      hide InPhase, DoneUpTo, Completed;
      PhaseIndex();
      while true
        invariant InPhase() && AtRest() && xferIsProgress && Kept(old(began), old(reqXfer)) && curXferIndex <= |reqXfer|
        invariant failures == old(failures) && waits == old(waits)
        decreases |reqXfer| - curXferIndex, Measure()
      {
        var over, newTransfer;
        err, over, newTransfer := Turn(isAbort);
        if err == TransferInProgress {
          return;
        }
        if over {
          if err == NoError {
            AllDone();
          }
          CleanExit();
          return;
        }
      }
    }

    /** The transaction is still the one that was begun. */
    ghost predicate Kept(b: Bus, ts: seq<Transfer>)
      reads this`began, this`reqXfer
    {
      began == b && reqXfer == ts
    }

    /** qspi_validate_parameters. */
    method ValidateParameters(ts: seq<Transfer>) returns (err: Error)
      ensures err == NoError <==> ts != [] && forall t :: t in ts ==> Valid1(t)
      ensures err == NoError || err == InvalidArgs
    {
      if ts == [] {
        return InvalidArgs;
      }
      for i := 0 to |ts|
        invariant forall t :: t in ts[..i] ==> Valid1(t)
      {
        var xfer := ts[i];
        assert xfer in ts && ts[..i + 1] == ts[..i] + [xfer];
        if xfer.txBuf.Some? && xfer.rxBuf.Some? {
          return InvalidArgs;
        }
        if xfer.txBuf.None? && xfer.rxBuf.None? {
          return InvalidArgs;
        }
        var address, len;
        if xfer.txBuf.Some? {
          address, len := xfer.txBuf.value, xfer.writeLen;
        } else {
          address, len := xfer.rxBuf.value, xfer.readLen;
        }
        if len == 0 || (xfer.packetBits == 32 && (len % 4 != 0 || address % 4 != 0)) {
          return InvalidArgs;
        }
      }
      assert ts[..|ts|] == ts;
      err := NoError;
    }

    /** tegrabl_qspi_transaction: a finished transaction has carried out exactly its transfers,
        in order, against what the device answered; an asynchronous one may be left running
        for XferWait to finish to the same effect. */
    method Transaction(ts: seq<Transfer>) returns (err: Error)
      requires 0 < dmaMaxSize && forall t :: t in ts ==> BufOf(t) + LenOf(t) <= |bus.mem|
      requires AtRest()
      modifies this
      ensures AtRest()
      ensures err == InvalidArgs <==> ts == [] || exists t :: t in ts && !Valid1(t)
      ensures err == InvalidArgs ==> bus == old(bus) && xferIsProgress == old(xferIsProgress)
      ensures err != InvalidArgs ==> Kept(old(bus), ts)
      ensures err == NoError && !xferIsProgress ==> Completed(old(bus), ts, bus)
      ensures err == NoError && !xferIsProgress && isAsync ==> NoneByDma(ts, 1, |ts|, fifoModeDma)
      ensures err == NoError && xferIsProgress ==>
                && isAsync && InPhase() && curXferIsDma
                && 0 < curXferIndex < |ts| && ByDma(ts[curXferIndex], fifoModeDma)
                && NoneByDma(ts, 1, curXferIndex, fifoModeDma)
      ensures err != NoError && err != InvalidArgs ==> !xferIsProgress
      ensures err != TransferInProgress && waits == old(waits)
      ensures err in {NoError, InvalidArgs} <==> failures == old(failures)
    {
      hide InPhase, DoneUpTo, Completed;
      err := ValidateParameters(ts);
      if err != NoError {
        return;
      }
      Begin(ts);
      err := StartOneTransaction();
      if err != NoError {
        CleanExit();
        return;
      }
      err := CheckTransferStatus(true);
      if err == NoError && !xferIsProgress {
        AllDone();
      }
    }

    /** An asynchronous caller's whole use: begin, then look at the status or wait, as often as it
        likes and in any order. Success means what a synchronous success means. */
    method TransactionThenWait(ts: seq<Transfer>, calls: nat) returns (err: Error)
      requires 0 < dmaMaxSize && forall t :: t in ts ==> BufOf(t) + LenOf(t) <= |bus.mem|
      requires AtRest()
      modifies this
      ensures AtRest()
      ensures err == NoError && !xferIsProgress ==> Completed(old(bus), ts, bus)
      ensures err in {NoError, InvalidArgs, TransferInProgress} <==> failures == old(failures)
    {
      ghost var b := bus;
      err := Transaction(ts);
      if err != NoError || !xferIsProgress {
        return;
      }
      var left := calls;
      while left > 0
        invariant AtRest() && xferIsProgress && InPhase() && Kept(b, ts) && failures == old(failures)
      {
        var look: bool := *;
        if look {
          err := CheckTransferStatus(false);
        } else {
          err := XferWait(false);
        }
        if !xferIsProgress {
          if look && err == NoError {
            AllDone();
          }
          return;
        }
        left := left - 1;
      }
      err := TransferInProgress;
    }

    lemma AllDone()
      requires DoneUpTo(|reqXfer|)
      ensures Completed(began, reqXfer, bus)
    {
      assert reqXfer[..|reqXfer|] == reqXfer;
    }

    /** Record the request, note where the bus stands, select the chip. */
    method Begin(ts: seq<Transfer>)
      requires AllFit(ts, |bus.mem|)
      modifies this`reqXfer, this`curXferIndex, this`began, this`chipSelect, this`xferIsProgress
      ensures Kept(bus, ts) && curXferIndex == 0 && DoneUpTo(0) && AtRest() && xferIsProgress
    {
      reqXfer := ts;
      curXferIndex := 0;
      began := bus;
      xferIsProgress := true;
      chipSelect := true;
      assert reqXfer[..0] == [] && bus.received[|began.received|..] == [];
    }
  }

  // ---------------------------------------------------------------- two runs of one transaction

  function TxLen(ts: seq<Transfer>): nat {
    if ts == [] then 0 else (if IsTx(ts[0]) then LenOf(ts[0]) else 0) + TxLen(ts[1..])
  }

  lemma {:induction false} SentLength(s: Bus, ts: seq<Transfer>, data: seq<bv8>)
    requires AllFit(ts, |s.mem|) && |data| == RxLen(ts)
    ensures |Replay(s, ts, data).sent| == |s.sent| + TxLen(ts)
    decreases |ts|
  {
    hide Splice;
    if ts != [] {
      var n := if IsTx(ts[0]) then 0 else LenOf(ts[0]);
      SentLength(Partial(s, ts[0], LenOf(ts[0]), data[..n]), ts[1..], data[n..]);
    }
  }

  predicate Disjoint(t: Transfer, u: Transfer) {
    BufOf(t) + LenOf(t) <= BufOf(u) || BufOf(u) + LenOf(u) <= BufOf(t)
  }

  /** No transfer sends from a buffer that an earlier one has received into. */
  predicate SendsAreOld(ts: seq<Transfer>) {
    forall i, j :: 0 <= i < j < |ts| && !IsTx(ts[i]) && IsTx(ts[j]) ==> Disjoint(ts[i], ts[j])
  }

  /** The bytes the transfer would send are the same in both memories. */
  predicate SameToSend(a: Bus, b: Bus, t: Transfer)
    requires Fits(t, |a.mem|) && Fits(t, |b.mem|)
  {
    IsTx(t) ==> a.mem[BufOf(t)..BufOf(t) + LenOf(t)] == b.mem[BufOf(t)..BufOf(t) + LenOf(t)]
  }

  lemma {:induction false} SentSame(a: Bus, b: Bus, ts: seq<Transfer>, da: seq<bv8>, db: seq<bv8>)
    requires |a.mem| == |b.mem| && AllFit(ts, |a.mem|) && |da| == |db| == RxLen(ts)
    requires SendsAreOld(ts) && a.sent == b.sent
    requires forall j :: 0 <= j < |ts| ==> SameToSend(a, b, ts[j])
    ensures Replay(a, ts, da).sent == Replay(b, ts, db).sent
    decreases |ts|
  {
    hide Splice;
    if ts != [] {
      var t := ts[0];
      var n := if IsTx(t) then 0 else LenOf(t);
      var a', b' := Partial(a, t, LenOf(t), da[..n]), Partial(b, t, LenOf(t), db[..n]);
      assert SameToSend(a, b, ts[0]);
      forall j | 0 <= j < |ts[1..]|
        ensures SameToSend(a', b', ts[1..][j])
      {
        var u := ts[j + 1];
        assert u in ts && SameToSend(a, b, u);
        if !IsTx(t) && IsTx(u) {
          SpliceElsewhere(a.mem, BufOf(t), da[..n], BufOf(u), BufOf(u) + LenOf(u));
          SpliceElsewhere(b.mem, BufOf(t), db[..n], BufOf(u), BufOf(u) + LenOf(u));
        }
      }
      SentSame(a', b', ts[1..], da[n..], db[n..]);
    }
  }

  /** Two completed runs of one transaction, each driven in one call or in several, against any
      two devices: they have sent and received equally many bytes; what they sent is the same
      unless a buffer was received into and then sent from; and if the devices answered the same,
      everything is. */
  lemma TwoRuns(began: Bus, ts: seq<Transfer>, one: Bus, other: Bus)
    requires Completed(began, ts, one) && Completed(began, ts, other)
    ensures |one.sent| == |other.sent| == |began.sent| + TxLen(ts) && |one.received| == |other.received|
    ensures SendsAreOld(ts) ==> one.sent == other.sent
    ensures one.received == other.received ==> one == other
  {
    hide Replay, SendsAreOld;
    var da, db := one.received[|began.received|..], other.received[|began.received|..];
    SentLength(began, ts, da);
    SentLength(began, ts, db);
    if SendsAreOld(ts) {
      assert forall j :: 0 <= j < |ts| ==> ts[j] in ts;
      SentSame(began, began, ts, da, db);
    }
  }

  /** Receiving a byte and sending it on: different answers, different bytes sent. */
  lemma SentDiffers()
    ensures var began := Bus([0], [], []);
            var ts := [Transfer(None, Some(0), 0, 1, 8), Transfer(Some(0), None, 1, 0, 8)];
            && Completed(began, ts, Bus([1], [1], [1])) && Completed(began, ts, Bus([2], [2], [2]))
            && !SendsAreOld(ts)
  {
    Echo(1);
    Echo(2);
    var ts := [Transfer(None, Some(0), 0, 1, 8), Transfer(Some(0), None, 1, 0, 8)];
    assert !Disjoint(ts[0], ts[1]);
  }

  lemma Echo(b: bv8)
    ensures var ts := [Transfer(None, Some(0), 0, 1, 8), Transfer(Some(0), None, 1, 0, 8)];
            Completed(Bus([0], [], []), ts, Bus([b], [b], [b]))
  {
    var t, u := Transfer(None, Some(0), 0, 1, 8), Transfer(Some(0), None, 1, 0, 8);
    assert [t, u][1..] == [u] && [u][1..] == [];
    assert [b][0..] == [b] && [b][..1] == [b] && [b][1..] == [];
    var began, mid := Bus([0], [], []), Bus([b], [], [b]);
    assert Splice([0], 0, [b]) == [b];
    assert Partial(began, t, 1, [b]) == mid;
    assert Partial(mid, u, 1, []) == Bus([b], [b], [b]);
    assert RxLen([u]) == 0;
  }
}
