// Register access over I2C, drivers/i2c_dev/tegrabl_i2c_dev.c, against a slave that takes a
// little-endian register address and then increments it by itself.
module I2cDev {
  import opened Arith
  import opened Buffers

  const MAX_I2C_TRANSFER_SIZE: nat := 0x1000
  const MAX_ADDR_SIZE := 4
  const W32: nat := 0x1_0000_0000

  type byte = x: nat | x < 256

  datatype Error = NoError | TooLarge | SendFailed | ReadFailed

  // ------------------------------------------------------------ register addresses

  /** addr >> (8 * i) */
  function Shifted(addr: nat, i: nat): nat {
    if i == 0 then addr else Shifted(addr, i - 1) / 256
  }

  function LeBytes(addr: nat, size: nat): (r: seq<byte>)
    ensures |r| == size
  {
    if size == 0 then [] else [(addr % 256) as byte] + LeBytes(addr / 256, size - 1)
  }

  function LeAddress(bytes: seq<byte>): nat {
    if bytes == [] then 0 else bytes[0] + 256 * LeAddress(bytes[1..])
  }

  /** The slave reads back the address exactly when it fits the address bytes. */
  lemma {:induction false} LeRoundTrip(addr: nat, size: nat)
    ensures LeAddress(LeBytes(addr, size)) == addr <==> addr < Capacity(size)
    ensures LeAddress(LeBytes(addr, size)) <= addr
  {
    if size > 0 {
      LeRoundTrip(addr / 256, size - 1);
      assert LeBytes(addr, size)[1..] == LeBytes(addr / 256, size - 1);
    }
  }

  lemma {:induction false} ShiftedIn(addr: nat, i: nat)
    requires i > 0
    ensures Shifted(addr, i) == Shifted(addr / 256, i - 1)
  {
    if i > 1 {
      ShiftedIn(addr, i - 1);
    }
  }

  lemma {:induction false} LeByteAt(addr: nat, size: nat, i: nat)
    requires i < size
    ensures LeBytes(addr, size)[i] == Shifted(addr, i) % 256
  {
    if i > 0 {
      ShiftedIn(addr, i);
      LeByteAt(addr / 256, size - 1, i - 1);
    }
  }

  // ------------------------------------------------------------ chunks

  /** Bytes of n registers, in the 32-bit arithmetic of the source. */
  function ByteCount(n: nat, width: nat): nat {
    Times(n, width) % W32
  }

  /** Registers in the next message, which also carries `overhead` address bytes. */
  function NextChunk(remaining: nat, width: nat, overhead: nat): nat
    requires width > 0 && overhead <= MAX_I2C_TRANSFER_SIZE
  {
    if (ByteCount(remaining, width) + overhead) % W32 < MAX_I2C_TRANSFER_SIZE then remaining
    else (MAX_I2C_TRANSFER_SIZE - overhead) / width
  }

  /** A chunk never exceeds what remains. It keeps to the transfer limit exactly when its byte count
      and the overhead do not wrap 32 bits together, and makes progress exactly when one register
      and the overhead fit a transfer or the bytes of all that remain seem to. */
  lemma ChunkFits(remaining: nat, width: nat, overhead: nat)
    requires width > 0 && overhead < MAX_I2C_TRANSFER_SIZE
    ensures var n := NextChunk(remaining, width, overhead);
            && n <= remaining
            && (ByteCount(n, width) + overhead <= MAX_I2C_TRANSFER_SIZE
                <==> ByteCount(remaining, width) + overhead < W32)
            && (remaining > 0 ==>
                  (n > 0 <==> width + overhead <= MAX_I2C_TRANSFER_SIZE
                              || (ByteCount(remaining, width) + overhead) % W32 < MAX_I2C_TRANSFER_SIZE))
  {
    hide Times;
    var room := MAX_I2C_TRANSFER_SIZE - overhead;
    Quotient(room, width);
    var n := room / width;
    if (ByteCount(remaining, width) + overhead) % W32 >= MAX_I2C_TRANSFER_SIZE {
      WithinRoom(remaining, width, room);
    }
    TimesIs(1, width);
    if n > 0 {
      TimesGrows(1, n, width);
    } else {
      TimesIs(0, width);
    }
  }

  lemma WithinRoom(remaining: nat, width: nat, room: nat)
    requires width > 0 && room <= ByteCount(remaining, width)
    ensures room / width <= remaining
  {
    Quotient(room, width);
    var n := room / width;
    if n > remaining {
      TimesGrows(remaining + 1, n, width);
    }
  }

  /** The chunks of a request have as many bytes as the request, both counted in 32 bits. */
  lemma ChunkCounts(remaining: nat, width: nat, overhead: nat)
    requires width > 0 && overhead < MAX_I2C_TRANSFER_SIZE && ByteCount(remaining, width) + overhead < W32
    ensures var n := NextChunk(remaining, width, overhead);
            && n <= remaining
            && ByteCount(remaining, width) == ByteCount(n, width) + ByteCount(remaining - n, width)
            && (n < remaining ==> ByteCount(n, width) == Times(n, width))
  {
    hide Times, NextChunk;
    ChunkFits(remaining, width, overhead);
    var n := NextChunk(remaining, width, overhead);
    TimesIs(0, width);
    if n < remaining {
      ChunkIsRoom(remaining, width, overhead);
      TimesAppend(remaining - n, n, width);
      Reduced(Times(remaining, width), Times(n, width));
    }
  }

  lemma ChunkIsRoom(remaining: nat, width: nat, overhead: nat)
    requires width > 0 && overhead < MAX_I2C_TRANSFER_SIZE && ByteCount(remaining, width) + overhead < W32
    requires NextChunk(remaining, width, overhead) < remaining
    ensures Times(NextChunk(remaining, width, overhead), width) <= MAX_I2C_TRANSFER_SIZE - overhead
         <= ByteCount(remaining, width)
  {
    hide Times;
    Quotient(MAX_I2C_TRANSFER_SIZE - overhead, width);
  }

  lemma Reduced(a: nat, b: nat)
    requires b <= a && b <= a % W32
    ensures (a - b) % W32 == a % W32 - b
  {
  }

  /** 2^31 + 1 registers of two bytes are two bytes. */
  lemma TwoBytesOnly()
    ensures ByteCount(0x8000_0001, 2) == 2 && Times(0x8000_0001, 2) == 0x1_0000_0002
  {
    TimesIs(0x8000_0001, 2);
  }

  /** The staging buffer of tegrabl_i2c_dev_write. */
  function StagingSize(count: nat, width: nat, addrSize: nat): nat {
    Min((addrSize + ByteCount(count, width)) % W32, MAX_I2C_TRANSFER_SIZE)
  }

  /** It holds the first message if and only if the sum does not wrap. */
  lemma StagingHoldsIff(count: nat, width: nat, addrSize: nat)
    requires 0 < width && addrSize + width <= MAX_I2C_TRANSFER_SIZE && 0 < addrSize
    ensures addrSize + ByteCount(NextChunk(count, width, addrSize), width) <= StagingSize(count, width, addrSize)
            <==> addrSize + ByteCount(count, width) < W32
  {
    hide Times;
    ChunkFits(count, width, addrSize);
    if addrSize + ByteCount(count, width) < W32 {
      ChunkCounts(count, width, addrSize);
    }
  }

  /** With four address bytes and 2^32 - 1 registers of one byte it has three bytes. */
  lemma ThreeBytesOfStaging()
    ensures StagingSize(0xFFFF_FFFF, 1, 4) == 3 && NextChunk(0xFFFF_FFFF, 1, 4) == 0xFFFF_FFFF
    ensures ByteCount(0xFFFF_FFFF, 1) == 0xFFFF_FFFF
  {
    TimesIs(0xFFFF_FFFF, 1);
  }

  lemma Quotient(room: nat, width: nat)
    requires width > 0
    ensures Times(room / width, width) <= room < Times(room / width, width) + width
  {
    TimesIs(room / width, width);
  }

  /** The registers of one message. */
  function Regs(from: nat, n: nat): seq<nat> {
    seq(n, i requires 0 <= i < n => from + i)
  }

  lemma RegsAppend(from: nat, m: nat, n: nat)
    ensures Regs(from, m) + Regs(from + m, n) == Regs(from, m + n)
  {
  }

  lemma {:induction false} TimesAppend(m: nat, n: nat, p: nat)
    ensures Times(m + n, p) == Times(m, p) + Times(n, p)
  {
    if n > 0 {
      TimesAppend(m, n - 1, p);
    }
  }

  /** What a write stores is what a read of the same registers returns; registers outside the
      range keep their bytes. */
  lemma WriteReadsBack(mem: seq<byte>, width: nat, first: nat, count: nat, data: seq<byte>, other: nat)
    requires |data| == Times(count, width) && Times(first + count, width) <= |mem| && Times(other + 1, width) <= |mem|
    ensures Times(first, width) + |data| == Times(first + count, width)
    ensures Times(other, width) <= Times(other + 1, width)
    ensures Splice(mem, Times(first, width), data)[Times(first, width)..Times(first + count, width)] == data
    ensures !(first <= other < first + count) ==>
              Splice(mem, Times(first, width), data)[Times(other, width)..Times(other + 1, width)]
              == mem[Times(other, width)..Times(other + 1, width)]
  {
    hide Times, Splice;
    TimesAppend(first, count, width);
    TimesGrows(other, other + 1, width);
    SpliceAt(mem, Times(first, width), data);
    if other < first {
      TimesGrows(other + 1, first, width);
      SpliceElsewhere(mem, Times(first, width), data, Times(other, width), Times(other + 1, width));
    } else if first + count <= other {
      TimesGrows(first + count, other, width);
      SpliceElsewhere(mem, Times(first, width), data, Times(other, width), Times(other + 1, width));
    }
  }

  class Device {
    const addrSize: nat
    const width: nat
    const registers: nat
    // the slave: its register bytes and its address pointer
    var mem: seq<byte>
    var pointer: nat
    /** Registers written by complete messages, in order. */
    ghost var sent: seq<nat>
    /** How many messages have failed. */
    ghost var failed: nat

    ghost predicate Valid()
      reads this`mem
    {
      && 1 <= addrSize && 0 < width && addrSize + width <= MAX_I2C_TRANSFER_SIZE
      && registers <= Capacity(addrSize) && |mem| == Times(registers, width)
    }

    constructor (addrSize: nat, width: nat, registers: nat, mem: seq<byte>)
      requires 1 <= addrSize && 0 < width && addrSize + width <= MAX_I2C_TRANSFER_SIZE
      requires registers <= Capacity(addrSize) && |mem| == Times(registers, width)
      ensures Valid() && this.mem == mem && sent == []
      ensures this.addrSize == addrSize && this.width == width && this.registers == registers
    {
      this.addrSize, this.width, this.registers := addrSize, width, registers;
      this.mem, pointer, sent, failed := mem, 0, [], 0;
    }

    /** A range of registers of this device. */
    predicate InRange(first: nat, count: nat) {
      first < registers && first + count <= registers
    }

    /** tegrabl_i2c_write: address bytes, then data. A failed message may have stored any part
        of its data from the front, or all of it. */
    method Send(message: array<byte>, length: nat, ghost first: nat)
      returns (ok: bool, ghost stored: nat)
      requires Valid() && addrSize <= length <= message.Length && length <= 0x1000
      requires LeAddress(message[..addrSize]) == first && Times(first, width) + length - addrSize <= |mem|
      modifies this`mem, this`pointer, this`sent, this`failed
      ensures failed == old(failed) + if ok then 0 else 1
      ensures Valid() && stored <= length - addrSize && (ok ==> stored == length - addrSize)
      ensures mem == Splice(old(mem), Times(first, width), message[addrSize..addrSize + stored])
      ensures sent == old(sent) + if ok then Regs(first, WholeRegs(length - addrSize)) else []
      ensures ok ==> pointer == first + WholeRegs(length - addrSize)
    {
      hide Times, LeAddress, Regs, Splice, WholeRegs;
      var part: int := *;
      var at := LeAddress(message[..addrSize]);
      var count: nat := if 0 <= part < length - addrSize then part else length - addrSize;
      var acknowledged: bool := *;
      ok := acknowledged && count == length - addrSize;
      stored := count;
      failed := failed + if ok then 0 else 1;
      mem := Splice(mem, Times(at, width), message[addrSize..addrSize + count]);
      if ok {
        pointer := at + WholeRegs(count);
        sent := sent + Regs(first, WholeRegs(count));
      }
    }

    /** Registers in range are bytes in range. */
    lemma InMemory(first: nat, n: nat)
      requires Valid() && InRange(first, n)
      ensures Times(first + n, width) == Times(first, width) + Times(n, width) <= |mem|
    {
      TimesAppend(first, n, width);
      TimesGrows(first + n, registers, width);
    }

    /** Whole registers in so many bytes. */
    function WholeRegs(bytes: nat): nat
      requires 0 < width
    {
      bytes / width
    }

    lemma QuotientOfTimes(n: nat)
      requires 0 < width
      ensures WholeRegs(Times(n, width)) == n
    {
      TimesIs(n, width);
      DivModUnique(n * width, width, n, 0);
    }

    /** tegrabl_i2c_read: bytes from the address pointer on; a failed one may have filled any part,
        and one of no bytes is refused. */
    method Receive(buf: array<byte>, off: nat, length: nat) returns (ok: bool)
      requires Valid() && length <= 0x1000 && off + length <= buf.Length && Times(pointer, width) + length <= |mem|
      modifies buf, this`failed
      ensures failed == old(failed) + if ok then 0 else 1
      ensures buf[..off] == old(buf[..off]) && buf[off + length..] == old(buf[off + length..])
      ensures length == 0 ==> !ok
      ensures ok ==> buf[off..off + length] == mem[Times(pointer, width)..Times(pointer, width) + length]
    {
      if length == 0 {
        failed := failed + 1;
        return false;
      }
      var data := mem[Times(pointer, width)..Times(pointer, width) + length];
      var i := off;
      while i < off + length
        invariant off <= i <= off + length
        invariant buf[..off] == old(buf[..off]) && buf[off + length..] == old(buf[off + length..])
        invariant failed == old(failed)
        invariant forall j :: off <= j < i ==> buf[j] == data[j - off]
      {
        var broken: bool := *;
        if broken {
          failed := failed + 1;
          return false;
        }
        buf[i] := data[i - off];
        i := i + 1;
      }
      ok := true;
    }

    /** Copy the register address into the front of the staging buffer, least significant byte first. */
    method PutAddress(buffer: array<byte>, addr: nat)
      requires 1 <= addrSize <= buffer.Length
      modifies buffer
      ensures buffer[..addrSize] == LeBytes(addr, addrSize)
      ensures buffer[addrSize..] == old(buffer[addrSize..])
    {
      var i := 0;
      while i < addrSize
        invariant i <= addrSize
        invariant forall j :: 0 <= j < i ==> buffer[j] == LeBytes(addr, addrSize)[j]
        invariant buffer[addrSize..] == old(buffer[addrSize..])
      {
        LeByteAt(addr, addrSize, i);
        buffer[i] := Shifted(addr, i) % 256;
        i := i + 1;
      }
    }

    lemma CountFacts(n: nat)
      ensures ByteCount(n, width) < W32 && ByteCount(n, width) <= Times(n, width)
      ensures ByteCount(n, width) == Times(n, width) <==> Times(n, width) < W32
    {
      hide Times;
    }

    /** The bytes of the request and the address fit 32 bits together. */
    predicate Staged(count: nat) {
      addrSize + ByteCount(count, width) < W32
    }

    /** tegrabl_i2c_dev_write: on success the registers asked for hold the caller's bytes as far as
        the byte count goes in 32 bits, that is all of them if and only if it does not wrap, each
        sent once; on failure a prefix of them has been stored. A request whose byte count wraps
        only together with the address bytes overruns the staging buffer. */
    method Write(buf: seq<byte>, regAddr: nat, regCount: nat) returns (err: Error, ghost stored: nat)
      requires Valid() && InRange(regAddr, regCount) && |buf| == Times(regCount, width) && regCount < W32
      modifies this
      ensures err == TooLarge <==> addrSize > 4
      ensures err == TooLarge ==> Valid() && mem == old(mem) && sent == old(sent)
      ensures Staged(regCount) ==> Valid() && stored <= ByteCount(regCount, width) <= |buf|
      ensures Times(regAddr, width) + |buf| <= |old(mem)|
      ensures Staged(regCount) ==> stored <= |buf| && mem == Splice(old(mem), Times(regAddr, width), buf[..stored])
      ensures Staged(regCount) && err == NoError ==>
                && stored == ByteCount(regCount, width) && sent == old(sent) + Regs(regAddr, WholeRegs(stored))
                && (stored == |buf| <==> |buf| < W32)
      ensures err == NoError && addrSize + |buf| < W32 ==>
                stored == |buf| && sent == old(sent) + Regs(regAddr, regCount)
      ensures err in {NoError, TooLarge, SendFailed}
      ensures Staged(regCount) ==> (err == SendFailed <==> failed != old(failed))
    {
      hide Times, ByteCount, NextChunk, StagingSize, Splice, Regs, WholeRegs, Capacity, Min;
      stored := 0;
      InMemory(regAddr, regCount);
      SpliceNothing(mem, Times(regAddr, width));
      QuotientOfTimes(regCount);
      CountFacts(regCount);
      if addrSize > MAX_ADDR_SIZE {
        return TooLarge, 0;
      }
      StagingHoldsIff(regCount, width, addrSize);
      var buffer := new byte[StagingSize(regCount, width, addrSize)];
      if buffer.Length < addrSize + ByteCount(NextChunk(regCount, width, addrSize), width) {
        err := RunPastStaging();
        return;
      }
      err, stored := WriteStaged(buffer, buf, regAddr, regCount);
    }

    /** The first message does not fit its staging buffer and is copied past the end of it. Nothing
        is said of what comes of that. */
    method RunPastStaging() returns (err: Error)
      modifies this
      ensures err in {NoError, SendFailed}
    {
      mem, pointer := *, *;
      sent := *;
      var fails: bool := *;
      err := if fails then SendFailed else NoError;
    }

    /** The loop of tegrabl_i2c_dev_write. */
    method WriteStaged(buffer: array<byte>, buf: seq<byte>, regAddr: nat, regCount: nat)
      returns (err: Error, ghost stored: nat)
      requires Valid() && InRange(regAddr, regCount) && |buf| == Times(regCount, width) && Staged(regCount)
      requires buffer.Length == StagingSize(regCount, width, addrSize) && Times(regAddr, width) + |buf| <= |mem|
      modifies buffer, this
      ensures Valid() && stored <= ByteCount(regCount, width) <= |buf|
      ensures mem == Splice(old(mem), Times(regAddr, width), buf[..stored])
      ensures err == NoError ==>
                stored == ByteCount(regCount, width) && sent == old(sent) + Regs(regAddr, WholeRegs(stored))
      ensures err in {NoError, SendFailed} && (err == NoError <==> failed == old(failed))
    {
      hide Times, ByteCount, Splice, Regs, NextChunk, StagingSize, WholeRegs, Capacity;
      stored := 0;
      SpliceNothing(mem, Times(regAddr, width));
      NothingYet(regAddr);
      CountFacts(0);
      CountFacts(regCount);
      var remaining: nat, addr: nat, j: nat := regCount, regAddr, 0;
      ghost var was, before, total := mem, sent, ByteCount(regCount, width);
      while true
        invariant Valid() && remaining <= regCount && addr == regAddr + (regCount - remaining)
        invariant j == Times(regCount - remaining, width) && j + ByteCount(remaining, width) == total <= |buf|
        invariant mem == Splice(was, Times(regAddr, width), buf[..j])
        invariant sent == before + Regs(regAddr, regCount - remaining)
        invariant stored == j && (remaining > 0 || regCount == 0) && failed == old(failed)
        decreases remaining
      {
        var ok, n;
        ghost var part;
        ok, n, part := WriteChunk(buffer, buf, j, addr, remaining, regAddr, regCount, was, before);
        stored := j + part;
        if !ok {
          return SendFailed, stored;
        }
        remaining := remaining - n;
        j := j + ByteCount(n, width);
        addr := addr + n;
        if remaining == 0 {
          break;
        }
      }
      err := NoError;
    }

    lemma NothingYet(first: nat)
      ensures Regs(first, 0) == [] && Times(0, width) == 0
    {
    }

    /** One message of tegrabl_i2c_dev_write, which began on memory `was`. */
    method WriteChunk(buffer: array<byte>, buf: seq<byte>, j: nat, addr: nat, remaining: nat,
                      ghost regAddr: nat, ghost regCount: nat, ghost was: seq<byte>, ghost before: seq<nat>)
      returns (ok: bool, n: nat, ghost part: nat)
      requires Valid() && InRange(regAddr, regCount) && remaining <= regCount && Staged(regCount)
      requires addr == regAddr + (regCount - remaining)
      requires remaining > 0 || regCount == 0
      requires |buf| == Times(regCount, width) && j == Times(regCount - remaining, width)
      requires j + ByteCount(remaining, width) == ByteCount(regCount, width) <= |buf|
      requires buffer.Length == StagingSize(regCount, width, addrSize)
      requires Times(regAddr, width) + |buf| <= |was|
      requires j <= |buf| && mem == Splice(was, Times(regAddr, width), buf[..j])
      requires sent == before + Regs(regAddr, regCount - remaining)
      modifies buffer, this
      ensures Valid() && n <= remaining && (remaining > 0 ==> n > 0) && (ok <==> failed == old(failed))
      ensures part <= ByteCount(n, width)
      ensures j + ByteCount(n, width) + ByteCount(remaining - n, width) == ByteCount(regCount, width)
      ensures n < remaining ==> j + ByteCount(n, width) == Times(regCount - remaining + n, width)
      ensures mem == Splice(was, Times(regAddr, width), buf[..j + part])
      ensures ok ==> part == ByteCount(n, width) && sent == before + Regs(regAddr, WholeRegs(j + part))
      ensures ok && n < remaining ==> sent == before + Regs(regAddr, regCount - remaining + n)
    {
      hide Times, Splice, Capacity, NextChunk, Regs, ByteCount, WholeRegs, StagingSize;
      n := NextChunk(remaining, width, addrSize);
      ChunkFits(remaining, width, addrSize);
      ChunkCounts(remaining, width, addrSize);
      ChunkStaged(regCount, remaining, n, j);
      ChunkInBuffer(|buf|, regCount, remaining, n, j);
      InMemory(regAddr, regCount);
      InMemory(regAddr, regCount - remaining);
      Stage(buffer, buf, j, addr, ByteCount(n, width));
      ok, part := Send(buffer, addrSize + ByteCount(n, width), addr);
      RegsSoFar(regAddr, regCount - remaining, j, n, ByteCount(n, width));
      SlicePart(buffer[..], addrSize, buf, j, ByteCount(n, width), part);
      SpliceMore(was, Times(regAddr, width), buf, j, part);
    }

    /** A message behind whole registers continues their run. */
    lemma RegsSoFar(first: nat, m: nat, j: nat, n: nat, bytes: nat)
      requires 0 < width && j == Times(m, width)
      ensures Regs(first, m) + Regs(first + m, WholeRegs(bytes)) == Regs(first, WholeRegs(j + bytes))
      ensures bytes == Times(n, width) ==> WholeRegs(j + bytes) == m + n
    {
      hide Times, Regs, WholeRegs;
      WholeRegsBehind(m, bytes);
      RegsAppend(first, m, WholeRegs(bytes));
      if bytes == Times(n, width) {
        QuotientOfTimes(n);
      }
    }

    lemma WholeRegsBehind(m: nat, bytes: nat)
      requires 0 < width
      ensures WholeRegs(Times(m, width) + bytes) == m + WholeRegs(bytes)
    {
      hide Times;
      TimesIs(m, width);
      ShiftMod(bytes, m, width);
    }

    /** Every message fits the staging buffer that the first one fits. */
    lemma ChunkStaged(regCount: nat, remaining: nat, n: nat, j: nat)
      requires Valid() && Staged(regCount) && j + ByteCount(remaining, width) == ByteCount(regCount, width)
      requires n <= remaining && ByteCount(n, width) <= ByteCount(remaining, width)
      requires addrSize + ByteCount(n, width) <= MAX_I2C_TRANSFER_SIZE
      ensures addrSize + ByteCount(n, width) <= StagingSize(regCount, width, addrSize)
    {
      hide ByteCount;
    }

    lemma TakeOfSlice(s: seq<byte>, off: nat, length: nat, part: nat)
      requires part <= length && off + length <= |s|
      ensures s[off..off + length][..part] == s[off..off + part]
    {
    }

    lemma SlicePart(s: seq<byte>, off: nat, t: seq<byte>, j: nat, length: nat, part: nat)
      requires part <= length && off + length <= |s| && j + length <= |t| && s[off..off + length] == t[j..j + length]
      ensures s[off..off + part] == t[j..j + part]
    {
      TakeOfSlice(s, off, length, part);
      TakeOfSlice(t, j, length, part);
    }

    lemma SpliceMore(was: seq<byte>, base: nat, buf: seq<byte>, j: nat, part: nat)
      requires j + part <= |buf| && base + |buf| <= |was|
      ensures Splice(Splice(was, base, buf[..j]), base + j, buf[j..j + part]) == Splice(was, base, buf[..j + part])
    {
      SpliceAdjacent(was, base, buf[..j], buf[j..j + part]);
      assert buf[..j] + buf[j..j + part] == buf[..j + part];
    }

    /** Fill the staging buffer with one message; it is never written past its end. */
    method Stage(buffer: array<byte>, buf: seq<byte>, j: nat, addr: nat, count: nat)
      requires Valid() && addr < registers && j + count <= |buf| && addrSize + count <= buffer.Length
      modifies buffer
      ensures LeAddress(buffer[..addrSize]) == addr
      ensures buffer[addrSize..addrSize + count] == buf[j..j + count]
    {
      PutAddress(buffer, addr);
      LeRoundTrip(addr, addrSize);
      forall i | addrSize <= i < addrSize + count {
        buffer[i] := buf[j + i - addrSize];
      }
      assert buffer[..addrSize] == LeBytes(addr, addrSize);
    }

    /** The address message that precedes each read; it carries no data. */
    method Point(buffer: array<byte>, addr: nat) returns (ok: bool)
      requires Valid() && addr < registers && buffer.Length == addrSize
      modifies buffer, this
      ensures Valid() && mem == old(mem) && sent == old(sent) && (ok ==> pointer == addr)
      ensures ok <==> failed == old(failed)
    {
      PutAddress(buffer, addr);
      LeRoundTrip(addr, addrSize);
      assert buffer[..addrSize] == LeBytes(addr, addrSize);
      ghost var stored;
      InMemory(addr, 0);
      ok, stored := Send(buffer, addrSize, addr);
      SpliceNothing(old(mem), Times(addr, width));
      assert buffer[addrSize..addrSize + stored] == [];
      assert old(sent) + Regs(addr, 0) == old(sent);
    }

    /** tegrabl_i2c_dev_read: on success the buffer holds the registers asked for, as far as the
        byte count goes in 32 bits, that is all of them if and only if it does not wrap; the
        slave's registers and the rest of the buffer never change. No registers, and a byte count
        of a positive multiple of 2^32, end in an error. */
    method Read(buf: array<byte>, regAddr: nat, regCount: nat) returns (err: Error)
      requires Valid() && InRange(regAddr, regCount) && buf.Length >= Times(regCount, width) && regCount < W32
      modifies buf, this
      ensures Valid() && mem == old(mem) && sent == old(sent)
      ensures ByteCount(regCount, width) <= Times(regCount, width)
      ensures buf[ByteCount(regCount, width)..] == old(buf[ByteCount(regCount, width)..])
      ensures err == TooLarge <==> addrSize > 4
      ensures Times(regAddr, width) + Times(regCount, width) <= |mem|
      ensures err == NoError ==>
                buf[..ByteCount(regCount, width)]
                == mem[Times(regAddr, width)..Times(regAddr, width) + ByteCount(regCount, width)]
      ensures ByteCount(regCount, width) == Times(regCount, width) <==> Times(regCount, width) < W32
      ensures ByteCount(regCount, width) == 0 ==> err != NoError
      ensures err in {NoError, TooLarge, SendFailed, ReadFailed}
      ensures err in {NoError, TooLarge} <==> failed == old(failed)
    {
      hide NextChunk, LeAddress, Regs, Times, Capacity, ByteCount;
      InMemory(regAddr, regCount);
      CountFacts(regCount);
      CountFacts(0);
      TimesIs(0, width);
      if addrSize > MAX_ADDR_SIZE {
        return TooLarge;
      }
      var buffer := new byte[addrSize];
      var remaining: nat, addr: nat, j: nat := regCount, regAddr, 0;
      ghost var total, base := ByteCount(regCount, width), Times(regAddr, width);
      while true
        invariant Valid() && mem == old(mem) && sent == old(sent) && fresh(buffer) && failed == old(failed)
        invariant remaining <= regCount && addr == regAddr + (regCount - remaining)
        invariant (remaining > 0 || regCount == 0) && j == Times(regCount - remaining, width)
        invariant j + ByteCount(remaining, width) == total
        invariant buf[total..] == old(buf[total..])
        invariant buf[..j] == mem[base..base + j]
        decreases remaining
      {
        var n: nat;
        err, n := ReadChunk(buffer, buf, j, addr, remaining, regAddr, regCount);
        if err != NoError {
          return err;
        }
        remaining := remaining - n;
        j := j + ByteCount(n, width);
        addr := addr + n;
        if remaining == 0 {
          break;
        }
      }
    }

    lemma SliceTail(s: seq<byte>, t: seq<byte>, from: nat, total: nat)
      requires from <= total <= |s| == |t| && s[from..] == t[from..]
      ensures s[total..] == t[total..]
    {
      assert s[total..] == s[from..][total - from..];
    }

    lemma SlicesJoin(s: seq<byte>, t: seq<byte>, base: nat, j: nat, length: nat)
      requires j + length <= |s| && base + j + length <= |t|
      requires s[..j] == t[base..base + j] && s[j..j + length] == t[base + j..base + j + length]
      ensures s[..j + length] == t[base..base + j + length]
    {
      assert s[..j + length] == s[..j] + s[j..j + length];
    }

    /** One pair of messages of tegrabl_i2c_dev_read. */
    method ReadChunk(buffer: array<byte>, buf: array<byte>, j: nat, addr: nat, remaining: nat,
                     ghost regAddr: nat, ghost regCount: nat)
      returns (err: Error, n: nat)
      requires Valid() && InRange(regAddr, regCount) && remaining <= regCount
      requires addr == regAddr + (regCount - remaining)
      requires remaining > 0 || regCount == 0
      requires buffer != buf && buffer.Length == addrSize
      requires j == Times(regCount - remaining, width)
      requires j + ByteCount(remaining, width) == ByteCount(regCount, width) <= Times(regCount, width) <= buf.Length
      requires Times(regAddr, width) + Times(regCount, width) <= |mem|
      requires buf[..j] == mem[Times(regAddr, width)..Times(regAddr, width) + j]
      modifies buffer, buf, this
      ensures Valid() && mem == old(mem) && sent == old(sent) && n <= remaining && (remaining > 0 ==> n > 0)
      ensures j + ByteCount(n, width) + ByteCount(remaining - n, width) == ByteCount(regCount, width)
      ensures n < remaining ==> j + ByteCount(n, width) == Times(regCount - remaining + n, width)
      ensures buf[ByteCount(regCount, width)..] == old(buf[ByteCount(regCount, width)..])
      ensures err == NoError ==> ByteCount(n, width) > 0
      ensures err == NoError ==>
                buf[..j + ByteCount(n, width)]
                == mem[Times(regAddr, width)..Times(regAddr, width) + j + ByteCount(n, width)]
      ensures err in {NoError, SendFailed, ReadFailed} && (err == NoError <==> failed == old(failed))
    {
      hide Times, Capacity, NextChunk, Regs, ByteCount, LeAddress;
      CountFacts(remaining);
      n := NextChunk(remaining, width, 0);
      ChunkFits(remaining, width, 0);
      ChunkCounts(remaining, width, 0);
      ChunkInBuffer(Times(regCount, width), regCount, remaining, n, j);
      InMemory(regAddr, regCount - remaining);
      InMemory(regAddr, regCount);
      var ok := Point(buffer, addr);
      if !ok {
        return SendFailed, n;
      }
      ghost var was, total, base := buf[..], ByteCount(regCount, width), Times(regAddr, width);
      var length := ByteCount(n, width);
      ok := Receive(buf, j, length);
      SliceTail(buf[..], was, j + length, total);
      if !ok {
        return ReadFailed, n;
      }
      SlicesJoin(buf[..], mem, base, j, length);
      err := NoError;
    }

    lemma ChunkInBuffer(total: nat, regCount: nat, remaining: nat, n: nat, j: nat)
      requires n <= remaining <= regCount && total == Times(regCount, width) && j == Times(regCount - remaining, width)
      ensures j + Times(n, width) == Times(regCount - remaining + n, width) <= total
    {
      TimesAppend(regCount - remaining, n, width);
      TimesGrows(regCount - remaining + n, regCount, width);
    }

    /** Write registers and read them back: two successful calls return what was written, all of it
        if and only if its size fits 32 bits. */
    method WriteThenReadBack(data: seq<byte>, buf: array<byte>, regAddr: nat, regCount: nat) returns (err: Error)
      requires Valid() && InRange(regAddr, regCount) && |data| == Times(regCount, width) <= buf.Length && regCount < W32
      modifies buf, this
      ensures Staged(regCount) ==> Valid()
      ensures ByteCount(regCount, width) <= |data|
      ensures Staged(regCount) && err == NoError ==>
                && buf[..ByteCount(regCount, width)] == data[..ByteCount(regCount, width)]
                && buf[ByteCount(regCount, width)..] == old(buf[ByteCount(regCount, width)..])
      ensures addrSize + |data| < W32 && err == NoError ==> buf[..|data|] == data
      ensures Staged(regCount) ==> (err in {NoError, TooLarge} <==> failed == old(failed))
    {
      hide Times, Capacity;
      InMemory(regAddr, regCount);
      ghost var base, was := Times(regAddr, width), mem;
      ghost var stored;
      err, stored := Write(data, regAddr, regCount);
      if err == NoError && Staged(regCount) {
        err := Read(buf, regAddr, regCount);
        SpliceAt(was, base, data[..stored]);
      }
    }
  }
}
