// A block device and the caller's memory as two byte arrays, and the one thing a block
// transfer is meant to do to them.
module BlockStore {
  import opened Arith
  import opened Buffers

  datatype Store = Store(mem: seq<bv8>, disk: seq<bv8>)

  predicate InRange(blockSize: nat, st: Store, buffer: nat, block: nat, count: nat) {
    buffer + count * blockSize <= |st.mem| && (block + count) * blockSize <= |st.disk|
  }

  /** Move len bytes between memory at buffer and device byte at. */
  function MoveBytes(st: Store, buffer: nat, at: nat, len: nat, write: bool): (r: Store)
    requires buffer + len <= |st.mem| && at + len <= |st.disk|
    ensures |r.mem| == |st.mem| && |r.disk| == |st.disk|
  {
    if write then st.(disk := Splice(st.disk, at, st.mem[buffer..buffer + len]))
    else st.(mem := Splice(st.mem, buffer, st.disk[at..at + len]))
  }

  /** Move count blocks between memory at buffer and the device at block. */
  function Transferred(blockSize: nat, st: Store, buffer: nat, block: nat, count: nat, write: bool): (r: Store)
    requires InRange(blockSize, st, buffer, block, count)
    ensures |r.mem| == |st.mem| && |r.disk| == |st.disk|
  {
    Distribute(block, count, blockSize);
    MoveBytes(st, buffer, block * blockSize, count * blockSize, write)
  }

  lemma MoveBytesAdjacent(st: Store, buffer: nat, at: nat, m: nat, n: nat, write: bool)
    requires buffer + m + n <= |st.mem| && at + m + n <= |st.disk|
    ensures MoveBytes(MoveBytes(st, buffer, at, m, write), buffer + m, at + m, n, write)
         == MoveBytes(st, buffer, at, m + n, write)
  {
    if write {
      SliceAdjacent(st.mem, buffer, m, n);
      SpliceAdjacent(st.disk, at, st.mem[buffer..buffer + m], st.mem[buffer + m..buffer + m + n]);
    } else {
      SliceAdjacent(st.disk, at, m, n);
      SpliceAdjacent(st.mem, buffer, st.disk[at..at + m], st.disk[at + m..at + m + n]);
    }
  }

  lemma TransferredNothing(blockSize: nat, st: Store, buffer: nat, block: nat, write: bool)
    requires InRange(blockSize, st, buffer, block, 0)
    ensures Transferred(blockSize, st, buffer, block, 0, write) == st
  {
    SpliceNothing(st.mem, buffer);
    SpliceNothing(st.disk, block * blockSize);
  }

  lemma InRangeSplit(blockSize: nat, st: Store, buffer: nat, block: nat, m: nat, n: nat)
    requires InRange(blockSize, st, buffer, block, m + n)
    ensures InRange(blockSize, st, buffer, block, m)
    ensures InRange(blockSize, st, buffer + m * blockSize, block + m, n)
  {
    Distribute(m, n, blockSize);
    Distribute(block + m, n, blockSize);
    assert block + (m + n) == (block + m) + n;
  }

  /** Two transfers back to back are the one transfer of their union. */
  lemma TransferredAdjacent(blockSize: nat, st: Store, buffer: nat, block: nat, m: nat, n: nat, write: bool, next: nat)
    requires InRange(blockSize, st, buffer, block, m + n) && InRange(blockSize, st, buffer, block, m)
    requires next == buffer + m * blockSize
    ensures InRange(blockSize, Transferred(blockSize, st, buffer, block, m, write), next, block + m, n)
    ensures Transferred(blockSize, Transferred(blockSize, st, buffer, block, m, write), next, block + m, n, write)
         == Transferred(blockSize, st, buffer, block, m + n, write)
  {
    hide Transferred, MoveBytes, InRange;
    InRangeSplit(blockSize, st, buffer, block, m, n);
    var moved := Transferred(blockSize, st, buffer, block, m, write);
    InRangeBySize(blockSize, st, moved, next, block + m, n);
    Distribute(m, n, blockSize);
    Distribute(block, m, blockSize);
    BytesJoin(blockSize, st, buffer, block, m, n, write, block * blockSize, m * blockSize, n * blockSize, moved);
  }

  /** The same with every product named. */
  lemma BytesJoin(blockSize: nat, st: Store, buffer: nat, block: nat, m: nat, n: nat, write: bool,
                  at: nat, first: nat, second: nat, moved: Store)
    requires at == block * blockSize && first == m * blockSize && second == n * blockSize
    requires at + first == (block + m) * blockSize && first + second == (m + n) * blockSize
    requires InRange(blockSize, st, buffer, block, m) && InRange(blockSize, st, buffer, block, m + n)
    requires moved == Transferred(blockSize, st, buffer, block, m, write)
    requires InRange(blockSize, moved, buffer + first, block + m, n)
    ensures Transferred(blockSize, moved, buffer + first, block + m, n, write)
         == Transferred(blockSize, st, buffer, block, m + n, write)
  {
    hide Transferred, MoveBytes, InRange;
    TransferredIs(blockSize, st, buffer, block, m, write, at, first);
    TransferredIs(blockSize, st, buffer, block, m + n, write, at, first + second);
    TransferredIs(blockSize, moved, buffer + first, block + m, n, write, at + first, second);
    MoveBytesAdjacent(st, buffer, at, first, second, write);
  }

  lemma TransferredIs(blockSize: nat, st: Store, buffer: nat, block: nat, count: nat, write: bool, at: nat, len: nat)
    requires InRange(blockSize, st, buffer, block, count) && at == block * blockSize && len == count * blockSize
    ensures buffer + len <= |st.mem| && at + len <= |st.disk|
    ensures Transferred(blockSize, st, buffer, block, count, write) == MoveBytes(st, buffer, at, len, write)
  {
    Distribute(block, count, blockSize);
    hide MoveBytes;
  }

  lemma InRangeBySize(blockSize: nat, st: Store, other: Store, buffer: nat, block: nat, count: nat)
    requires InRange(blockSize, st, buffer, block, count) && |other.mem| == |st.mem| && |other.disk| == |st.disk|
    ensures InRange(blockSize, other, buffer, block, count)
  {
  }

  /** now is start with the first done blocks of the request moved, and nothing else. */
  ghost predicate MovedPrefix(blockSize: nat, start: Store, buffer: nat, block: nat, done: nat, write: bool,
                              now: Store)
  {
    InRange(blockSize, start, buffer, block, done) && now == Transferred(blockSize, start, buffer, block, done, write)
  }

  lemma PrefixStart(blockSize: nat, start: Store, buffer: nat, block: nat, count: nat, write: bool)
    requires InRange(blockSize, start, buffer, block, count)
    ensures MovedPrefix(blockSize, start, buffer, block, 0, write, start)
  {
    InRangeSplit(blockSize, start, buffer, block, 0, count);
    TransferredNothing(blockSize, start, buffer, block, write);
  }

  /** The rest of a request is itself a request. */
  lemma PrefixRest(blockSize: nat, start: Store, buffer: nat, block: nat, count: nat, write: bool, done: nat,
                   now: Store, more: nat)
    requires InRange(blockSize, start, buffer, block, count) && done + more <= count
    requires MovedPrefix(blockSize, start, buffer, block, done, write, now)
    ensures InRange(blockSize, now, buffer + done * blockSize, block + done, more)
  {
    assert count == (done + more) + (count - done - more);
    InRangeSplit(blockSize, start, buffer, block, done + more, count - done - more);
    InRangeSplit(blockSize, start, buffer, block, done, more);
  }

  /** Moving the first blocks of the rest extends the prefix. */
  lemma PrefixExtend(blockSize: nat, start: Store, buffer: nat, block: nat, count: nat, write: bool, done: nat,
                     now: Store, more: nat, later: Store)
    requires InRange(blockSize, start, buffer, block, count) && done + more <= count
    requires MovedPrefix(blockSize, start, buffer, block, done, write, now)
    requires MovedPrefix(blockSize, now, buffer + done * blockSize, block + done, more, write, later)
    ensures MovedPrefix(blockSize, start, buffer, block, done + more, write, later)
    ensures buffer + (done + more) * blockSize == (buffer + done * blockSize) + more * blockSize
  {
    hide Transferred, InRange;
    Distribute(done, more, blockSize);
    assert count == (done + more) + (count - done - more);
    InRangeSplit(blockSize, start, buffer, block, done + more, count - done - more);
    TransferredAdjacent(blockSize, start, buffer, block, done, more, write, buffer + done * blockSize);
  }

  /** b differs from a at most in len bytes of the side a transfer writes to. */
  predicate TornAt(a: Store, b: Store, buffer: int, at: int, len: int, write: bool) {
    if write then a.mem == b.mem && Untouched(a.disk, b.disk, at, at + len)
    else a.disk == b.disk && Untouched(a.mem, b.mem, buffer, buffer + len)
  }

  /** The first done blocks of the request have been moved; the torn blocks after them hold
      anything, and nothing else has changed. */
  ghost predicate MovedTorn(blockSize: nat, start: Store, buffer: nat, block: nat, done: nat, torn: nat, write: bool,
                            now: Store)
  {
    && InRange(blockSize, start, buffer, block, done)
    && TornAt(Transferred(blockSize, start, buffer, block, done, write), now,
              buffer + done * blockSize, (block + done) * blockSize, torn * blockSize, write)
  }

  lemma TornNothing(blockSize: nat, start: Store, buffer: nat, block: nat, done: nat, write: bool, now: Store)
    ensures MovedTorn(blockSize, start, buffer, block, done, 0, write, now)
            <==> MovedPrefix(blockSize, start, buffer, block, done, write, now)
  {
    hide Transferred;
    if MovedTorn(blockSize, start, buffer, block, done, 0, write, now) {
      UntouchedNothing(Transferred(blockSize, start, buffer, block, done, write), now,
                       buffer + done * blockSize, (block + done) * blockSize, write);
    }
  }

  lemma UntouchedNothing(a: Store, b: Store, buffer: int, at: int, write: bool)
    ensures TornAt(a, b, buffer, at, 0, write) <==> a == b
  {
    if TornAt(a, b, buffer, at, 0, write) {
      assert a.mem == b.mem && a.disk == b.disk;
    }
  }

  /** Moving the first blocks of the rest, and tearing some after them, does so to the request. */
  lemma TornExtend(blockSize: nat, start: Store, buffer: nat, block: nat, count: nat, write: bool, done: nat,
                   now: Store, more: nat, torn: nat, later: Store)
    requires InRange(blockSize, start, buffer, block, count) && done + more <= count
    requires MovedPrefix(blockSize, start, buffer, block, done, write, now)
    requires MovedTorn(blockSize, now, buffer + done * blockSize, block + done, more, torn, write, later)
    ensures MovedTorn(blockSize, start, buffer, block, done + more, torn, write, later)
    ensures buffer + (done + more) * blockSize == (buffer + done * blockSize) + more * blockSize
  {
    hide Transferred, InRange, TornAt;
    var mid := Transferred(blockSize, now, buffer + done * blockSize, block + done, more, write);
    PrefixExtend(blockSize, start, buffer, block, count, write, done, now, more, mid);
    assert block + done + more == block + (done + more);
  }

  /** Reading back what was written, into any buffer, gives the bytes that were written. */
  lemma WriteThenRead(blockSize: nat, st: Store, from: nat, to: nat, block: nat, count: nat)
    requires InRange(blockSize, st, from, block, count) && InRange(blockSize, st, to, block, count)
    ensures from + count * blockSize <= |st.mem| && to + count * blockSize <= |st.mem|
    ensures InRange(blockSize, Transferred(blockSize, st, from, block, count, true), to, block, count)
    ensures var written := Transferred(blockSize, st, from, block, count, true);
            var back := Transferred(blockSize, written, to, block, count, false);
            && back.mem[to..to + count * blockSize] == st.mem[from..from + count * blockSize]
            && (from == to ==> back.mem == st.mem)
  {
    hide MoveBytes, InRange;
    TransferredIs(blockSize, st, from, block, count, true, block * blockSize, count * blockSize);
    var written := Transferred(blockSize, st, from, block, count, true);
    InRangeBySize(blockSize, st, written, to, block, count);
    TransferredIs(blockSize, written, to, block, count, false, block * blockSize, count * blockSize);
    hide Transferred;
    BytesReadBack(st, from, to, block * blockSize, count * blockSize);
  }

  lemma BytesReadBack(st: Store, from: nat, to: nat, at: nat, len: nat)
    requires from + len <= |st.mem| && to + len <= |st.mem| && at + len <= |st.disk|
    ensures var back := MoveBytes(MoveBytes(st, from, at, len, true), to, at, len, false);
            back.mem[to..to + len] == st.mem[from..from + len] && (from == to ==> back.mem == st.mem)
  {
    SpliceAt(st.disk, at, st.mem[from..from + len]);
    SpliceAt(st.mem, to, st.mem[from..from + len]);
  }

  /** A write touches no block outside its range and no memory; a read touches no block. */
  lemma TransferFrame(blockSize: nat, st: Store, buffer: nat, block: nat, count: nat, write: bool, i: nat, at: nat)
    requires InRange(blockSize, st, buffer, block, count)
    requires at == i * blockSize && at + blockSize <= |st.disk|
    requires !write || i < block || block + count <= i
    ensures Transferred(blockSize, st, buffer, block, count, write).disk[at..at + blockSize]
         == st.disk[at..at + blockSize]
    ensures write ==> Transferred(blockSize, st, buffer, block, count, write).mem == st.mem
  {
    hide MoveBytes;
    Distribute(block, count, blockSize);
    if write {
      Distribute(i, 1, blockSize);
      MulMonotone(i + 1, block, blockSize);
      MulMonotone(block + count, i, blockSize);
      BytesElsewhere(st, buffer, block * blockSize, count * blockSize, at, at + blockSize);
    } else {
      BytesRead(st, buffer, block * blockSize, count * blockSize);
    }
  }

  lemma BytesRead(st: Store, buffer: nat, at: nat, len: nat)
    requires buffer + len <= |st.mem| && at + len <= |st.disk|
    ensures MoveBytes(st, buffer, at, len, false).disk == st.disk
  {
  }

  lemma BytesElsewhere(st: Store, buffer: nat, at: nat, len: nat, lo: nat, hi: nat)
    requires buffer + len <= |st.mem| && at + len <= |st.disk| && lo <= hi <= |st.disk|
    requires hi <= at || at + len <= lo
    ensures MoveBytes(st, buffer, at, len, true).disk[lo..hi] == st.disk[lo..hi]
    ensures MoveBytes(st, buffer, at, len, true).mem == st.mem
  {
    SpliceElsewhere(st.disk, at, st.mem[buffer..buffer + len], lo, hi);
  }
}
