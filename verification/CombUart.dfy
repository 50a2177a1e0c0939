// The combined UART, drivers/comb_uart/tegrabl_comb_uart.c: bytes travel in 32-bit mailbox
// words of up to three, each handed over by the trigger bit and acknowledged by clearing it.
module CombUart {

  const TRIGGER: bv32 := 0x8000_0000
  const FLUSH: bv32 := 0x0400_0000
  const MAX_BYTES_IN_PACKET := 3
  const W32 := 0x1_0000_0000

  datatype Error = NoError | TimeoutEmpty | TimeoutAck | TimeoutRx | InvalidConfig

  predicate Triggered(w: bv32) {
    w & TRIGGER != 0
  }

  /** Bits 24 and 25: how many of the low bytes are data. */
  function NumChars(w: bv32): nat {
    if (w >> 24) & 3 == 0 then 0 else if (w >> 24) & 3 == 1 then 1 else if (w >> 24) & 3 == 2 then 2 else 3
  }

  function ByteAt(w: bv32, i: nat): bv8
    requires i < 4
  {
    if i == 0 then (w & 0xFF) as bv8
    else if i == 1 then ((w >> 8) & 0xFF) as bv8
    else if i == 2 then ((w >> 16) & 0xFF) as bv8
    else ((w >> 24) & 0xFF) as bv8
  }

  /** The data bytes of a word. */
  function Decode(w: bv32): (r: seq<bv8>)
    ensures |r| == NumChars(w) <= 3
  {
    seq(NumChars(w), i requires 0 <= i < NumChars(w) => ByteAt(w, i))
  }

  /** The word carrying one to three bytes. */
  function Encode(b: seq<bv8>, last: bool): bv32
    requires 0 < |b| <= 3
  {
    var h := Head(|b|, last);
    if |b| == 1 then h | (b[0] as bv32)
    else if |b| == 2 then h | (b[0] as bv32) | ((b[1] as bv32) << 8)
    else h | (b[0] as bv32) | ((b[1] as bv32) << 8) | ((b[2] as bv32) << 16)
  }

  // Bit facts, one shift or mask at a time, so that the solver never sees a whole word.

  lemma OrBytes(h: bv32, b0: bv8, b1: bv8, b2: bv8)
    requires h & 0x00FF_FFFF == 0
    ensures ((h | (b0 as bv32)) & 0xFF) as bv8 == b0
    ensures ((h | (b0 as bv32) | ((b1 as bv32) << 8)) & 0xFF) as bv8 == b0
    ensures ((h | (b0 as bv32) | ((b1 as bv32) << 8) | ((b2 as bv32) << 16)) & 0xFF) as bv8 == b0
  {
  }

  lemma OrBytesSecond(h: bv32, b0: bv8, b1: bv8, b2: bv8)
    requires h & 0x00FF_FFFF == 0
    ensures (((h | (b0 as bv32) | ((b1 as bv32) << 8)) >> 8) & 0xFF) as bv8 == b1
    ensures (((h | (b0 as bv32) | ((b1 as bv32) << 8) | ((b2 as bv32) << 16)) >> 8) & 0xFF) as bv8 == b1
  {
  }

  lemma OrBytesThird(h: bv32, b0: bv8, b1: bv8, b2: bv8)
    requires h & 0x00FF_FFFF == 0
    ensures (((h | (b0 as bv32) | ((b1 as bv32) << 8) | ((b2 as bv32) << 16)) >> 16) & 0xFF) as bv8 == b2
  {
  }

  lemma OrKeepsHead(h: bv32, d: bv32)
    requires d & 0xFF00_0000 == 0
    ensures ((h | d) >> 24) & 3 == (h >> 24) & 3
    ensures (h | d) & TRIGGER == h & TRIGGER && (h | d) & FLUSH == h & FLUSH
  {
  }

  lemma BytesAreLow(b0: bv8, b1: bv8, b2: bv8)
    ensures (b0 as bv32) & 0xFF00_0000 == 0 && ((b1 as bv32) << 8) & 0xFF00_0000 == 0
    ensures ((b2 as bv32) << 16) & 0xFF00_0000 == 0
  {
  }

  function Count(n: nat): bv32 {
    if n == 1 then 0x0100_0000 else if n == 2 then 0x0200_0000 else 0x0300_0000
  }

  function Head(n: nat, last: bool): bv32 {
    TRIGGER | (if last then FLUSH else 0) | Count(n)
  }

  lemma HeadFields(n: nat, last: bool)
    requires 0 < n <= 3
    ensures Triggered(Head(n, last)) && NumChars(Head(n, last)) == n && (Head(n, last) & FLUSH != 0) == last
    ensures Head(n, last) & 0x00FF_FFFF == 0
  {
  }

  lemma EncodeHead(b: seq<bv8>, last: bool)
    requires 0 < |b| <= 3
    ensures Triggered(Encode(b, last)) && NumChars(Encode(b, last)) == |b| && (Encode(b, last) & FLUSH != 0) == last
  {
    var h := Head(|b|, last);
    HeadFields(|b|, last);
    var b0 := b[0];
    var b1 := if |b| > 1 then b[1] else 0;
    var b2 := if |b| > 2 then b[2] else 0;
    BytesAreLow(b0, b1, b2);
    OrKeepsHead(h, b0 as bv32);
    OrKeepsHead(h | (b0 as bv32), (b1 as bv32) << 8);
    OrKeepsHead(h | (b0 as bv32) | ((b1 as bv32) << 8), (b2 as bv32) << 16);
    hide Head;
  }

  lemma EncodeByte(b: seq<bv8>, last: bool, i: nat)
    requires i < |b| <= 3
    ensures ByteAt(Encode(b, last), i) == b[i]
  {
    HeadFields(|b|, last);
    var h := Head(|b|, last);
    hide Head;
    var b0 := b[0];
    var b1 := if |b| > 1 then b[1] else 0;
    var b2 := if |b| > 2 then b[2] else 0;
    if i == 0 {
      OrBytes(h, b0, b1, b2);
    } else if i == 1 {
      OrBytesSecond(h, b0, b1, b2);
    } else {
      OrBytesThird(h, b0, b1, b2);
    }
  }

  /** A word decodes to the bytes it was made of, and its flush bit says whether it is the last. */
  lemma DecodeEncode(b: seq<bv8>, last: bool)
    requires 0 < |b| <= 3
    ensures Triggered(Encode(b, last)) && Decode(Encode(b, last)) == b
    ensures (Encode(b, last) & FLUSH != 0) == last
  {
    hide *;
    EncodeHead(b, last);
    forall i | 0 <= i < |b|
      ensures ByteAt(Encode(b, last), i) == b[i]
    {
      EncodeByte(b, last, i);
    }
    DecodeIs(Encode(b, last), b);
  }

  /** Words in digits: trigger in bit 31, flush in bit 26, the count from bit 24 on. */
  lemma WordsInDigits()
    ensures Encode([0x41], true) == 0x8500_0041 && Encode([0x41], false) == 0x8100_0041
    ensures Encode([0x41, 0x42, 0x43], false) == 0x8343_4241 && Encode([0x41, 0x42], true) == 0x8600_4241
  {
  }

  lemma DecodeIs(w: bv32, b: seq<bv8>)
    requires NumChars(w) == |b| <= 3
    requires forall i :: 0 <= i < |b| ==> ByteAt(w, i) == b[i]
    ensures Decode(w) == b
  {
    hide NumChars, ByteAt;
  }

  lemma ClearTop(w: bv32)
    ensures (w & !TRIGGER) & TRIGGER == 0
    ensures ((w & !TRIGGER) >> 24) & 3 == (w >> 24) & 3
    ensures (w & !TRIGGER) & 0xFF == w & 0xFF
    ensures ((w & !TRIGGER) >> 8) & 0xFF == (w >> 8) & 0xFF
    ensures ((w & !TRIGGER) >> 16) & 0xFF == (w >> 16) & 0xFF
  {
  }

  /** Acknowledging clears the trigger bit and leaves the data. */
  lemma AckClears(w: bv32)
    ensures !Triggered(w & !TRIGGER) && Decode(w & !TRIGGER) == Decode(w)
  {
    ClearTop(w);
    assert NumChars(w & !TRIGGER) == NumChars(w);
    forall i | 0 <= i < NumChars(w)
      ensures ByteAt(w & !TRIGGER, i) == ByteAt(w, i)
    {
    }
    DecodeIs(w & !TRIGGER, Decode(w));
  }

  /** The words a buffer is sent as: three bytes each, the flush bit on the last. */
  function Packets(b: seq<bv8>): seq<bv32> {
    if b == [] then []
    else if |b| <= 3 then [Encode(b, true)]
    else [Encode(b[..3], false)] + Packets(b[3..])
  }

  function DecodeAll(ws: seq<bv32>): seq<bv8> {
    if ws == [] then [] else Decode(ws[0]) + DecodeAll(ws[1..])
  }

  /** Decoding the words of a buffer gives the buffer back, whatever its length. */
  lemma {:induction false} PacketsDecode(b: seq<bv8>)
    ensures DecodeAll(Packets(b)) == b
    ensures |Packets(b)| == (|b| + 2) / 3
  {
    if b != [] {
      if |b| <= 3 {
        DecodeEncode(b, true);
        assert [Encode(b, true)][1..] == [];
      } else {
        DecodeEncode(b[..3], false);
        PacketsDecode(b[3..]);
        assert ([Encode(b[..3], false)] + Packets(b[3..]))[1..] == Packets(b[3..]);
        assert b[..3] + b[3..] == b;
      }
    }
  }

  lemma NextPacket(s: seq<bv8>, from: nat, count: nat)
    requires from + count <= |s| && count == (if |s| - from > 3 then 3 else |s| - from) && count > 0
    ensures Packets(s[from..])
         == [Encode(s[from..from + count], from + count == |s|)] + Packets(s[from + count..])
  {
    hide Encode;
    var rest := s[from..];
    assert rest[..count] == s[from..from + count] && rest[count..] == s[from + count..];
    if count == |rest| {
      assert rest[..count] == rest;
    }
  }

  // ------------------------------------------------------------ both ends of a mailbox

  /** Where the receiving end stands: polling, holding a word it has read, or about to write that
      word back with its trigger bit cleared. */
  datatype Receiver = Idle | Seen(w: bv32) | Copied(w: bv32)

  /** One mailbox register and its two ends. clear: the last poll of the sender found the trigger
      bit clear. data: all bytes handed over so far. len, buf, dropped: the receiver's current
      call, the length it asked for, the bytes it has stored and those it dropped; taken: what its
      earlier calls used up. */
  datatype Channel = Channel(word: bv32, clear: bool, data: seq<bv8>, rx: Receiver, len: nat,
                             buf: seq<bv8>, dropped: seq<bv8>, taken: seq<bv8>)

  /** How many bytes a call stores before its 32-bit index, stepped after each byte, equals the
      length: with length zero, the index first has to come round. */
  function Room(len: nat): nat {
    if len == 0 then W32 else len
  }

  const SILENT := Channel(0, false, [], Idle, 0, [], [], [])

  /** Single register accesses of either end, in any order. */
  datatype Event =
    | TxPoll
    | TxWrite(b: seq<bv8>, last: bool)
    | RxCall(len: nat)
    | RxPoll
    | RxForget
    | RxCopy
    | RxAck

  predicate Enabled(c: Channel, e: Event) {
    match e
    case TxPoll => true
    case TxWrite(b, _) => c.clear && 0 < |b| <= MAX_BYTES_IN_PACKET
    case RxCall(n) => c.rx == Idle && n < W32
    case RxPoll => c.rx == Idle && |c.buf| < Room(c.len) && Triggered(c.word)
    case RxForget => c.rx.Seen?
    case RxCopy => c.rx.Seen? && NumChars(c.rx.w) != 0 && |c.buf| < Room(c.len)
    case RxAck => c.rx.Copied?
  }

  /** How many bytes of the word it holds the receiver has room for. */
  function Kept(c: Channel): nat
    requires c.rx != Idle
  {
    var room := Room(c.len);
    if |c.buf| + NumChars(c.rx.w) < room then NumChars(c.rx.w) else if |c.buf| < room then room - |c.buf| else 0
  }

  function Step(c: Channel, e: Event): Channel
    requires Enabled(c, e)
  {
    match e
    case TxPoll => c.(clear := !Triggered(c.word))
    case TxWrite(b, last) => c.(word := Encode(b, last), data := c.data + b, clear := false)
    case RxCall(n) => c.(taken := c.taken + c.buf + c.dropped, buf := [], dropped := [], len := n)
    case RxPoll => c.(rx := Seen(c.word))
    case RxForget => c.(rx := Idle)
    case RxCopy =>
      c.(buf := c.buf + Decode(c.rx.w)[..Kept(c)], dropped := Decode(c.rx.w)[Kept(c)..], rx := Copied(c.rx.w))
    case RxAck => c.(word := c.rx.w & !TRIGGER, rx := Idle)
  }

  /** Bytes in the mailbox that the receiver has not copied. */
  function Pending(c: Channel): seq<bv8> {
    if Triggered(c.word) && !c.rx.Copied? then Decode(c.word) else []
  }

  /** A clear mailbox stays clear until written; a word the receiver holds is still the triggered
      word of the mailbox; every byte handed over is in exactly one place. */
  predicate Inv(c: Channel) {
    && (c.clear ==> !Triggered(c.word))
    && (c.rx != Idle ==> c.rx.w == c.word && Triggered(c.word))
    && c.taken + c.buf + c.dropped + Pending(c) == c.data
    && |c.buf| <= Room(c.len) && |c.dropped| <= 2
    && (c.dropped != [] ==> |c.buf| == Room(c.len))
  }

  lemma StepInv(c: Channel, e: Event)
    requires Inv(c) && Enabled(c, e)
    ensures Inv(Step(c, e))
  {
    hide Decode, Encode, Triggered, NumChars;
    match e
    case TxPoll =>
    case TxWrite(b, last) => DecodeEncode(b, last);
    case RxCall(n) =>
    case RxPoll =>
    case RxForget =>
    case RxCopy => CopyInv(c);
    case RxAck => AckClears(c.rx.w);
  }

  lemma CopyInv(c: Channel)
    requires Inv(c) && Enabled(c, RxCopy)
    ensures Inv(Step(c, RxCopy))
  {
    hide Triggered, Decode, NumChars;
    var d, k := Decode(c.rx.w), Kept(c);
    assert c.dropped == [];
    Divide(c.taken + c.buf, d, k);
    assert c.taken + c.buf + c.dropped == c.taken + c.buf;
    assert c.taken + (c.buf + d[..k]) == c.taken + c.buf + d[..k];
    assert c.taken + c.buf + d[..k] + d[k..] + [] == c.taken + c.buf + d[..k] + d[k..];
  }

  lemma Divide(front: seq<bv8>, d: seq<bv8>, k: nat)
    requires k <= |d|
    ensures front + d[..k] + d[k..] == front + d
  {
    assert d == d[..k] + d[k..];
  }

  /** While the sender knows the mailbox clear, the receiver does not change it. */
  lemma ClearWord(c: Channel, e: Event)
    requires Inv(c) && Enabled(c, e) && !e.TxPoll? && !e.TxWrite?
    ensures var d := Step(c, e); d.data == c.data && d.clear == c.clear && (c.clear ==> d.word == c.word)
  {
    hide Decode, Triggered;
  }

  /** What the sender's steps leave as it was: the receiver, and the word it holds. */
  predicate Undisturbed(was: Channel, c: Channel) {
    && c.rx == was.rx && c.len == was.len && c.buf == was.buf && c.dropped == was.dropped && c.taken == was.taken
    && (c.rx != Idle ==> c.word == was.word)
  }

  lemma HeldWord(c: Channel, e: Event)
    requires Inv(c) && Enabled(c, e) && (e.TxPoll? || e.TxWrite?)
    ensures Undisturbed(c, Step(c, e))
  {
    hide Decode, Encode, Triggered;
  }

  lemma NothingPending(c: Channel)
    requires Inv(c) && !Triggered(c.word)
    ensures c.taken + c.buf + c.dropped == c.data
  {
    hide Triggered, Decode;
    assert c.taken + c.buf + c.dropped + [] == c.taken + c.buf + c.dropped;
  }

  lemma InOrder(c: Channel)
    requires Inv(c)
    ensures c.taken + c.buf + c.dropped <= c.data && |c.dropped| <= 2
  {
    hide Triggered, Decode;
    assert c.data[..|c.taken + c.buf + c.dropped|] == c.taken + c.buf + c.dropped;
  }

  predicate Legal(c: Channel, es: seq<Event>)
    decreases |es|
  {
    es == [] || (Enabled(c, es[0]) && Legal(Step(c, es[0]), es[1..]))
  }

  function Run(c: Channel, es: seq<Event>): Channel
    requires Legal(c, es)
    decreases |es|
  {
    if es == [] then c else Run(Step(c, es[0]), es[1..])
  }

  lemma {:induction false} RunInv(c: Channel, es: seq<Event>)
    requires Inv(c) && Legal(c, es)
    ensures Inv(Run(c, es))
    decreases |es|
  {
    hide Inv, Enabled, Step;
    if es != [] {
      StepInv(c, es[0]);
      RunInv(Step(c, es[0]), es[1..]);
    }
  }

  /** Under every interleaving of the two ends: the sender only ever replaces a word that has been
      acknowledged and that nobody holds; what the receiver acknowledges is the word it copied;
      what its calls used up, the bytes of the current one, and the at most two it dropped at
      its end are the bytes handed over, in order, each once. */
  lemma EveryInterleaving(es: seq<Event>)
    requires Legal(SILENT, es)
    ensures var c := Run(SILENT, es);
            && (forall b, last :: Enabled(c, TxWrite(b, last)) ==> !Triggered(c.word) && c.rx == Idle)
            && (c.rx.Copied? ==> c.rx.w == c.word)
            && c.taken + c.buf + c.dropped <= c.data && |c.dropped| <= 2
            && (|c.buf| < Room(c.len) ==> c.taken + c.buf <= c.data)
  {
    assert !Triggered(0);
    RunInv(SILENT, es);
    var c := Run(SILENT, es);
    hide Decode, Run, Legal, Triggered;
    assert c.data[..|c.taken + c.buf + c.dropped|] == c.taken + c.buf + c.dropped;
  }

  /** A receiver whose first call has room for everything gets what was sent, and nothing else;
      all of it once the mailbox is empty. */
  lemma ReceivedIsSent(c: Channel)
    requires Inv(c) && c.taken == [] && |c.data| < Room(c.len)
    ensures c.dropped == [] && c.buf <= c.data
    ensures !Triggered(c.word) ==> c.buf == c.data
  {
    hide Decode, Triggered;
    assert |c.buf| < Room(c.len);
    assert c.data[..|c.buf|] == c.buf;
  }

  /** No run of the two ends makes a call that asked for len bytes store more of them: that holds
      if and only if len is not zero. */
  lemma StaysInsideIff(len: nat)
    requires len < W32
    ensures 0 < len <==> forall es :: Legal(SILENT, es) && Run(SILENT, es).len == len ==> |Run(SILENT, es).buf| <= len
  {
    hide Legal, Run, Inv;
    if 0 < len {
      forall es | Legal(SILENT, es) && Run(SILENT, es).len == len
        ensures |Run(SILENT, es).buf| <= len
      {
        SilentInv();
        RunInv(SILENT, es);
        StoredFits(Run(SILENT, es));
      }
    } else {
      var es := PastTheBuffer(0x41);
    }
  }

  lemma NotTriggered()
    ensures !Triggered(0)
  {
  }

  lemma SilentInv()
    ensures Inv(SILENT)
  {
    NotTriggered();
  }

  lemma StoredFits(c: Channel)
    requires Inv(c)
    ensures |c.buf| <= Room(c.len)
  {
    hide Triggered, Decode;
  }

  /** A call of length zero, and one word with one byte in the mailbox: the byte is stored, and the
      call goes on. */
  lemma PastTheBuffer(b: bv8) returns (es: seq<Event>)
    ensures Legal(SILENT, es)
    ensures var c := Run(SILENT, es); c.len == 0 && c.buf == [b] && c.dropped == [] && |c.buf| < Room(c.len)
  {
    hide Encode, Decode, Triggered, NumChars;
    DecodeEncode([b], true);
    EncodeHead([b], true);
    NotTriggered();
    var c1 := SILENT.(clear := true);
    var c2 := c1.(word := Encode([b], true), data := [b], clear := false);
    var c3 := c2.(rx := Seen(c2.word));
    var c4 := Step(c3, RxCopy);
    OneStep(c3, RxCopy, []);
    OneStep(c2, RxPoll, [RxCopy]);
    OneStep(c2, RxCall(0), [RxPoll, RxCopy]);
    OneStep(c1, TxWrite([b], true), [RxCall(0), RxPoll, RxCopy]);
    OneStep(SILENT, TxPoll, [TxWrite([b], true), RxCall(0), RxPoll, RxCopy]);
    es := [TxPoll, TxWrite([b], true), RxCall(0), RxPoll, RxCopy];
  }

  lemma OneStep(c: Channel, e: Event, es: seq<Event>)
    requires Enabled(c, e) && Legal(Step(c, e), es)
    ensures Legal(c, [e] + es) && Run(c, [e] + es) == Run(Step(c, e), es)
  {
    assert ([e] + es)[1..] == es;
  }

  // ------------------------------------------------------------ the driver at either end

  class Mailbox {
    var ch: Channel
    ghost var written: seq<bv32>

    constructor ()
      ensures ch == SILENT && Inv(ch) && written == []
    {
      ch := SILENT;
      written := [];
      assert !Triggered(0);
    }

    // -------------------------------------------------------------- transmit

    /** Any number of steps of the receiver at the other end, in as many calls as it likes. */
    method ReceiverRuns()
      requires Inv(ch)
      modifies this`ch
      ensures Inv(ch) && ch.data == old(ch).data && ch.clear == old(ch).clear
      ensures ch.clear ==> ch.word == old(ch).word
    {
      hide Inv, NumChars, Triggered, Decode;
      var steps: nat := *;
      while steps > 0
        invariant Inv(ch) && ch.data == old(ch).data && ch.clear == old(ch).clear
        invariant ch.clear ==> ch.word == old(ch).word
      {
        var e: Event := *;
        if !e.TxPoll? && !e.TxWrite? && Enabled(ch, e) {
          StepInv(ch, e);
          ClearWord(ch, e);
          ch := Step(ch, e);
        }
        steps := steps - 1;
      }
    }

    /** comb_uart_wait_tx_empty and comb_uart_wait_tx_ack: poll the trigger bit. */
    method WaitTxClear() returns (clear: bool)
      requires Inv(ch)
      modifies this`ch
      ensures Inv(ch) && ch.data == old(ch).data
      ensures (clear <==> ch.clear) && (clear <==> !Triggered(ch.word))
    {
      hide Decode, Triggered;
      var ticks: nat := *;
      while true
        invariant Inv(ch) && ch.data == old(ch).data
        decreases ticks
      {
        ReceiverRuns();
        StepInv(ch, TxPoll);
        ch := Step(ch, TxPoll);
        if ch.clear {
          return true;
        }
        if ticks == 0 {
          return false;
        }
        ticks := ticks - 1;
      }
    }

    /** Write a word into a mailbox last found clear. */
    method WriteTx(w: bv32, ghost b: seq<bv8>, ghost last: bool)
      requires Inv(ch) && ch.clear && 0 < |b| <= MAX_BYTES_IN_PACKET && w == Encode(b, last)
      modifies this`ch, this`written
      ensures Inv(ch) && ch.data == old(ch).data + b && written == old(written) + [w]
    {
      hide Encode, Decode, Triggered, NumChars, Inv;
      StepInv(ch, TxWrite(b, last));
      DecodeEncode(b, last);
      ch := ch.(word := w, data := ch.data + Decode(w), clear := false);
      written := written + [w];
    }

    /** Build one word byte by byte. */
    method BuildWord(s: seq<bv8>, from: nat, count: nat, last: bool) returns (w: bv32)
      requires from + count <= |s| && 0 < count <= MAX_BYTES_IN_PACKET
      ensures w == Encode(s[from..from + count], last)
    {
      w := TRIGGER;
      if last {
        w := w | FLUSH;
      }
      w := w | Count(count);
      var j := 0;
      while j < count
        invariant 0 <= j <= count
        invariant j == 0 ==> w == Head(count, last)
        invariant j == 1 ==> w == Head(count, last) | (s[from] as bv32)
        invariant j == 2 ==> w == Head(count, last) | (s[from] as bv32) | ((s[from + 1] as bv32) << 8)
        invariant j == 3 ==> w == Head(count, last) | (s[from] as bv32)
                                  | ((s[from + 1] as bv32) << 8) | ((s[from + 2] as bv32) << 16)
      {
        var byte := s[from + j] as bv32;
        w := w | if j == 0 then byte else if j == 1 then byte << 8 else byte << 16;
        j := j + 1;
      }
    }

    /** tegrabl_comb_uart_tx: on success the receiver has acknowledged the whole buffer, sent in
        the words of Packets; after a timeout a prefix of it has been handed over, of which the
        last word may still be unread. */
    method Tx(s: seq<bv8>) returns (err: Error, ghost handed: nat)
      requires Inv(ch)
      modifies this`ch, this`written
      ensures Inv(ch) && handed <= |s| && ch.data == old(ch).data + s[..handed]
      ensures err == NoError ==> handed == |s| && written == old(written) + Packets(s)
      ensures err == NoError && s != [] ==> !Triggered(ch.word) && ch.taken + ch.buf + ch.dropped == ch.data
      ensures err in {NoError, TimeoutEmpty, TimeoutAck} && (err != NoError ==> Triggered(ch.word))
      ensures old(written) <= written && written + Packets(s[handed..]) == old(written) + Packets(s)
    {
      hide Triggered, Decode, Packets, Inv;
      handed := 0;
      err := NoError;
      if |s| == 0 {
        PacketsDecode(s);
        return;
      }
      var numPackets := |s| / MAX_BYTES_IN_PACKET;
      var lastBytes := MAX_BYTES_IN_PACKET;
      if |s| % MAX_BYTES_IN_PACKET != 0 {
        lastBytes := |s| % MAX_BYTES_IN_PACKET;
        numPackets := numPackets + 1;
      }
      var i := 0;
      while i < numPackets
        invariant 0 <= i <= numPackets && err == NoError && Inv(ch)
        invariant handed == (if i == numPackets then |s| else i * MAX_BYTES_IN_PACKET) <= |s|
        invariant ch.data == old(ch).data + s[..handed] && (i > 0 ==> !Triggered(ch.word))
        invariant old(written) <= written && written + Packets(s[handed..]) == old(written) + Packets(s)
      {
        var count := if i == numPackets - 1 then lastBytes else MAX_BYTES_IN_PACKET;
        err := TxPacket(s, i * MAX_BYTES_IN_PACKET, count, i == numPackets - 1, old(ch).data, old(written));
        if err == TimeoutEmpty {
          return err, handed;
        }
        handed := handed + count;
        if err == TimeoutAck {
          return err, handed;
        }
        i := i + 1;
      }
      assert s[..|s|] == s && s[|s|..] == [];
      PacketsDecode(s[|s|..]);
      NothingPending(ch);
    }

    /** One packet of tegrabl_comb_uart_tx, which started with `sent` and `before`. */
    method TxPacket(s: seq<bv8>, from: nat, count: nat, last: bool, ghost sent: seq<bv8>, ghost before: seq<bv32>)
      returns (err: Error)
      requires from + count <= |s| && count == (if |s| - from > 3 then 3 else |s| - from) && count > 0
      requires Inv(ch) && last == (from + count == |s|) && ch.data == sent + s[..from]
      requires before <= written && written + Packets(s[from..]) == before + Packets(s)
      modifies this`ch, this`written
      ensures Inv(ch) && err in {NoError, TimeoutEmpty, TimeoutAck} && before <= written
      ensures err == TimeoutEmpty ==> ch.data == sent + s[..from] && written == old(written)
      ensures err != TimeoutEmpty ==>
                ch.data == sent + s[..from + count] && written + Packets(s[from + count..]) == before + Packets(s)
      ensures err == NoError <==> !Triggered(ch.word)
    {
      hide Triggered, Decode, Encode, Packets, Inv;
      var w := BuildWord(s, from, count, last);
      var clear := WaitTxClear();
      if !clear {
        return TimeoutEmpty;
      }
      ReceiverRuns();
      assert s[..from] + s[from..from + count] == s[..from + count];
      NextPacket(s, from, count);
      WriteTx(w, s[from..from + count], last);
      clear := WaitTxClear();
      err := if clear then NoError else TimeoutAck;
    }

    // -------------------------------------------------------------- receive

    /** Any number of steps of the sender at the other end. */
    method SenderRuns()
      requires Inv(ch)
      modifies this`ch
      ensures Inv(ch) && Undisturbed(old(ch), ch)
    {
      hide Inv, NumChars, Triggered, Decode, Encode;
      var steps: nat := *;
      while steps > 0
        invariant Inv(ch) && Undisturbed(old(ch), ch)
      {
        var e: Event := *;
        if (e.TxPoll? || e.TxWrite?) && Enabled(ch, e) {
          StepInv(ch, e);
          HeldWord(ch, e);
          ch := Step(ch, e);
        }
        steps := steps - 1;
      }
    }

    /** tegrabl_comb_uart_rx: the buffer receives the bytes handed over after those of earlier
        calls; a request that ends inside a word drops the rest of it, at most two bytes; an
        error drops nothing. rxBuf is the memory from the buffer on, len bytes of which are the
        buffer. A request of length zero stores whatever comes behind it. */
    method Rx(rxBuf: array<bv8>, len: nat) returns (err: Error, received: nat, ghost stored: nat)
      requires len < W32 && Room(len) <= rxBuf.Length && Inv(ch) && ch.rx == Idle
      modifies this`ch, rxBuf
      ensures Inv(ch) && ch.rx == Idle && ch.taken == old(ch.taken + ch.buf + ch.dropped)
      ensures stored <= Room(len) && rxBuf[..stored] == ch.buf && rxBuf[stored..] == old(rxBuf[stored..])
      ensures received == stored % W32
      ensures 0 < len ==> received == stored <= len
      ensures ch.taken + rxBuf[..stored] + ch.dropped <= ch.data && |ch.dropped| <= 2
      ensures err != NoError ==> ch.dropped == []
      ensures err == NoError <==> stored == Room(len)
      ensures err in {NoError, TimeoutRx, InvalidConfig}
    {
      hide Inv, Triggered, Decode, NumChars, Kept;
      StepInv(ch, RxCall(len));
      ch := Step(ch, RxCall(len));
      received, stored := 0, 0;
      ghost var was := rxBuf[..];
      var ticks: nat := *;
      while true
        invariant received == stored < Room(len) && Receiving(ch, old(ch), len, rxBuf[..stored]) && ch.dropped == []
        invariant rxBuf[stored..] == was[stored..]
        decreases Room(len) - stored
      {
        var w, seen;
        w, seen, ticks := PollRx(ticks);
        if !seen {
          InOrder(ch);
          return TimeoutRx, received, stored;
        }
        if NumChars(w) == 0 {
          StepInv(ch, RxForget);
          ch := Step(ch, RxForget);
          InOrder(ch);
          return InvalidConfig, received, stored;
        }
        var done;
        received, done, stored := TakeWord(rxBuf, len, received, w, old(ch), was);
        if done {
          InOrder(ch);
          return NoError, received, stored;
        }
        var late: bool := *;
        if late {
          InOrder(ch);
          return TimeoutRx, received, stored;
        }
      }
    }

    /** In a call that began at was and has stored bytes so far. */
    ghost predicate Receiving(c: Channel, was: Channel, len: nat, bytes: seq<bv8>) {
      && Inv(c) && c.rx == Idle && c.len == len && c.buf == bytes
      && c.taken == was.taken + was.buf + was.dropped
    }

    /** Poll for a triggered word; the clock is read after every poll. */
    method PollRx(budget: nat) returns (w: bv32, seen: bool, ticks: nat)
      requires Inv(ch) && ch.rx == Idle && |ch.buf| < Room(ch.len)
      modifies this`ch
      ensures Inv(ch) && ch == old(ch).(word := ch.word, clear := ch.clear, data := ch.data, rx := ch.rx)
      ensures ch.rx == if seen then Seen(w) else Idle
    {
      hide Inv, Triggered, Decode, NumChars;
      ticks := budget;
      while true
        invariant Inv(ch) && ch == old(ch).(word := ch.word, clear := ch.clear, data := ch.data)
        decreases ticks
      {
        SenderRuns();
        w := ch.word;
        if ticks == 0 {
          return w, false, ticks;
        }
        ticks := ticks - 1;
        if Triggered(w) {
          StepInv(ch, RxPoll);
          ch := Step(ch, RxPoll);
          return w, true, ticks;
        }
      }
    }

    /** Store the bytes of the word seen, then acknowledge it by writing it back without its
        trigger bit. The sender goes on running in between. */
    method TakeWord(rxBuf: array<bv8>, len: nat, from: nat, w: bv32, ghost before: Channel, ghost was: seq<bv8>)
      returns (j: nat, done: bool, ghost stored: nat)
      requires Inv(ch) && ch.rx == Seen(w) && ch.len == len < W32 && NumChars(w) > 0
      requires from < Room(len) <= rxBuf.Length == |was| && rxBuf[..from] == ch.buf && rxBuf[from..] == was[from..]
      requires ch.taken == before.taken + before.buf + before.dropped
      modifies this`ch, rxBuf
      ensures from < stored <= Room(len) && rxBuf[stored..] == was[stored..]
      ensures Receiving(ch, before, len, rxBuf[..stored])
      ensures j == stored % W32 && (done <==> stored == Room(len)) && (!done ==> ch.dropped == [])
    {
      hide Inv, Triggered, Decode, NumChars, Step, Enabled, Kept, Room;
      SenderRuns();
      ghost var mid := rxBuf[..];
      j, done, stored := TakeBytes(rxBuf, len, from, w);
      SameTail(rxBuf[..], mid, was, from, stored);
      Copying(ch);
      ch := Step(ch, RxCopy);
      SenderRuns();
      Acknowledging(ch);
      ch := Step(ch, RxAck);
    }

    lemma Copying(c: Channel)
      requires Inv(c) && c.rx.Seen? && NumChars(c.rx.w) > 0 && |c.buf| < Room(c.len)
      ensures Enabled(c, RxCopy) && Inv(Step(c, RxCopy))
      ensures var d, n := Step(c, RxCopy), |c.buf| + NumChars(c.rx.w);
              && d.rx == Copied(c.rx.w) && d.len == c.len && d.taken == c.taken
              && d.buf == c.buf + Decode(c.rx.w)[..(if n < Room(c.len) then n else Room(c.len)) - |c.buf|]
              && (n < Room(c.len) ==> d.dropped == [])
    {
      hide Inv, Triggered, Decode, NumChars;
      StepInv(c, RxCopy);
      AllKept(c);
    }

    lemma Acknowledging(c: Channel)
      requires Inv(c) && c.rx.Copied?
      ensures Enabled(c, RxAck) && Inv(Step(c, RxAck)) && Step(c, RxAck).rx == Idle
      ensures Undisturbed(c.(rx := Idle), Step(c, RxAck))
    {
      hide Inv, Triggered, Decode, NumChars;
      StepInv(c, RxAck);
    }

    lemma SameTail(now: seq<bv8>, mid: seq<bv8>, was: seq<bv8>, from: nat, to: nat)
      requires from <= to <= |now| == |mid| == |was| && now[to..] == mid[to..] && mid[from..] == was[from..]
      ensures now[to..] == was[to..]
    {
      assert mid[to..] == mid[from..][to - from..] && was[to..] == was[from..][to - from..];
    }

    /** A word that does not fill the buffer is stored whole. */
    lemma AllKept(c: Channel)
      requires c.rx != Idle && |c.buf| < Room(c.len)
      ensures |c.buf| + Kept(c) < Room(c.len) ==> Decode(c.rx.w)[Kept(c)..] == []
    {
      hide NumChars, ByteAt;
    }

    /** The first i bytes of the word are in place, and nothing else has changed. */
    ghost predicate InPlace(was: seq<bv8>, now: seq<bv8>, from: nat, i: nat, w: bv32) {
      && i <= NumChars(w) && from + i <= |now| == |was|
      && now[..from + i] == was[..from] + Decode(w)[..i] && now[from + i..] == was[from + i..]
    }

    lemma OneByteMore(was: seq<bv8>, now: seq<bv8>, from: nat, i: nat, w: bv32)
      requires i < NumChars(w) && InPlace(was, now, from, i, w) && from + i < |was|
      ensures InPlace(was, now[from + i := ByteAt(w, i)], from, i + 1, w)
    {
      hide NumChars, ByteAt;
      var next := now[from + i := ByteAt(w, i)];
      assert Decode(w)[..i + 1] == Decode(w)[..i] + [ByteAt(w, i)];
      assert next[..from + i + 1] == now[..from + i] + [ByteAt(w, i)];
      assert next[from + i + 1..] == now[from + i..][1..] && was[from + i + 1..] == was[from + i..][1..];
    }

    /** The loop over the bytes of a word: the length is looked at after a byte has been stored. */
    method TakeBytes(rxBuf: array<bv8>, len: nat, from: nat, w: bv32) returns (j: nat, done: bool, ghost stored: nat)
      requires len < W32 && from < Room(len) <= rxBuf.Length
      modifies rxBuf
      ensures (done <==> stored == Room(len)) && j == stored % W32
      ensures stored == if from + NumChars(w) < Room(len) then from + NumChars(w) else Room(len)
      ensures rxBuf[..stored] == old(rxBuf[..from]) + Decode(w)[..stored - from]
      ensures rxBuf[stored..] == old(rxBuf[stored..])
    {
      hide NumChars, ByteAt, Decode, InPlace;
      ghost var was := rxBuf[..];
      j, stored := from, from;
      var i := 0;
      NothingStored(was, from, w);
      while i < NumChars(w)
        invariant 0 <= i <= NumChars(w) && j == stored == from + i < Room(len)
        invariant InPlace(was, rxBuf[..], from, i, w)
      {
        OneByteMore(was, rxBuf[..], from, i, w);
        rxBuf[j] := ByteAt(w, i);
        j, stored := (j + 1) % W32, stored + 1;
        i := i + 1;
        if j == len {
          PlacedIs(was, rxBuf[..], from, i, w);
          return j, true, stored;
        }
      }
      PlacedIs(was, rxBuf[..], from, i, w);
      done := false;
    }

    lemma NothingStored(was: seq<bv8>, from: nat, w: bv32)
      requires from <= |was|
      ensures InPlace(was, was, from, 0, w) && NumChars(w) <= 3
    {
    }

    lemma PlacedIs(was: seq<bv8>, now: seq<bv8>, from: nat, i: nat, w: bv32)
      requires InPlace(was, now, from, i, w)
      ensures i <= NumChars(w) && from + i <= |now| == |was|
      ensures now[..from + i] == was[..from] + Decode(w)[..i] && now[from + i..] == was[from + i..]
    {
    }

    /** With length zero the first byte of a word goes to the first byte behind the buffer, and
        the index that would end the call is past. */
    method FirstByteOutside(rxBuf: array<bv8>, b: bv8) returns (j: nat, done: bool)
      requires W32 <= rxBuf.Length
      modifies rxBuf
      ensures rxBuf[0] == b && j == 1 && !done
    {
      DecodeEncode([b], true);
      EncodeHead([b], true);
      hide NumChars, Decode, Encode, Triggered;
      ghost var stored;
      j, done, stored := TakeBytes(rxBuf, 0, 0, Encode([b], true));
      assert rxBuf[0] == rxBuf[..stored][0];
    }
  }
}
