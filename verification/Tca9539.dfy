// The TCA9539 port expander, drivers/gpio/tca9539_gpio.c: pins are changed by writing whole
// port registers from a cache, so the cache has to stay what the chip holds.
module Tca9539 {
  import opened Options

  const BANK_NUM := 2
  const BANK_SIZE := 8
  const GPIO_MAX := 16
  const REGISTERS := 8

  datatype Error = NoError | Invalid | BadParameter | BusError

  datatype Mode = Input | Output | OtherMode

  /** How a register write ended: acknowledged, stored although an error was reported, or not
      stored at all. */
  datatype Outcome = Acknowledged | LostAck | NotStored

  /** Pin of a port and the value an unacknowledged write gave it. */
  datatype Torn = Torn(pin: nat, on: bool)

  /** One port: its register on the chip, the driver's cached byte, and the last write to reach
      the register if that write reported an error. */
  datatype Side = Side(chip: bv8, cache: bv8, torn: Option<Torn>)

  datatype Access = Access(pin: nat, on: bool, outcome: Outcome)

  // Command register indices; each names a pair of port registers.
  const OUTPUT := 1
  const POLAR := 2
  const CONFIG := 3

  /** The port register of command `index` that pin `p` belongs to. */
  function Port(index: nat, p: nat): (r: nat)
    requires index < 4 && p < GPIO_MAX
    ensures r < REGISTERS
  {
    index * BANK_NUM + p / BANK_SIZE
  }

  function Mask(i: nat): bv8 {
    if i == 0 then 1 else Mask(i - 1) << 1
  }

  predicate Bit(v: bv8, i: nat) {
    v & Mask(i) != 0
  }

  function WithBit(v: bv8, i: nat, on: bool): bv8 {
    if on then v | Mask(i) else v & !Mask(i)
  }

  lemma MaskValue(i: nat)
    requires i < 8
    ensures Mask(i) == [0x01, 0x02, 0x04, 0x08, 0x10, 0x20, 0x40, 0x80][i]
  {
    assert Mask(1) == 0x02 && Mask(2) == 0x04 && Mask(3) == 0x08;
    assert Mask(4) == 0x10 && Mask(5) == 0x20;
    assert Mask(6) == 0x40 && Mask(7) == 0x80;
  }

  lemma MasksApart(i: nat, j: nat)
    requires i < 8 && j < 8
    ensures Mask(i) & Mask(j) == if i == j then Mask(i) else 0
    ensures Mask(i) != 0
  {
    MaskValue(i);
    MaskValue(j);
  }

  /** Setting or clearing one bit does that and leaves the other seven. */
  lemma WithBitIs(v: bv8, i: nat, on: bool, j: nat)
    requires i < 8 && j < 8
    ensures Bit(WithBit(v, i, on), j) == if i == j then on else Bit(v, j)
  {
    MasksApart(i, j);
    MasksApart(j, i);
    OneBit(v, Mask(i), Mask(j));
  }

  lemma OneBit(v: bv8, m: bv8, n: bv8)
    requires m != 0 && n != 0 && (m == n || m & n == 0)
    ensures (v | m) & n == if m == n then n else v & n
    ensures (v & !m) & n == if m == n then 0 else v & n
  {
  }

  // ------------------------------------------------------------ one port

  function AfterAccess(s: Side, a: Access): Side {
    var val := WithBit(s.cache, a.pin, a.on);
    match a.outcome
    case Acknowledged => Side(val, val, None)
    case LostAck => Side(val, s.cache, Some(Torn(a.pin, a.on)))
    case NotStored => s
  }

  /** The register is the cached byte, but for the torn pin. */
  predicate Coherent(s: Side) {
    match s.torn
    case None => s.chip == s.cache
    case Some(t) => t.pin < BANK_SIZE && s.chip == WithBit(s.cache, t.pin, t.on)
  }

  lemma AccessCoherent(s: Side, a: Access)
    requires Coherent(s) && a.pin < BANK_SIZE
    ensures Coherent(AfterAccess(s, a))
  {
  }

  /** An access sets its own pin on the chip if it is stored and in the cache if it succeeds; every
      other pin keeps its cached setting, and if the access is stored its chip level is that. */
  lemma AccessSets(s: Side, a: Access, j: nat)
    requires a.pin < BANK_SIZE && j < BANK_SIZE
    ensures var t := AfterAccess(s, a);
            && (Bit(t.cache, j) <==> if j == a.pin && a.outcome == Acknowledged then a.on else Bit(s.cache, j))
            && (a.outcome != NotStored ==> (Bit(t.chip, j) <==> if j == a.pin then a.on else Bit(s.cache, j)))
  {
    WithBitIs(s.cache, a.pin, a.on, j);
  }

  /** The cache is exact if and only if no torn pin holds anything but its last set value. */
  lemma ExactIff(s: Side)
    requires Coherent(s)
    ensures s.cache == s.chip <==> s.torn.None? || (Bit(s.cache, s.torn.value.pin) == s.torn.value.on)
  {
    if s.torn.Some? {
      WithBitSame(s.cache, s.torn.value.pin, s.torn.value.on);
    }
  }

  /** Writing the value a bit has changes nothing; writing the other one does. */
  lemma WithBitSame(v: bv8, i: nat, on: bool)
    requires i < BANK_SIZE
    ensures WithBit(v, i, on) == v <==> Bit(v, i) == on
  {
    WithBitIs(v, i, on, i);
    if Bit(v, i) == on {
      forall j | 0 <= j < BANK_SIZE
        ensures Bit(WithBit(v, i, on), j) == Bit(v, j)
      {
        WithBitIs(v, i, on, j);
      }
      SameBits(WithBit(v, i, on), v);
    }
  }

  function AfterRun(s: Side, accesses: seq<Access>): Side {
    if accesses == [] then s else AfterAccess(AfterRun(s, accesses[..|accesses| - 1]), accesses[|accesses| - 1])
  }

  /** The last access to reach the chip. */
  function LastStored(accesses: seq<Access>): Option<Access> {
    if accesses == [] then None
    else if accesses[|accesses| - 1].outcome != NotStored then Some(accesses[|accesses| - 1])
    else LastStored(accesses[..|accesses| - 1])
  }

  /** The value last set successfully on a pin. */
  function LastSet(accesses: seq<Access>, pin: nat, initial: bool): bool {
    if accesses == [] then initial
    else
      var a := accesses[|accesses| - 1];
      if a.pin == pin && a.outcome == Acknowledged then a.on
      else LastSet(accesses[..|accesses| - 1], pin, initial)
  }

  predicate OnPort(accesses: seq<Access>) {
    forall a :: a in accesses ==> a.pin < BANK_SIZE
  }

  lemma {:induction false} RunSets(s: Side, accesses: seq<Access>, j: nat)
    requires OnPort(accesses) && j < BANK_SIZE
    ensures Bit(AfterRun(s, accesses).cache, j) <==> LastSet(accesses, j, Bit(s.cache, j))
  {
    hide Bit, WithBit, AfterAccess;
    if accesses != [] {
      var front, a := accesses[..|accesses| - 1], accesses[|accesses| - 1];
      assert OnPort(front) && a in accesses;
      RunSets(s, front, j);
      AccessSets(AfterRun(s, front), a, j);
    }
  }

  lemma {:induction false} RunTears(s: Side, accesses: seq<Access>)
    requires Coherent(s) && s.torn == None && OnPort(accesses)
    ensures var t, last := AfterRun(s, accesses), LastStored(accesses);
            && Coherent(t)
            && (last.Some? ==> last.value.pin < BANK_SIZE)
            && t.torn == if last.None? || last.value.outcome == Acknowledged then None
                         else Some(Torn(last.value.pin, last.value.on))
  {
    hide Bit, WithBit;
    if accesses != [] {
      var front, a := accesses[..|accesses| - 1], accesses[|accesses| - 1];
      assert OnPort(front) && a in accesses;
      RunTears(s, front);
      AccessCoherent(AfterRun(s, front), a);
    }
  }

  /** Any number of accesses, any of them failing: each pin's setting is the last one that
      succeeded, and the cached byte equals the register if and only if the last access to reach
      the chip was acknowledged or wrote what its pin was set to anyway. */
  lemma AnyRun(s: Side, accesses: seq<Access>, j: nat)
    requires Coherent(s) && s.torn == None && OnPort(accesses) && j < BANK_SIZE
    ensures var t, last := AfterRun(s, accesses), LastStored(accesses);
            && Coherent(t)
            && (Bit(t.cache, j) <==> LastSet(accesses, j, Bit(s.cache, j)))
            && (t.cache == t.chip <==>
                  last.None? || last.value.outcome == Acknowledged
                  || Bit(t.cache, last.value.pin) == last.value.on)
  {
    RunSets(s, accesses, j);
    RunTears(s, accesses);
    ExactIff(AfterRun(s, accesses));
  }

  /** The failing case: a level stored but not acknowledged leaves the cache wrong. */
  lemma TornWitness()
    ensures var t := AfterRun(Side(0x00, 0x00, None), [Access(0, true, LostAck)]);
            t.cache != t.chip && Bit(t.chip, 0) && !Bit(t.cache, 0)
  {
    var a := Access(0, true, LostAck);
    assert [a][..0] == [];
    assert AfterRun(Side(0x00, 0x00, None), [a]) == AfterAccess(Side(0x00, 0x00, None), a);
  }

  /** A byte is its eight bits. */
  lemma SameBits(v: bv8, w: bv8)
    requires forall i :: 0 <= i < BANK_SIZE ==> Bit(v, i) == Bit(w, i)
    ensures v == w
  {
    forall i | 0 <= i < BANK_SIZE
      ensures (v & Mask(i) != 0) == (w & Mask(i) != 0)
    {
      assert Bit(v, i) == Bit(w, i);
    }
    MaskValue(0);
    MaskValue(1);
    MaskValue(2);
    MaskValue(3);
    MaskValue(4);
    MaskValue(5);
    MaskValue(6);
    MaskValue(7);
    EightBits(v, w);
  }

  lemma EightBits(v: bv8, w: bv8)
    requires (v & 0x01 != 0) == (w & 0x01 != 0) && (v & 0x02 != 0) == (w & 0x02 != 0)
    requires (v & 0x04 != 0) == (w & 0x04 != 0) && (v & 0x08 != 0) == (w & 0x08 != 0)
    requires (v & 0x10 != 0) == (w & 0x10 != 0) && (v & 0x20 != 0) == (w & 0x20 != 0)
    requires (v & 0x40 != 0) == (w & 0x40 != 0) && (v & 0x80 != 0) == (w & 0x80 != 0)
    ensures v == w
  {
  }

  /** Of the eight registers at most register r has changed. */
  predicate OnlyPort(before: seq<bv8>, after: seq<bv8>, r: nat) {
    |before| == |after| == 8 && forall i :: 0 <= i < 8 && i != r ==> after[i] == before[i]
  }

  class Chip {
    /** The registers of the device. */
    var regs: seq<bv8>
    // the driver: whether its bus handle exists, and its cache
    var connected: bool
    var output: seq<bv8>
    var config: seq<bv8>
    ghost var tornOutput: seq<Option<Torn>>
    ghost var tornConfig: seq<Option<Torn>>
    /** How many messages have failed. */
    ghost var failures: nat

    ghost predicate Valid()
      reads this
    {
      && |regs| == REGISTERS && |output| == BANK_NUM && |config| == BANK_NUM
      && |tornOutput| == BANK_NUM && |tornConfig| == BANK_NUM
    }

    /** Levels of a port: register, cached byte, torn pin. */
    ghost function Levels(b: nat): Side
      requires Valid() && b < BANK_NUM
      reads this
    {
      Side(regs[OUTPUT * BANK_NUM + b], output[b], tornOutput[b])
    }

    /** Directions of a port; a set bit is an input. */
    ghost function Modes(b: nat): Side
      requires Valid() && b < BANK_NUM
      reads this
    {
      Side(regs[CONFIG * BANK_NUM + b], config[b], tornConfig[b])
    }

    ghost predicate AllCoherent()
      reads this
    {
      Valid() && forall b: nat :: b < BANK_NUM ==> Coherent(Levels(b)) && Coherent(Modes(b))
    }

    /** What a successful Init leaves, and every access keeps: where there is a bus handle, a
        coherent cache. */
    ghost predicate Ready()
      reads this
    {
      Valid() && (connected ==> AllCoherent())
    }

    /** Level the chip drives on pin `p`; true is high. */
    predicate Level(p: nat)
      requires |regs| == REGISTERS && p < GPIO_MAX
      reads this`regs
    {
      Bit(regs[Port(OUTPUT, p)], p % BANK_SIZE)
    }

    /** Direction of pin `p` on the chip; true is input. */
    predicate IsInput(p: nat)
      requires |regs| == REGISTERS && p < GPIO_MAX
      reads this`regs
    {
      Bit(regs[Port(CONFIG, p)], p % BANK_SIZE)
    }

    constructor (regs: seq<bv8>)
      requires |regs| == REGISTERS
      ensures Valid() && this.regs == regs && !connected
    {
      this.regs, connected, output, config := regs, false, [0, 0], [0, 0];
      tornOutput, tornConfig := [None, None], [None, None];
    }

    /** tegrabl_i2c_dev_write of one register. An error usually means that nothing was stored,
        but a lost acknowledge is reported as an error as well. */
    method BusWrite(val: bv8, reg: nat) returns (err: Error, ghost outcome: Outcome)
      requires Valid() && reg < REGISTERS
      modifies this`regs, this`failures
      ensures failures == old(failures) + if err == BusError then 1 else 0
      ensures regs == if outcome == NotStored then old(regs) else old(regs)[reg := val]
      ensures err == NoError <==> outcome == Acknowledged
      ensures outcome != NotStored ==> connected
      ensures err in {NoError, BadParameter, BusError} && (err == BadParameter <==> !connected)
    {
      if !connected {
        return BadParameter, NotStored;
      }
      var acknowledged, arrives: bool := *, *;
      if acknowledged || arrives {
        regs := regs[reg := val];
      }
      outcome := if acknowledged then Acknowledged else if arrives then LostAck else NotStored;
      err := if acknowledged then NoError else BusError;
      failures := failures + if acknowledged then 0 else 1;
    }

    method BusRead(reg: nat) returns (err: Error, val: bv8)
      requires Valid() && reg < REGISTERS
      modifies this`failures
      ensures failures == old(failures) + if err == BusError then 1 else 0
      ensures err in {NoError, BadParameter, BusError} && (err == BadParameter <==> !connected)
      ensures err == NoError ==> val == regs[reg]
    {
      var fails: bool := *;
      val := regs[reg];
      err := if !connected then BadParameter else if fails then BusError else NoError;
      failures := failures + if err == BusError then 1 else 0;
    }

    /** tca9539_device_init. When the bus device cannot be opened it still reports success, and
        every later access fails; otherwise success means an exact cache and no inversion. */
    method Init() returns (err: Error)
      requires Valid()
      modifies this
      ensures Valid() && (err == NoError ==> Ready())
      ensures err == NoError && connected ==>
                AllCoherent() && forall b: nat :: b < BANK_NUM ==> Levels(b).torn == Modes(b).torn == None
      ensures err == NoError && connected ==> regs == old(regs)[4 := 0][5 := 0]
      ensures err == NoError && connected ==> output == regs[2..4] && config == regs[6..8]
      ensures !connected ==> err == NoError && regs == old(regs)
      ensures err in {NoError, BusError} && (err == BusError <==> failures != old(failures))
    {
      connected := *;
      err := NoError;
      if !connected {
        return;
      }
      tornOutput, tornConfig := [None, None], [None, None];
      var i := 0;
      while i < BANK_NUM
        invariant 0 <= i <= BANK_NUM && Valid() && connected && err == NoError && failures == old(failures)
        invariant i == 0 ==> regs == old(regs)
        invariant i == 1 ==> regs == old(regs)[POLAR * BANK_NUM := 0]
        invariant i == 2 ==> regs == old(regs)[POLAR * BANK_NUM := 0][POLAR * BANK_NUM + 1 := 0]
        invariant tornOutput == tornConfig == [None, None]
        invariant forall b :: 0 <= b < i ==> output[b] == regs[OUTPUT * BANK_NUM + b]
        invariant forall b :: 0 <= b < i ==> config[b] == regs[CONFIG * BANK_NUM + b]
      {
        ghost var outcome;
        err, outcome := BusWrite(0, POLAR * BANK_NUM + i);
        if err != NoError {
          return;
        }
        var val;
        err, val := BusRead(OUTPUT * BANK_NUM + i);
        if err != NoError {
          return;
        }
        output := output[i := val];
        err, val := BusRead(CONFIG * BANK_NUM + i);
        if err != NoError {
          return;
        }
        config := config[i := val];
        i := i + 1;
      }
    }

    /** tca9539_gpio_write: one access to the level port of its pin and to nothing else. A stored
        write sets the pin, whatever it reports; after a reported success the port is exact.
        Without a bus handle every access to a pin there is fails and changes nothing. */
    method Write(p: nat, high: bool) returns (err: Error, ghost outcome: Outcome)
      requires Ready()
      modifies this`regs, this`output, this`tornOutput, this`failures
      ensures err in {NoError, Invalid, BadParameter, BusError} && (err == BusError <==> failures != old(failures))
      ensures Ready()
      ensures err == Invalid <==> p >= GPIO_MAX
      ensures err == BadParameter <==> p < GPIO_MAX && !connected
      ensures !connected ==> regs == old(regs) && output == old(output)
      ensures p < GPIO_MAX ==> OnlyPort(old(regs), regs, 2 + p / 8)
      ensures p < GPIO_MAX && outcome != NotStored ==> Bit(regs[2 + p / 8], p % 8) == high
      ensures err == NoError <==> outcome == Acknowledged
      ensures err == Invalid ==> outcome == NotStored
      ensures outcome != NotStored ==> connected && p < GPIO_MAX && Level(p) == high
      ensures p < GPIO_MAX ==>
                Levels(p / BANK_SIZE) == AfterAccess(old(Levels(p / BANK_SIZE)), Access(p % BANK_SIZE, high, outcome))
      ensures err == NoError ==> Levels(p / BANK_SIZE).chip == Levels(p / BANK_SIZE).cache
      ensures forall b: nat :: b < BANK_NUM && (p < GPIO_MAX ==> b != p / BANK_SIZE) ==> Levels(b) == old(Levels(b))
      ensures forall b: nat :: b < BANK_NUM ==> Modes(b) == old(Modes(b))
    {
      hide Coherent, WithBit, Bit;
      outcome := NotStored;
      if p >= GPIO_MAX {
        return Invalid, outcome;
      }
      ghost var before := Levels(p / BANK_SIZE);
      var reg, shift, val := Port(OUTPUT, p), p % BANK_SIZE, output[p / BANK_SIZE];
      val := WithBit(val, shift, high);
      err, outcome := BusWrite(val, reg);
      if err == NoError {
        output := output[p / BANK_SIZE := val];
      }
      if outcome != NotStored {
        tornOutput := tornOutput[p / BANK_SIZE := if err == NoError then None else Some(Torn(shift, high))];
      }
      if connected {
        AccessCoherent(before, Access(shift, high, outcome));
        AccessSets(before, Access(shift, high, outcome), shift);
        assert Levels(p / BANK_SIZE) == AfterAccess(before, Access(shift, high, outcome));
        forall b: nat | b < BANK_NUM
          ensures Coherent(Levels(b)) && Coherent(Modes(b))
        {
          assert b != p / BANK_SIZE ==> Levels(b) == old(Levels(b));
          assert Modes(b) == old(Modes(b));
        }
      }
    }

    /** tca9539_gpio_config, likewise for the direction of a pin. */
    method Config(p: nat, mode: Mode) returns (err: Error, ghost outcome: Outcome)
      requires Ready()
      modifies this`regs, this`config, this`tornConfig, this`failures
      ensures err in {NoError, Invalid, BadParameter, BusError} && (err == BusError <==> failures != old(failures))
      ensures Ready()
      ensures err == Invalid <==> p >= GPIO_MAX || mode == OtherMode
      ensures err == BadParameter <==> p < GPIO_MAX && mode != OtherMode && !connected
      ensures !connected ==> regs == old(regs) && config == old(config)
      ensures p < GPIO_MAX ==> OnlyPort(old(regs), regs, 6 + p / 8)
      ensures p < GPIO_MAX && outcome != NotStored ==> Bit(regs[6 + p / 8], p % 8) == mode.Input?
      ensures err == NoError <==> outcome == Acknowledged
      ensures err == Invalid ==> outcome == NotStored
      ensures outcome != NotStored ==> connected && p < GPIO_MAX && IsInput(p) == mode.Input?
      ensures p < GPIO_MAX ==>
                Modes(p / BANK_SIZE)
                == AfterAccess(old(Modes(p / BANK_SIZE)), Access(p % BANK_SIZE, mode.Input?, outcome))
      ensures err == NoError ==> Modes(p / BANK_SIZE).chip == Modes(p / BANK_SIZE).cache
      ensures forall b: nat :: b < BANK_NUM && (p < GPIO_MAX ==> b != p / BANK_SIZE) ==> Modes(b) == old(Modes(b))
      ensures forall b: nat :: b < BANK_NUM ==> Levels(b) == old(Levels(b))
    {
      hide Coherent, WithBit, Bit;
      outcome := NotStored;
      if p >= GPIO_MAX || mode == OtherMode {
        return Invalid, outcome;
      }
      ghost var before := Modes(p / BANK_SIZE);
      var reg, shift, val := Port(CONFIG, p), p % BANK_SIZE, config[p / BANK_SIZE];
      val := WithBit(val, shift, mode.Input?);
      err, outcome := BusWrite(val, reg);
      if err == NoError {
        config := config[p / BANK_SIZE := val];
      }
      if outcome != NotStored {
        tornConfig := tornConfig[p / BANK_SIZE := if err == NoError then None else Some(Torn(shift, mode.Input?))];
      }
      if connected {
        AccessCoherent(before, Access(shift, mode.Input?, outcome));
        AccessSets(before, Access(shift, mode.Input?, outcome), shift);
        assert Modes(p / BANK_SIZE) == AfterAccess(before, Access(shift, mode.Input?, outcome));
        forall b: nat | b < BANK_NUM
          ensures Coherent(Modes(b)) && Coherent(Levels(b))
        {
          assert b != p / BANK_SIZE ==> Modes(b) == old(Modes(b));
          assert Levels(b) == old(Levels(b));
        }
      }
    }
  }
}
