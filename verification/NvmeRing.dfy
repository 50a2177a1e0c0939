// The queue-pair protocol as a state machine: host submit and accept steps interleaved
// with controller fetch and complete steps, over rings of any size (NVM Express Base
// Specification 1.4, sections 4.1 and 4.6).
module NvmeRing {
  import opened Arith
  import opened NvmeSpec

  /** A completion queue entry: command id, phase tag, and whether the status is success. */
  datatype Completion = Completion(cid: nat, phase: bool, ok: bool)

  datatype Execution = Execution(cmd: Command, ok: bool)

  datatype Ring = Ring(
    geo: Geometry,
    size: nat,
    // shared memory
    sq: seq<Command>,
    cq: seq<Completion>,
    world: World,
    // doorbell registers
    sqDoorbell: nat,
    cqDoorbell: nat,
    // host
    sqTail: nat,
    cqHead: nat,
    phase: bool,
    // controller
    fetchHead: nat,
    cqTail: nat,
    ctlPhase: bool,
    pending: seq<Command>,
    // what happened so far
    submitted: seq<Command>,
    executed: seq<Execution>,
    accepted: seq<Completion>)

  datatype Event = Submit(cmd: Command) | Accept | Fetch | Complete(i: nat, ok: bool, after: World)

  /** The controller rejects its i-th pending command. */
  function Rejection(r: Ring, i: nat): Event {
    Complete(i, false, if i < |r.pending| then Rejected(r.geo, r.world, r.pending[i]) else r.world)
  }

  function Next(i: nat, size: nat): nat {
    if i + 1 == size then 0 else i + 1
  }

  /** Well-formed indices: what makes the steps below meaningful. */
  predicate Indexed(r: Ring) {
    && |r.sq| == r.size == |r.cq|
    && r.sqTail < r.size && r.cqHead < r.size && r.fetchHead < r.size && r.cqTail < r.size
    && r.sqDoorbell < r.size && r.cqDoorbell < r.size
  }

  /** The newest submitted command has not been accepted yet. */
  predicate Waiting(r: Ring) {
    |r.accepted| < |r.submitted|
  }

  /** The entry at the head carries the phase the host expects. */
  predicate HeadIsNew(r: Ring)
    requires Indexed(r)
  {
    r.cq[r.cqHead].phase == r.phase
  }

  ghost predicate Enabled(r: Ring, e: Event)
    requires Indexed(r)
  {
    match e
    case Submit(_) => !Waiting(r)
    case Accept => r.submitted != [] && Waiting(r) && HeadIsNew(r)
                   && r.cq[r.cqHead].cid == r.submitted[|r.submitted| - 1].cid
    case Fetch => r.fetchHead != r.sqDoorbell
    case Complete(i, ok, after) =>
      // one slot of the completion queue stays empty; success means the command ran
      i < |r.pending| && Next(r.cqTail, r.size) != r.cqDoorbell
      && Effect(r.geo, r.world, r.pending[i], ok, after)
  }

  ghost function Step(r: Ring, e: Event): (r': Ring)
    requires Indexed(r) && Enabled(r, e)
    ensures Indexed(r') && r'.size == r.size && r'.geo == r.geo
  {
    match e
    case Submit(cmd) => Submitted(r, cmd)
    case Accept => AckRung(HeadAdvanced(r), r.cq[r.cqHead])
    case Fetch =>
      r.(pending := r.pending + [r.sq[r.fetchHead]], fetchHead := Next(r.fetchHead, r.size))
    case Complete(i, ok, after) =>
      var cmd := r.pending[i];
      var tail := Next(r.cqTail, r.size);
      r.(pending := r.pending[..i] + r.pending[i + 1..],
         cq := r.cq[r.cqTail := Completion(cmd.cid, r.ctlPhase, ok)],
         cqTail := tail, ctlPhase := if tail == 0 then !r.ctlPhase else r.ctlPhase,
         world := after,
         executed := r.executed + [Execution(cmd, ok)])
  }

  /** Fill the slot at the tail, move the tail, ring the doorbell. */
  function Submitted(r: Ring, cmd: Command): (r': Ring)
    requires Indexed(r)
    ensures Indexed(r')
  {
    var tail := Next(r.sqTail, r.size);
    r.(sq := r.sq[r.sqTail := cmd], sqTail := tail, sqDoorbell := tail, submitted := r.submitted + [cmd])
  }

  /** Step past the entry at the head, flipping the expected phase at the end of the ring. */
  function HeadAdvanced(r: Ring): (r': Ring)
    requires Indexed(r)
    ensures Indexed(r')
  {
    var head := Next(r.cqHead, r.size);
    r.(cqHead := head, phase := if head == 0 then !r.phase else r.phase)
  }

  /** Tell the controller how far the host has read. */
  function AckRung(r: Ring, c: Completion): (r': Ring)
    requires Indexed(r)
    ensures Indexed(r')
  {
    r.(accepted := r.accepted + [c], cqDoorbell := r.cqHead)
  }

  predicate Initial(r: Ring) {
    && Indexed(r)
    && r.sqTail == r.cqHead == r.fetchHead == r.cqTail == r.sqDoorbell == r.cqDoorbell == 0
    && r.phase && r.ctlPhase
    && (forall k :: 0 <= k < r.size ==> !r.cq[k].phase)
    && r.pending == [] && r.submitted == [] && r.executed == [] && r.accepted == []
  }

  /** The phase tag of the n-th completion: it flips on every pass over the ring. */
  predicate Parity(n: nat, size: nat)
    requires 0 < size
  {
    (n / size) % 2 == 0
  }

  /** Everything about the rings follows from how many commands were submitted, fetched,
      executed and accepted. */
  ghost predicate Inv(r: Ring) {
    && 2 <= r.size && Indexed(r)
    && |r.accepted| <= |r.executed| <= |r.executed| + |r.pending| <= |r.submitted| <= |r.accepted| + 1
    && r.sqTail == r.sqDoorbell == |r.submitted| % r.size
    && r.fetchHead == (|r.executed| + |r.pending|) % r.size
    && r.cqTail == |r.executed| % r.size && r.ctlPhase == Parity(|r.executed|, r.size)
    && r.cqHead == r.cqDoorbell == |r.accepted| % r.size && r.phase == Parity(|r.accepted|, r.size)
    && SubmissionSlots(r) && CompletionSlots(r) && History(r)
  }

  /** Commands not fetched yet are still in their slots; fetched ones are pending in order. */
  ghost predicate SubmissionSlots(r: Ring)
    requires Indexed(r) && 0 < r.size
  {
    && (|r.executed| + |r.pending| < |r.submitted| ==>
          r.sq[(|r.executed| + |r.pending|) % r.size] == r.submitted[|r.executed| + |r.pending|])
    && (forall k :: 0 <= k < |r.pending| && |r.executed| + k < |r.submitted| ==>
          r.pending[k] == r.submitted[|r.executed| + k])
  }

  /** Slots behind the controller's tail carry its current phase, slots from the tail on the
      other one; a posted but unaccepted entry answers the newest command. */
  ghost predicate CompletionSlots(r: Ring)
    requires Indexed(r) && 0 < r.size
  {
    && (forall k :: 0 <= k < r.size ==> (r.cq[k].phase == r.ctlPhase <==> k < r.cqTail))
    && (|r.accepted| < |r.executed| <= |r.submitted| ==>
          r.cq[|r.accepted| % r.size] ==
            Completion(r.submitted[|r.accepted|].cid, Parity(|r.accepted|, r.size), r.executed[|r.accepted|].ok))
  }

  /** Commands execute once each in submission order, and the k-th accepted entry is the
      answer to the k-th command. */
  ghost predicate History(r: Ring) {
    && |r.accepted| <= |r.executed| <= |r.submitted|
    && (forall k :: 0 <= k < |r.executed| ==> r.executed[k].cmd == r.submitted[k])
    && (forall k :: 0 <= k < |r.accepted| ==>
          r.accepted[k].cid == r.submitted[k].cid && r.accepted[k].ok == r.executed[k].ok)
  }

  lemma InitialInv(r: Ring)
    requires Initial(r) && 2 <= r.size
    ensures Inv(r)
  {
    DivModUnique(0, r.size, 0, 0);
  }

  lemma ParityStep(n: nat, size: nat)
    requires 0 < size
    ensures Next(n % size, size) == (n + 1) % size
    ensures Parity(n + 1, size) == (if (n + 1) % size == 0 then !Parity(n, size) else Parity(n, size))
  {
    RingSuccessor(n, size);
  }

  lemma SubmitInv(r: Ring, cmd: Command)
    requires Inv(r) && Enabled(r, Submit(cmd))
    ensures Inv(Submitted(r, cmd))
  {
    ParityStep(|r.submitted|, r.size);
  }

  lemma FetchInv(r: Ring)
    requires Inv(r) && Enabled(r, Fetch)
    ensures Inv(Step(r, Fetch))
  {
    ParityStep(|r.executed| + |r.pending|, r.size);
  }

  lemma CompleteInv(r: Ring, i: nat, ok: bool, after: World)
    requires Inv(r) && Enabled(r, Complete(i, ok, after))
    ensures Inv(Step(r, Complete(i, ok, after)))
  {
    ParityStep(|r.executed|, r.size);
    assert |r.pending| == 1 && i == 0;
    assert |r.accepted| == |r.executed|;
  }

  /** The phase test accepts an entry exactly when it is the fresh answer. */
  lemma HeadIsNewIff(r: Ring)
    requires Inv(r)
    ensures HeadIsNew(r) <==> |r.accepted| < |r.executed|
    ensures HeadIsNew(r) ==> Enabled(r, Accept)
  {
    if |r.accepted| < |r.executed| {
      ParityStep(|r.accepted|, r.size);
    }
  }

  lemma AcceptInv(r: Ring)
    requires Inv(r) && Enabled(r, Accept)
    ensures Inv(Step(r, Accept))
  {
    HeadIsNewIff(r);
    ParityStep(|r.accepted|, r.size);
  }

  lemma StepInv(r: Ring, e: Event)
    requires Inv(r) && Enabled(r, e)
    ensures Inv(Step(r, e))
  {
    match e
    case Submit(cmd) => SubmitInv(r, cmd);
    case Accept => AcceptInv(r);
    case Fetch => FetchInv(r);
    case Complete(i, ok, after) => CompleteInv(r, i, ok, after);
  }

  // ---------------------------------------------------------------- whole runs

  ghost predicate Legal(r: Ring, es: seq<Event>)
    requires Indexed(r)
    decreases |es|
  {
    es == [] || (Enabled(r, es[0]) && Legal(Step(r, es[0]), es[1..]))
  }

  ghost function Run(r: Ring, es: seq<Event>): (r': Ring)
    requires Indexed(r) && Legal(r, es)
    ensures Indexed(r') && r'.size == r.size
    decreases |es|
  {
    if es == [] then r else Run(Step(r, es[0]), es[1..])
  }

  lemma {:induction false} RunInv(r: Ring, es: seq<Event>)
    requires Inv(r) && Legal(r, es)
    ensures Inv(Run(r, es))
    decreases |es|
  {
    if es != [] {
      StepInv(r, es[0]);
      RunInv(Step(r, es[0]), es[1..]);
    }
  }

  /** Every run of every interleaving: each submitted command is executed once, in order;
      what the host accepted are the answers to its own commands; the phase test never lets
      a stale entry through nor refuses a fresh one, so no fresh entry has a foreign cid;
      and a submission never lands on a slot the controller still has to fetch. */
  lemma EveryRunIsSafe(r: Ring, es: seq<Event>)
    requires Initial(r) && 2 <= r.size && Legal(r, es)
    ensures var s := Run(r, es);
            && History(s)
            && |s.executed| <= |s.submitted| <= |s.accepted| + 1
            && (HeadIsNew(s) <==> |s.accepted| < |s.executed|)
            && (HeadIsNew(s) ==> s.cq[s.cqHead].cid == s.submitted[|s.accepted|].cid)
            && (!Waiting(s) ==> s.fetchHead == s.sqDoorbell && s.pending == [] && |s.executed| == |s.submitted|)
            && s.phase == Parity(|s.accepted|, s.size)
  {
    InitialInv(r);
    RunInv(r, es);
    HeadIsNewIff(Run(r, es));
  }

  /** Two different counters within one pass of the ring sit in different slots, so the
      doorbell test "fetchHead != sqDoorbell" tells one outstanding command from none. */
  lemma PendingSlotDiffers(n: nat, size: nat)
    requires 2 <= size
    ensures n % size != (n + 1) % size
  {
    RingSuccessor(n, size);
  }

  /** While a command is outstanding the controller can always take its next step. */
  lemma NoDeadlock(r: Ring)
    requires Inv(r) && Waiting(r)
    ensures Enabled(r, Fetch) || Enabled(r, Rejection(r, 0)) || Enabled(r, Accept)
  {
    HeadIsNewIff(r);
    if |r.executed| == |r.accepted| {
      if r.pending == [] {
        PendingSlotDiffers(|r.executed|, r.size);
        assert Enabled(r, Fetch);
      } else {
        RejectionFails(r.geo, r.world, r.pending[0]);
        ParityStep(|r.executed|, r.size);
        PendingSlotDiffers(|r.executed|, r.size);
      }
    }
  }

  // ---------------------------------------------------------------- one command

  /** How a queue with cmd outstanding can look after controller steps only: nothing has
      happened yet, or cmd has been executed once with its effect on the world. */
  ghost predicate Outcome(before: Ring, r: Ring, cmd: Command) {
    && r.geo == before.geo && r.size == before.size
    && r.submitted == before.submitted + [cmd] && r.accepted == before.accepted
    && (|| (r.executed == before.executed && r.world == before.world)
        || Answered(before, r, cmd, true)
        || Answered(before, r, cmd, false))
  }

  ghost predicate Answered(before: Ring, r: Ring, cmd: Command, ok: bool) {
    && r.executed == before.executed + [Execution(cmd, ok)]
    && Effect(before.geo, before.world, cmd, ok, r.world)
  }

  ghost predicate InFlight(before: Ring, r: Ring, cmd: Command) {
    Inv(before) && !Waiting(before) && Inv(r) && Outcome(before, r, cmd)
  }

  ghost predicate IdleRing(r: Ring) {
    Inv(r) && !Waiting(r)
  }

  /** cmd ran exactly once between two idle moments, and c is its answer. */
  ghost predicate Finished(before: Ring, r: Ring, cmd: Command, c: Completion) {
    && c.cid == cmd.cid
    && Answered(before, r, cmd, c.ok)
    && r.submitted == before.submitted + [cmd] && r.accepted == before.accepted + [c]
  }

  lemma IdleIndexed(r: Ring)
    requires IdleRing(r)
    ensures Indexed(r) && 2 <= r.size
  {
  }

  lemma SubmitInFlight(before: Ring, cmd: Command)
    requires IdleRing(before) && Indexed(before)
    ensures InFlight(before, Submitted(before, cmd), cmd)
  {
    SubmitInv(before, cmd);
  }

  lemma ConsumedFinished(before: Ring, r: Ring, cmd: Command, c: Completion)
    requires Consumed(before, r, cmd, c)
    ensures Indexed(r) && IdleRing(AckRung(r, c)) && Finished(before, AckRung(r, c), cmd, c)
  {
  }

  lemma InFlightIndexed(before: Ring, r: Ring, cmd: Command)
    requires InFlight(before, r, cmd)
    ensures Indexed(r) && 2 <= r.size && r.cqDoorbell == r.cqHead
  {
  }

  /** cmd has been answered by c, whose acknowledgement is all that is missing. */
  ghost predicate Consumed(before: Ring, r: Ring, cmd: Command, c: Completion) {
    && Indexed(r) && c.cid == cmd.cid
    && Answered(before, r, cmd, c.ok)
    && r.submitted == before.submitted + [cmd] && r.accepted == before.accepted
    && Inv(AckRung(r, c)) && !Waiting(AckRung(r, c))
  }

  lemma OutcomeStep(before: Ring, r: Ring, cmd: Command, e: Event)
    requires InFlight(before, r, cmd)
    requires Indexed(r) && Enabled(r, e) && (e.Fetch? || e.Complete?)
    ensures InFlight(before, Step(r, e), cmd)
  {
    StepInv(r, e);
    if e.Complete? {
      assert |r.pending| == 1 && |r.executed| == |r.accepted|;
      assert r.pending[0] == r.submitted[|r.executed|] == cmd;
    }
  }

  /** The entry the host accepts tells the truth about its command. */
  lemma OutcomeAccept(before: Ring, r: Ring, cmd: Command)
    requires InFlight(before, r, cmd) && Indexed(r) && HeadIsNew(r)
    ensures Enabled(r, Accept) && r.cq[r.cqHead].cid == cmd.cid
    ensures Consumed(before, HeadAdvanced(r), cmd, r.cq[r.cqHead])
  {
    HeadIsNewIff(r);
    StepInv(r, Accept);
  }

  // ---------------------------------------------------------------- size one

  /** Admin queue size chosen at start-up. CAP.MQES is zero-based, so 1 means two entries. */
  function AdminQueueSize(mqes: nat): nat {
    Min(mqes, 2)
  }

  predicate Stuck(r: Ring) {
    && Indexed(r) && r.size == 1
    && r.fetchHead == r.sqDoorbell == 0 && r.cqTail == r.cqDoorbell == 0
    && r.pending == [] && r.executed == [] && r.accepted == []
    && r.phase && !r.cq[0].phase
  }

  lemma StuckStep(r: Ring, e: Event)
    requires Stuck(r) && Enabled(r, e)
    ensures e.Submit? && Stuck(Step(r, e))
  {
  }

  lemma {:induction false} StuckRun(r: Ring, es: seq<Event>)
    requires Stuck(r) && Legal(r, es)
    ensures Stuck(Run(r, es))
    decreases |es|
  {
    if es != [] {
      StuckStep(r, es[0]);
      StuckRun(Step(r, es[0]), es[1..]);
    }
  }

  lemma RunCons(r: Ring, e: Event, es: seq<Event>)
    requires Indexed(r) && Enabled(r, e) && Legal(Step(r, e), es)
    ensures Legal(r, [e] + es) && Run(r, [e] + es) == Run(Step(r, e), es)
  {
    assert ([e] + es)[1..] == es;
  }

  lemma AnsweredRun(r: Ring, cmd: Command) returns (es: seq<Event>)
    requires Initial(r) && 2 <= r.size
    ensures Legal(r, es) && |Run(r, es).accepted| == 1
  {
    InitialInv(r);
    PendingSlotDiffers(0, r.size);
    var s1 := Step(r, Submit(cmd));
    StepInv(r, Submit(cmd));
    var s2 := Step(s1, Fetch);
    StepInv(s1, Fetch);
    RejectionFails(s2.geo, s2.world, s2.pending[0]);
    var s3 := Step(s2, Rejection(s2, 0));
    StepInv(s2, Rejection(s2, 0));
    HeadIsNewIff(s3);
    es := [];
    RunCons(s3, Accept, es);
    es := [Accept] + es;
    RunCons(s2, Rejection(s2, 0), es);
    es := [Rejection(s2, 0)] + es;
    RunCons(s1, Fetch, es);
    es := [Fetch] + es;
    RunCons(r, Submit(cmd), es);
    es := [Submit(cmd)] + es;
  }

  /** A command on the admin queue can be answered in some run if and only if CAP.MQES is at
      least 2: for MQES == 1, the smallest queue the standard allows, the driver builds rings of
      one slot, the tail never moves and every command times out. */
  lemma AdminQueueWorksIff(r: Ring, mqes: nat, cmd: Command)
    requires 1 <= mqes && r.size == AdminQueueSize(mqes) && Initial(r)
    ensures mqes >= 2 <==> exists es :: Legal(r, es) && |Run(r, es).accepted| == 1
  {
    if mqes >= 2 {
      var es := AnsweredRun(r, cmd);
    } else {
      forall es | Legal(r, es)
        ensures |Run(r, es).accepted| == 0
      {
        StuckRun(r, es);
      }
    }
  }
}
