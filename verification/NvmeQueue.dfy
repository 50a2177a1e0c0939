// The driver's queue pair: the fields and steps of drivers/nvme/tegrabl_nvme.c on arrays
// updated in place, each tied to the state machine of NvmeRing through View().
module NvmeQueue {
  import opened NvmeSpec
  import opened NvmeRing

  datatype Error = NoError | Timeout | CommandFailed | NoMemory | Overflow

  class QueuePair {
    const geo: Geometry
    const size: nat
    const sq: array<Command>
    const cq: array<Completion>
    // host
    var sqTail: nat
    var cqHead: nat
    var phase: bool
    // doorbell registers
    var sqDoorbell: nat
    var cqDoorbell: nat
    // controller
    var fetchHead: nat
    var cqTail: nat
    var ctlPhase: bool
    var pending: seq<Command>
    var world: World
    // history
    ghost var submitted: seq<Command>
    ghost var executed: seq<Execution>
    ghost var accepted: seq<Completion>

    ghost function View(): Ring
      reads this, sq, cq
    {
      Ring(geo, size, sq[..], cq[..], world, sqDoorbell, cqDoorbell, sqTail, cqHead, phase,
           fetchHead, cqTail, ctlPhase, pending, submitted, executed, accepted)
    }

    /** Ready for the next command. */
    ghost predicate Idle()
      reads this, sq, cq
    {
      IdleRing(View()) && 0 < geo.pageSize
    }

    constructor (geo: Geometry, queueSize: nat, world: World)
      ensures Initial(View()) && fresh(sq) && fresh(cq)
      ensures this.geo == geo && size == queueSize && this.world == world
      ensures 2 <= queueSize && 0 < geo.pageSize ==> Idle()
      requires 0 < queueSize
    {
      this.geo := geo;
      size := queueSize;
      sq := new Command[queueSize](_ => ZERO_COMMAND);
      cq := new Completion[queueSize](_ => Completion(0, false, true));
      sqTail, cqHead, phase := 0, 0, true;
      sqDoorbell, cqDoorbell := 0, 0;
      fetchHead, cqTail, ctlPhase, pending := 0, 0, true, [];
      this.world := world;
      submitted, executed, accepted := [], [], [];
      new;
      if 2 <= queueSize {
        InitialInv(View());
      }
    }

    /** The slot at the tail, cleared. */
    method GetCurrentEntry() returns (slot: nat)
      requires Idle()
      modifies sq
      ensures Idle() && slot == sqTail < size && View() == old(View()).(sq := old(sq[..])[slot := ZERO_COMMAND])
    {
      slot := sqTail;
      sq[slot] := ZERO_COMMAND;
    }

    method AdvanceTailSq()
      requires Indexed(View())
      modifies this`sqTail
      ensures sqTail == Next(old(sqTail), size)
    {
      sqTail := sqTail + 1;
      if sqTail == size {
        sqTail := 0;
      }
    }

    method AdvanceHeadCq()
      requires Indexed(View())
      modifies this`cqHead, this`phase
      ensures View() == HeadAdvanced(old(View()))
    {
      cqHead := cqHead + 1;
      if cqHead == size {
        cqHead := 0;
        phase := !phase;
      }
    }

    /** The controller takes the next command from the submission queue. */
    method ControllerFetches()
      requires Indexed(View()) && Enabled(View(), Fetch)
      modifies this`fetchHead, this`pending
      ensures View() == Step(old(View()), Fetch)
    {
      pending := pending + [sq[fetchHead]];
      fetchHead := Next(fetchHead, size);
    }

    /** The controller finishes a pending command and posts its completion. */
    method ControllerCompletes(i: nat, ok: bool, after: World)
      requires Indexed(View()) && Enabled(View(), Complete(i, ok, after)) && i < |pending|
      modifies this`cqTail, this`ctlPhase, this`pending, this`world, this`executed, cq
      ensures View() == Step(old(View()), Complete(i, ok, after))
    {
      hide Effect, Enabled;
      var c := pending[i];
      cq[cqTail] := Completion(c.cid, ctlPhase, ok);
      cqTail := Next(cqTail, size);
      ctlPhase := if cqTail == 0 then !ctlPhase else ctlPhase;
      pending := pending[..i] + pending[i + 1..];
      world := after;
      executed := executed + [Execution(c, ok)];
    }

    /** What carrying out c, or failing at it, leaves behind. */
    method ControllerEffect(c: Command, ok: bool) returns (after: World)
      requires ok ==> Executable(geo, world, c) && Reachable(geo, world, c)
      ensures Effect(geo, world, c, ok, after)
    {
      if ok {
        return Execute(geo, world, c);
      }
      after := *;
      if !Disturbed(geo, world, c, after) {
        RejectionFails(geo, world, c);
        after := Rejected(geo, world, c);
      }
    }

    /** The entry at the head is new and carries this cid. */
    ghost predicate AnswerAtHead(cid: nat)
      reads this`cqHead, this`phase, cq
    {
      cqHead < cq.Length && cq[cqHead].phase == phase && cq[cqHead].cid == cid
    }

    /** Any number of controller steps in any order: what may happen between two polls. */
    method ControllerRuns(ghost before: Ring, ghost cmd: Command)
      requires InFlight(before, View(), cmd)
      modifies this`fetchHead, this`cqTail, this`ctlPhase, this`pending, this`world, this`executed, cq
      ensures InFlight(before, View(), cmd)
    {
      hide InFlight, Disturbed, Executable, Reachable, Step;
      var steps: nat := *;
      while steps > 0
        invariant InFlight(before, View(), cmd)
      {
        ghost var was := View();
        InFlightIndexed(before, was, cmd);
        var fetch: bool := *;
        if fetch && fetchHead != sqDoorbell {
          ControllerFetches();
          OutcomeStep(before, was, cmd, Fetch);
        } else if pending != [] && Next(cqTail, size) != cqDoorbell {
          var ok: bool := *;
          ok := ok && Executable(geo, world, pending[0]) && Reachable(geo, world, pending[0]);
          var after := ControllerEffect(pending[0], ok);
          ControllerCompletes(0, ok, after);
          OutcomeStep(before, was, cmd, Complete(0, ok, after));
        }
        steps := steps - 1;
      }
    }

    /** Poll the head entry until its phase flips and its cid is the wanted one, or time runs
        out. The entry at the head is read at least once. */
    method WaitForCommand(cid: nat, ghost before: Ring, ghost cmd: Command) returns (err: Error, status: Completion)
      requires InFlight(before, View(), cmd) && cid == cmd.cid
      modifies this`fetchHead, this`cqTail, this`ctlPhase, this`pending, this`world, this`executed, cq
      modifies this`cqHead, this`phase
      ensures err in {NoError, CommandFailed, Timeout}
      ensures err == Timeout ==> InFlight(before, View(), cmd) && cqHead == old(cqHead) && !AnswerAtHead(cid)
      ensures err != Timeout ==>
                status.cid == cid && (err == NoError <==> status.ok) && Consumed(before, View(), cmd, status)
    {
      hide InFlight, Consumed, Outcome, HeadAdvanced;
      InFlightIndexed(before, View(), cmd);
      var ticks: nat := *;
      while true
        invariant InFlight(before, View(), cmd) && cqHead == old(cqHead) < size
        decreases ticks
      {
        ControllerRuns(before, cmd);
        InFlightIndexed(before, View(), cmd);
        status := cq[cqHead];
        if status.phase == phase {
          OutcomeAccept(before, View(), cmd);
          if status.cid == cid {
            err := if status.ok then NoError else CommandFailed;
            break;
          }
        }
        if ticks == 0 {
          return Timeout, status;
        }
        ticks := ticks - 1;
      }
      AdvanceHeadCq();
    }

    /** Make the filled slot visible to the controller. */
    method RingSqDoorbell(ghost cmd: Command)
      requires Indexed(View()) && cmd == sq[sqTail]
      modifies this`sqTail, this`sqDoorbell, this`submitted
      ensures View() == Submitted(old(View()), cmd)
    {
      assert sq[..] == sq[..][sqTail := cmd];
      AdvanceTailSq();
      sqDoorbell := sqTail;
      submitted := submitted + [cmd];
    }

    method RingCqDoorbell(ghost accept: bool, ghost c: Completion)
      requires Indexed(View())
      modifies this`cqDoorbell, this`accepted
      ensures View() == if accept then AckRung(old(View()), c) else old(View()).(cqDoorbell := old(View()).cqHead)
    {
      cqDoorbell := cqHead;
      if accept {
        accepted := accepted + [c];
      }
    }

    /** Submit the command in the slot at the tail and wait for its completion. Without a
        timeout the command ran exactly once, its status decides the result, and its effect
        on the world is the only one; a timeout leaves it outstanding. */
    method ExecCmd(slot: nat) returns (err: Error, status: Completion)
      requires Idle() && slot == sqTail
      modifies this, sq, cq
      ensures err in {NoError, CommandFailed, Timeout}
      ensures err != Timeout ==> Idle() && (err == NoError <==> status.ok)
      ensures err != Timeout ==> Finished(old(View()), View(), old(sq[slot]), status)
      ensures err == Timeout ==> InFlight(old(View()), View(), old(sq[slot])) && !AnswerAtHead(old(sq[slot]).cid)
    {
      ghost var before := View();
      ghost var cmd := sq[slot];
      IdleIndexed(before);
      var cid := sq[slot].cid;
      RingSqDoorbell(cmd);
      SubmitInFlight(before, cmd);
      err, status := WaitForCommand(cid, before, cmd);
      ghost var done := View();
      if err == Timeout {
        InFlightIndexed(before, done, cmd);
      } else {
        ConsumedFinished(before, done, cmd, status);
      }
      RingCqDoorbell(err != Timeout, status);
      assert err == Timeout ==> View() == done;
    }
  }
}
