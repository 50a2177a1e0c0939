// The queue pair when the host stops waiting: drivers/nvme/tegrabl_nvme.c:385-402 returns on a
// timeout without draining the queues, and the next call submits regardless. The machine of
// NvmeRing with one more move, over runs with any number of timeouts.
module NvmeTimeouts {
  import opened Arith
  import opened NvmeSpec
  import opened NvmeRing

  /** waiting: a call is in progress. pend and exec say which submission each pending and each
      executed command is; asked says for which submission each accepted entry was taken. */
  datatype Session = Session(ring: Ring, waiting: bool, pend: seq<nat>, exec: seq<nat>, asked: seq<nat>)

  datatype Move = Protocol(e: Event) | GiveUp

  /** Submissions the controller can see: from its head up to the doorbell. */
  function Visible(r: Ring): nat
    requires Indexed(r)
  {
    if r.sqDoorbell >= r.fetchHead then r.sqDoorbell - r.fetchHead else r.sqDoorbell + r.size - r.fetchHead
  }

  ghost predicate Shaped(s: Session) {
    Indexed(s.ring) && Visible(s.ring) <= |s.ring.submitted| && |s.pend| == |s.ring.pending|
  }

  /** The test of tegrabl_wait_for_command: a fresh entry with the cid of the newest command. */
  predicate HeadTaken(r: Ring)
    requires Indexed(r)
  {
    r.submitted != [] && HeadIsNew(r) && r.cq[r.cqHead].cid == r.submitted[|r.submitted| - 1].cid
  }

  ghost predicate Possible(s: Session, m: Move)
    requires Shaped(s)
  {
    match m
    case GiveUp => s.waiting
    case Protocol(e) =>
      match e
      case Submit(_) => !s.waiting
      case Accept => s.waiting && HeadTaken(s.ring)
      case Fetch => Enabled(s.ring, e)
      case Complete(_, _, _) => Enabled(s.ring, e)
  }

  ghost function Play(s: Session, m: Move): Session
    requires Shaped(s) && Possible(s, m)
  {
    match m
    case GiveUp => s.(waiting := false)
    case Protocol(e) =>
      match e
      case Submit(cmd) => s.(ring := Submitted(s.ring, cmd), waiting := true)
      case Accept =>
        s.(ring := AckRung(HeadAdvanced(s.ring), s.ring.cq[s.ring.cqHead]), waiting := false,
           asked := s.asked + [|s.ring.submitted| - 1])
      case Fetch =>
        s.(ring := Step(s.ring, e), pend := s.pend + [|s.ring.submitted| - Visible(s.ring)])
      case Complete(i, _, _) =>
        s.(ring := Step(s.ring, e), pend := s.pend[..i] + s.pend[i + 1..], exec := s.exec + [s.pend[i]])
  }

  // ------------------------------------------------------------ invariant

  ghost predicate Sound(s: Session) {
    Shaped(s) && 2 <= s.ring.size && Submissions(s) && Fetched(s) && Completions(s) && Answers(s)
  }

  /** The visible slots hold the last submissions. */
  ghost predicate Submissions(s: Session)
    requires Shaped(s) && 2 <= s.ring.size
  {
    var r, n := s.ring, |s.ring.submitted|;
    && r.sqTail == r.sqDoorbell == n % r.size && r.fetchHead == (n - Visible(r)) % r.size
    && (forall k :: n - Visible(r) <= k < n ==> r.sq[k % r.size] == r.submitted[k])
    && (s.waiting ==> 0 < n)
  }

  /** Every pending and every executed command is a submission of its own. */
  ghost predicate Fetched(s: Session)
    requires Shaped(s)
  {
    var r, first := s.ring, |s.ring.submitted| - Visible(s.ring);
    && |s.exec| == |r.executed|
    && (forall k :: 0 <= k < |s.pend| ==> s.pend[k] < first && r.pending[k] == r.submitted[s.pend[k]])
    && (forall k :: 0 <= k < |s.exec| ==> s.exec[k] < first && r.executed[k].cmd == r.submitted[s.exec[k]])
    && Distinct(s.exec) && Distinct(s.pend) && Apart(s.pend, s.exec)
  }

  ghost predicate Distinct(a: seq<nat>) {
    forall i, j :: 0 <= i < j < |a| ==> a[i] != a[j]
  }

  ghost predicate Apart(a: seq<nat>, b: seq<nat>) {
    forall i, j :: 0 <= i < |a| && 0 <= j < |b| ==> a[i] != b[j]
  }

  lemma TakeOver(pend: seq<nat>, exec: seq<nat>, i: nat)
    requires Distinct(pend) && Distinct(exec) && Apart(pend, exec) && i < |pend|
    ensures Distinct(pend[..i] + pend[i + 1..]) && Distinct(exec + [pend[i]])
    ensures Apart(pend[..i] + pend[i + 1..], exec + [pend[i]])
  {
    var rest := pend[..i] + pend[i + 1..];
    assert forall k :: 0 <= k < |rest| ==> rest[k] == if k < i then pend[k] else pend[k + 1];
  }

  /** The completion queue holds the answers not accepted yet, under their phases. */
  ghost predicate Completions(s: Session)
    requires Shaped(s) && 2 <= s.ring.size
  {
    var r := s.ring;
    && |r.accepted| <= |r.executed| < |r.accepted| + r.size
    && r.cqTail == |r.executed| % r.size && r.ctlPhase == Parity(|r.executed|, r.size)
    && r.cqHead == r.cqDoorbell == |r.accepted| % r.size && r.phase == Parity(|r.accepted|, r.size)
    && Phases(r.cq, r.cqTail, r.ctlPhase) && Posted(r)
  }

  /** Slots behind the controller's tail carry its phase, the others the opposite one. */
  predicate Phases(cq: seq<Completion>, tail: nat, phase: bool) {
    forall k :: 0 <= k < |cq| ==> (cq[k].phase == phase <==> k < tail)
  }

  predicate Posted(r: Ring)
    requires Indexed(r) && 0 < r.size
  {
    forall k :: |r.accepted| <= k < |r.executed| ==>
      r.cq[k % r.size] == Completion(r.executed[k].cmd.cid, Parity(k, r.size), r.executed[k].ok)
  }

  lemma PhasesNext(cq: seq<Completion>, tail: nat, phase: bool, c: Completion)
    requires Phases(cq, tail, phase) && tail < |cq| && c.phase == phase
    ensures tail + 1 < |cq| ==> Phases(cq[tail := c], tail + 1, phase)
    ensures tail + 1 == |cq| ==> Phases(cq[tail := c], 0, !phase)
  {
  }

  lemma PostedNext(r: Ring, i: nat, ok: bool, after: World)
    requires Indexed(r) && 2 <= r.size && Posted(r) && Enabled(r, Complete(i, ok, after))
    requires r.cqTail == |r.executed| % r.size && r.ctlPhase == Parity(|r.executed|, r.size)
    requires |r.accepted| <= |r.executed| < |r.accepted| + r.size
    ensures Posted(Step(r, Complete(i, ok, after)))
  {
    hide Effect, Parity;
    var e := |r.executed|;
    forall k | |r.accepted| <= k < e
      ensures k % r.size != e % r.size
    {
      RoundTheRing(k, e - k, r.size);
    }
  }

  /** The n-th accepted entry is the answer to the n-th executed command, taken for a command
      with the same cid. */
  ghost predicate Answers(s: Session)
    requires Shaped(s)
  {
    var r := s.ring;
    && |s.asked| == |r.accepted| <= |r.executed|
    && (forall k :: 0 <= k < |r.accepted| ==>
          r.accepted[k].cid == r.executed[k].cmd.cid && r.accepted[k].ok == r.executed[k].ok)
    && (forall k :: 0 <= k < |r.accepted| ==>
          s.asked[k] < |r.submitted| && r.submitted[s.asked[k]].cid == r.executed[k].cmd.cid)
  }

  /** n places further round a ring of p. */
  lemma RoundTheRing(a: nat, n: nat, p: nat)
    requires n <= p && 0 < p
    ensures (a + n) % p == if a % p + n < p then a % p + n else a % p + n - p
  {
    var q := a / p;
    assert a == q * p + a % p;
    if a % p + n < p {
      DivModUnique(a + n, p, q, a % p + n);
    } else {
      Distribute(q, 1, p);
      DivModUnique(a + n, p, q + 1, a % p + n - p);
    }
  }

  lemma SubmitVisible(s: Session, cmd: Command)
    requires Shaped(s) && 2 <= s.ring.size && Submissions(s) && !s.waiting
    ensures var s' := Play(s, Protocol(Submit(cmd)));
            var v := Visible(s.ring);
            Shaped(s') && Visible(s'.ring) == if v + 1 == s.ring.size then 0 else v + 1
  {
    var r, n, v := s.ring, |s.ring.submitted|, Visible(s.ring);
    RoundTheRing(n - v, v, r.size);
    RoundTheRing(n, 1, r.size);
    RoundTheRing(n - v, v + 1, r.size);
  }

  lemma SubmitSubmissions(s: Session, cmd: Command)
    requires Shaped(s) && 2 <= s.ring.size && Submissions(s) && !s.waiting
    ensures Shaped(Play(s, Protocol(Submit(cmd)))) && Submissions(Play(s, Protocol(Submit(cmd))))
  {
    var r, n, v := s.ring, |s.ring.submitted|, Visible(s.ring);
    var s' := Play(s, Protocol(Submit(cmd)));
    SubmitVisible(s, cmd);
    RoundTheRing(n, 1, r.size);
    if v + 1 == r.size {
      RoundTheRing(n - v, r.size, r.size);
      assert n - v + r.size == n + 1;
    }
    forall k | n + 1 - Visible(s'.ring) <= k < n + 1
      ensures s'.ring.sq[k % r.size] == s'.ring.submitted[k]
    {
      if k < n {
        RoundTheRing(k, n - k, r.size);
      }
    }
  }

  lemma SubmitSound(s: Session, cmd: Command)
    requires Sound(s) && !s.waiting
    ensures Sound(Play(s, Protocol(Submit(cmd))))
    ensures var v := Visible(s.ring);
            Visible(Play(s, Protocol(Submit(cmd))).ring) == if v + 1 == s.ring.size then 0 else v + 1
  {
    hide Submissions, Parity;
    SubmitSubmissions(s, cmd);
    SubmitVisible(s, cmd);
  }

  lemma FetchSubmissions(s: Session)
    requires Shaped(s) && 2 <= s.ring.size && Submissions(s) && Possible(s, Protocol(Fetch))
    ensures Shaped(Play(s, Protocol(Fetch))) && Submissions(Play(s, Protocol(Fetch)))
    ensures Visible(Play(s, Protocol(Fetch)).ring) == Visible(s.ring) - 1
  {
    hide Effect;
    var r, n, v := s.ring, |s.ring.submitted|, Visible(s.ring);
    var next := Next(r.fetchHead, r.size);
    assert next == (n - v + 1) % r.size by {
      RoundTheRing(n - v, 1, r.size);
    }
    assert v > 0;
    assert Visible(r.(fetchHead := next)) == v - 1 by {
      RoundTheRing(n - v, v, r.size);
      hide Submissions;
    }
    assert Play(s, Protocol(Fetch)).ring.fetchHead == next;
    assert n - v + 1 == n - (v - 1);
  }

  lemma FetchSound(s: Session)
    requires Sound(s) && Possible(s, Protocol(Fetch))
    ensures Sound(Play(s, Protocol(Fetch)))
    ensures Visible(Play(s, Protocol(Fetch)).ring) == Visible(s.ring) - 1
  {
    hide Parity;
    FetchSubmissions(s);
    assert s.ring.sq[s.ring.fetchHead] == s.ring.submitted[|s.ring.submitted| - Visible(s.ring)];
    hide Submissions;
  }

  lemma CompleteCompletions(s: Session, i: nat, ok: bool, after: World)
    requires Shaped(s) && 2 <= s.ring.size && Completions(s) && Possible(s, Protocol(Complete(i, ok, after)))
    ensures Shaped(Play(s, Protocol(Complete(i, ok, after))))
    ensures Completions(Play(s, Protocol(Complete(i, ok, after))))
  {
    hide Effect, Parity, Posted, Phases;
    var r, e, a := s.ring, |s.ring.executed|, |s.ring.accepted|;
    ParityStep(e, r.size);
    RoundTheRing(a, e - a, r.size);
    RoundTheRing(a, e + 1 - a, r.size);
    PhasesNext(r.cq, r.cqTail, r.ctlPhase, Completion(r.pending[i].cid, r.ctlPhase, ok));
    PostedNext(r, i, ok, after);
  }

  /** Taking the i-th pending command over to the executed ones keeps all of them distinct. */
  lemma CompleteFetched(s: Session, i: nat, ok: bool, after: World)
    requires Shaped(s) && Fetched(s) && Possible(s, Protocol(Complete(i, ok, after)))
    ensures Shaped(Play(s, Protocol(Complete(i, ok, after))))
    ensures Fetched(Play(s, Protocol(Complete(i, ok, after))))
  {
    hide Effect, Distinct, Apart;
    TakeOver(s.pend, s.exec, i);
    var rest := s.pend[..i] + s.pend[i + 1..];
    assert forall k :: 0 <= k < |rest| ==> rest[k] == if k < i then s.pend[k] else s.pend[k + 1];
  }

  lemma CompleteSound(s: Session, i: nat, ok: bool, after: World)
    requires Sound(s) && Possible(s, Protocol(Complete(i, ok, after)))
    ensures Sound(Play(s, Protocol(Complete(i, ok, after))))
  {
    hide Effect, Completions, Fetched, Parity;
    CompleteFetched(s, i, ok, after);
    CompleteCompletions(s, i, ok, after);
    AnswersLater(s, Play(s, Protocol(Complete(i, ok, after))));
    hide Answers;
  }

  /** Executing more commands takes no answer back. */
  lemma AnswersLater(s: Session, s': Session)
    requires Shaped(s) && Shaped(s') && Answers(s)
    requires s'.ring.submitted == s.ring.submitted && s'.asked == s.asked && s'.ring.accepted == s.ring.accepted
    requires s.ring.executed <= s'.ring.executed
    ensures Answers(s')
  {
  }

  /** The phase test passes exactly when an answer has not been accepted. */
  lemma FreshIff(s: Session)
    requires Sound(s)
    ensures HeadIsNew(s.ring) <==> |s.ring.accepted| < |s.ring.executed|
    ensures HeadIsNew(s.ring) ==> s.ring.cq[s.ring.cqHead].cid == s.ring.submitted[s.exec[|s.ring.accepted|]].cid
  {
  }

  lemma AcceptCompletions(s: Session)
    requires Shaped(s) && 2 <= s.ring.size && Completions(s) && Possible(s, Protocol(Accept))
    requires |s.ring.accepted| < |s.ring.executed|
    ensures Shaped(Play(s, Protocol(Accept))) && Completions(Play(s, Protocol(Accept)))
  {
    hide Parity, Phases;
    ParityStep(|s.ring.accepted|, s.ring.size);
  }

  lemma AcceptSubmissions(s: Session)
    requires Sound(s) && Possible(s, Protocol(Accept))
    ensures Shaped(Play(s, Protocol(Accept))) && Submissions(Play(s, Protocol(Accept)))
  {
    hide Completions, Answers, Fetched;
  }

  lemma AcceptSound(s: Session)
    requires Sound(s) && Possible(s, Protocol(Accept))
    ensures Sound(Play(s, Protocol(Accept)))
  {
    hide Parity, Distinct, Apart;
    hide Submissions;
    AcceptSubmissions(s);
    FreshIff(s);
    assert s.ring.cq[s.ring.cqHead].ok == s.ring.executed[|s.ring.accepted|].ok;
    AcceptCompletions(s);
  }

  lemma PlaySound(s: Session, m: Move)
    requires Sound(s) && Possible(s, m)
    ensures Sound(Play(s, m))
  {
    match m
    case GiveUp =>
    case Protocol(e) =>
      match e
      case Submit(cmd) => SubmitSound(s, cmd);
      case Accept => AcceptSound(s);
      case Fetch => FetchSound(s);
      case Complete(i, ok, after) => CompleteSound(s, i, ok, after);
  }

  // ------------------------------------------------------------ whole runs

  ghost predicate Legal(s: Session, ms: seq<Move>)
    requires Sound(s)
    decreases |ms|
  {
    ms == [] || (Possible(s, ms[0]) && Sound(Play(s, ms[0])) && Legal(Play(s, ms[0]), ms[1..]))
  }

  ghost function Run(s: Session, ms: seq<Move>): (s': Session)
    requires Sound(s) && Legal(s, ms)
    ensures Sound(s')
    decreases |ms|
  {
    if ms == [] then s else Run(Play(s, ms[0]), ms[1..])
  }

  /** A queue that has just been set up. */
  function Opened(r: Ring): Session {
    Session(r, false, [], [], [])
  }

  lemma OpenedSound(r: Ring)
    requires Initial(r) && 2 <= r.size
    ensures Sound(Opened(r))
  {
    DivModUnique(0, r.size, 0, 0);
  }

  /** Where a run of possible moves leads: the invariant is never in the way. */
  lemma LegalCons(s: Session, m: Move, ms: seq<Move>)
    requires Sound(s) && Possible(s, m)
    ensures Sound(Play(s, m))
    ensures Legal(Play(s, m), ms) ==> Legal(s, [m] + ms) && Run(s, [m] + ms) == Run(Play(s, m), ms)
  {
    PlaySound(s, m);
    assert ([m] + ms)[1..] == ms;
  }

  ghost predicate CidsDistinct(r: Ring) {
    forall i, j :: 0 <= i < j < |r.submitted| ==> r.submitted[i].cid != r.submitted[j].cid
  }

  /** Every run with any number of timeouts: each submission is executed at most once, and the
      n-th accepted entry is the answer to the n-th executed command, taken for a command with
      its cid. So as long as no cid is used twice, every answer goes to its own command. */
  lemma EveryRunWithTimeouts(r: Ring, ms: seq<Move>)
    requires Initial(r) && 2 <= r.size && Sound(Opened(r)) && Legal(Opened(r), ms)
    ensures var s := Run(Opened(r), ms);
            && Distinct(s.exec) && |s.exec| == |s.ring.executed|
            && (forall k :: 0 <= k < |s.exec| ==>
                  s.exec[k] < |s.ring.submitted| && s.ring.executed[k].cmd == s.ring.submitted[s.exec[k]])
            && (forall k :: 0 <= k < |s.ring.accepted| ==> s.ring.accepted[k].ok == s.ring.executed[k].ok)
            && |s.asked| == |s.ring.accepted| <= |s.exec|
            && (CidsDistinct(s.ring) ==> forall k :: 0 <= k < |s.asked| ==> s.asked[k] == s.exec[k])
  {
    var s := Run(Opened(r), ms);
    hide Completions, Submissions, Legal, Run;
    if CidsDistinct(s.ring) {
      forall k | 0 <= k < |s.asked|
        ensures s.asked[k] == s.exec[k]
      {
        assert s.ring.submitted[s.asked[k]].cid == s.ring.submitted[s.exec[k]].cid;
      }
    }
  }

  // ------------------------------------------------------------ lost commands

  /** Submission k has left the visible slots without having been fetched. */
  ghost predicate Lost(s: Session, k: nat)
    requires Shaped(s)
  {
    k + Visible(s.ring) < |s.ring.submitted| && k !in s.pend && k !in s.exec
  }

  lemma LostStays(s: Session, m: Move, k: nat)
    requires Sound(s) && Possible(s, m) && Lost(s, k)
    ensures Sound(Play(s, m)) && Lost(Play(s, m), k)
  {
    hide Submissions, Completions, Answers, Fetched, Effect;
    PlaySound(s, m);
    if m.Protocol? && m.e.Submit? {
      SubmitSound(s, m.e.cmd);
    } else if m.Protocol? && m.e.Fetch? {
      FetchSound(s);
    }
  }

  /** A lost command is never executed, however the run goes on. */
  lemma {:induction false} LostForever(s: Session, ms: seq<Move>, k: nat)
    requires Sound(s) && Legal(s, ms) && Lost(s, k)
    ensures Lost(Run(s, ms), k)
    decreases |ms|
  {
    if ms != [] {
      LostStays(s, ms[0], k);
      LostForever(Play(s, ms[0]), ms[1..], k);
    }
  }

  /** Submitting loses commands if and only if the tail meets the controller's head: then it
      loses the new command and every one the controller had not fetched, and they are lost
      although nothing has been overwritten yet. */
  lemma SubmitLosesIff(s: Session, cmd: Command, k: nat)
    requires Sound(s) && !s.waiting && k <= |s.ring.submitted|
    ensures var s' := Play(s, Protocol(Submit(cmd)));
            && Sound(s')
            && (Lost(s', k) && !(k < |s.ring.submitted| && Lost(s, k))
                <==> Visible(s.ring) + 1 == s.ring.size && |s.ring.submitted| - Visible(s.ring) <= k)
  {
    SubmitSound(s, cmd);
    hide Submissions, Completions, Answers, Distinct, Apart;
  }

  // ------------------------------------------------------------ who is answered

  ghost predicate ControllerOnly(ms: seq<Move>) {
    forall m :: m in ms ==> m.Protocol? && (m.e.Fetch? || m.e.Complete?)
  }

  /** The controller can still do something that ends the wait with an answer. */
  ghost predicate Answerable(s: Session)
    requires Sound(s)
  {
    exists ms :: ControllerOnly(ms) && Legal(s, ms) && Possible(Run(s, ms), Protocol(Accept))
  }

  lemma AcceptIff(s: Session)
    requires Sound(s)
    ensures var r := s.ring;
            Possible(s, Protocol(Accept)) <==>
              s.waiting && |r.accepted| < |r.executed|
              && r.submitted[s.exec[|r.accepted|]].cid == r.submitted[|r.submitted| - 1].cid
  {
    FreshIff(s);
    hide Submissions;
  }

  /** No submission of the run uses the given cid. */
  ghost predicate Avoids(ms: seq<Move>, cid: nat) {
    forall m :: m in ms && m.Protocol? && m.e.Submit? ==> m.e.cmd.cid != cid
  }

  /** The answer at the head of the queue, and for whom it was meant. */
  ghost predicate Unclaimed(s: Session, cid: nat)
    requires Sound(s)
  {
    var r := s.ring;
    && |r.accepted| < |r.executed| && r.submitted[s.exec[|r.accepted|]].cid == cid
    && (s.waiting ==> r.submitted[|r.submitted| - 1].cid != cid)
  }

  lemma UnclaimedStays(s: Session, m: Move, cid: nat)
    requires Sound(s) && Possible(s, m) && Unclaimed(s, cid)
    requires m.Protocol? && m.e.Submit? ==> m.e.cmd.cid != cid
    ensures Sound(Play(s, m)) && Unclaimed(Play(s, m), cid) && Play(s, m).ring.accepted == s.ring.accepted
  {
    hide Submissions, Completions, Answers, Effect, Distinct, Apart;
    PlaySound(s, m);
    AcceptIff(s);
  }

  /** The wedge: an answer nobody waits for stays at the head, and no command is ever answered
      again, for as long as no command reuses its cid. */
  lemma {:induction false} WedgedUntilReuse(s: Session, ms: seq<Move>, cid: nat)
    requires Sound(s) && Legal(s, ms) && Unclaimed(s, cid) && Avoids(ms, cid)
    ensures Unclaimed(Run(s, ms), cid) && Run(s, ms).ring.accepted == s.ring.accepted
    decreases |ms|
  {
    if ms != [] {
      UnclaimedStays(s, ms[0], cid);
      WedgedUntilReuse(Play(s, ms[0]), ms[1..], cid);
    }
  }

  /** A command that does reuse the cid is given that old answer at once. */
  lemma ReuseTakesOldAnswer(s: Session, cmd: Command)
    requires Sound(s) && !s.waiting && Unclaimed(s, cmd.cid)
    ensures var s' := Play(s, Protocol(Submit(cmd)));
            Sound(s') && Possible(s', Protocol(Accept)) && |s.ring.submitted| !in s'.exec
  {
    SubmitSound(s, cmd);
    AcceptIff(Play(s, Protocol(Submit(cmd))));
    hide Submissions, Completions, Answers;
  }

  /** After s, by steps of the controller alone. */
  ghost predicate FetchedUp(s: Session, s': Session)
    requires Sound(s) && Sound(s')
  {
    && s'.waiting == s.waiting && Visible(s'.ring) == 0 && s'.ring.submitted == s.ring.submitted
    && s'.ring.executed == s.ring.executed && s'.ring.accepted == s.ring.accepted
    && s'.exec == s.exec && s'.ring.size == s.ring.size
    && (if Visible(s.ring) == 0 then s'.pend == s.pend
        else s'.pend != [] && s'.pend[|s'.pend| - 1] == |s.ring.submitted| - 1)
  }

  lemma FetchedUpStep(s: Session, s': Session)
    requires Sound(s) && Possible(s, Protocol(Fetch)) && Sound(Play(s, Protocol(Fetch))) && Sound(s')
    requires FetchedUp(Play(s, Protocol(Fetch)), s')
    ensures FetchedUp(s, s')
  {
    FetchSound(s);
    hide Submissions, Completions, Answers, Fetched;
  }

  lemma NothingFetched(s: Session)
    requires Sound(s)
    ensures Visible(s.ring) == 0 ==> FetchedUp(s, s)
  {
  }

  lemma FetchAll(s: Session) returns (ms: seq<Move>)
    requires Sound(s)
    ensures ControllerOnly(ms) && Legal(s, ms) && FetchedUp(s, Run(s, ms))
    decreases Visible(s.ring)
  {
    hide FetchedUp, Submissions, Completions, Answers, Fetched;
    ms := [];
    NothingFetched(s);
    if Visible(s.ring) > 0 {
      FetchSound(s);
      var rest := FetchAll(Play(s, Protocol(Fetch)));
      LegalCons(s, Protocol(Fetch), rest);
      ms := [Protocol(Fetch)] + rest;
      FetchedUpStep(s, Run(s, ms));
    }
  }

  lemma {:induction false} LegalSnoc(s: Session, ms: seq<Move>, m: Move)
    requires Sound(s) && Legal(s, ms) && Possible(Run(s, ms), m)
    ensures Legal(s, ms + [m]) && Run(s, ms + [m]) == Play(Run(s, ms), m)
    decreases |ms|
  {
    hide Submissions, Completions, Answers, Fetched, Effect;
    if ms == [] {
      PlaySound(s, m);
      assert ms + [m] == [m] && [m][1..] == [];
    } else {
      LegalSnoc(Play(s, ms[0]), ms[1..], m);
      assert (ms + [m])[1..] == ms[1..] + [m];
    }
  }

  lemma {:induction false} ControllerKeeps(s: Session, ms: seq<Move>)
    requires Sound(s) && Legal(s, ms) && ControllerOnly(ms)
    ensures Run(s, ms).ring.submitted == s.ring.submitted
    decreases |ms|
  {
    if ms != [] {
      ControllerKeeps(Play(s, ms[0]), ms[1..]);
    }
  }

  /** The newest command can complete before any other pending one. */
  lemma NewestCompletes(s: Session)
    requires Sound(s) && s.waiting && |s.ring.executed| == |s.ring.accepted|
    requires s.pend != [] && s.pend[|s.pend| - 1] == |s.ring.submitted| - 1
    ensures var m := Protocol(Rejection(s.ring, |s.pend| - 1));
            Possible(s, m) && Sound(Play(s, m)) && Possible(Play(s, m), Protocol(Accept))
  {
    var m := Protocol(Rejection(s.ring, |s.pend| - 1));
    RoundTheRing(|s.ring.accepted|, 1, s.ring.size);
    RejectionFails(s.ring.geo, s.ring.world, s.ring.pending[|s.pend| - 1]);
    assert Possible(s, m);
    PlaySound(s, m);
    hide Submissions, Completions, Answers, Effect, Distinct, Apart;
    AcceptIff(Play(s, m));
  }

  ghost predicate NewCid(r: Ring, cmd: Command) {
    forall k :: 0 <= k < |r.submitted| ==> r.submitted[k].cid != cmd.cid
  }

  /** Which commands can be answered, at any moment of any run: one submitted under a new cid can,
      if and only if no answer lies unclaimed at the head and its submission has not made the
      tail meet the controller's head. */
  lemma AnswerableIff(s: Session, cmd: Command)
    requires Sound(s) && !s.waiting && NewCid(s.ring, cmd)
    ensures Sound(Play(s, Protocol(Submit(cmd))))
    ensures Answerable(Play(s, Protocol(Submit(cmd))))
            <==> |s.ring.executed| == |s.ring.accepted| && Visible(s.ring) + 1 < s.ring.size
  {
    hide Submissions, Completions, Answers, Fetched, Effect;
    SubmitSound(s, cmd);
    var s1 := Play(s, Protocol(Submit(cmd)));
    if |s.ring.executed| == |s.ring.accepted| && Visible(s.ring) + 1 < s.ring.size {
      AnswerReached(s1);
    } else {
      forall ms | ControllerOnly(ms) && Legal(s1, ms)
        ensures !Possible(Run(s1, ms), Protocol(Accept))
      {
        NeverAnswered(s, cmd, ms);
      }
    }
  }

  lemma AnswerReached(s: Session)
    requires Sound(s) && s.waiting && Visible(s.ring) > 0 && |s.ring.executed| == |s.ring.accepted|
    ensures Answerable(s)
  {
    hide Submissions, Completions, Answers, Fetched, Effect, Possible;
    var ms := FetchAll(s);
    var t := Run(s, ms);
    NewestCompletes(t);
    var m := Protocol(Rejection(t.ring, |t.pend| - 1));
    LegalSnoc(s, ms, m);
    assert ControllerOnly(ms + [m]);
  }

  lemma NeverAnswered(s: Session, cmd: Command, ms: seq<Move>)
    requires Sound(s) && !s.waiting && NewCid(s.ring, cmd) && Sound(Play(s, Protocol(Submit(cmd))))
    requires !(|s.ring.executed| == |s.ring.accepted| && Visible(s.ring) + 1 < s.ring.size)
    requires ControllerOnly(ms) && Legal(Play(s, Protocol(Submit(cmd))), ms)
    ensures !Possible(Run(Play(s, Protocol(Submit(cmd))), ms), Protocol(Accept))
  {
    hide Submissions, Completions, Answers, Effect, Distinct, Apart;
    Bounds(s);
    if |s.ring.executed| > |s.ring.accepted| {
      NeverPastUnclaimed(s, cmd, ms);
    } else {
      NeverLost(s, cmd, ms);
    }
  }

  lemma Bounds(s: Session)
    requires Sound(s)
    ensures |s.ring.accepted| <= |s.ring.executed| && Visible(s.ring) < s.ring.size && |s.exec| == |s.ring.executed|
  {
  }

  lemma NeverPastUnclaimed(s: Session, cmd: Command, ms: seq<Move>)
    requires Sound(s) && !s.waiting && NewCid(s.ring, cmd) && Sound(Play(s, Protocol(Submit(cmd))))
    requires |s.ring.executed| > |s.ring.accepted|
    requires ControllerOnly(ms) && Legal(Play(s, Protocol(Submit(cmd))), ms)
    ensures !Possible(Run(Play(s, Protocol(Submit(cmd))), ms), Protocol(Accept))
  {
    hide Submissions, Completions, Answers, Effect, Distinct, Apart;
    var s1 := Play(s, Protocol(Submit(cmd)));
    AcceptIff(Run(s1, ms));
    var cid := s.ring.submitted[s.exec[|s.ring.accepted|]].cid;
    WedgedUntilReuse(s1, ms, cid);
  }

  lemma NeverLost(s: Session, cmd: Command, ms: seq<Move>)
    requires Sound(s) && !s.waiting && NewCid(s.ring, cmd) && Sound(Play(s, Protocol(Submit(cmd))))
    requires Visible(s.ring) + 1 == s.ring.size
    requires ControllerOnly(ms) && Legal(Play(s, Protocol(Submit(cmd))), ms)
    ensures !Possible(Run(Play(s, Protocol(Submit(cmd))), ms), Protocol(Accept))
  {
    hide Submissions, Completions, Answers, Effect, Distinct, Apart;
    var s1, n := Play(s, Protocol(Submit(cmd))), |s.ring.submitted|;
    SubmitLosesIff(s, cmd, n);
    LostForever(s1, ms, n);
    ControllerKeeps(s1, ms);
    AcceptIff(Run(s1, ms));
    Bounds(Run(s1, ms));
  }

  // ------------------------------------------------------------ after the first timeout

  function Upto(from: nat, n: nat): seq<nat> {
    seq(n, i requires 0 <= i < n => from + i)
  }

  /** A queue of NvmeRing with one command outstanding, in which the wait is still on. */
  function SessionOf(r: Ring): Session {
    Session(r, true, Upto(|r.executed|, |r.pending|), Upto(0, |r.executed|), Upto(0, |r.accepted|))
  }

  /** What the first timeout leaves behind is a state of this machine. */
  lemma InFlightSound(before: Ring, r: Ring, cmd: Command)
    requires InFlight(before, r, cmd)
    ensures Sound(SessionOf(r)) && Visible(r) == |r.submitted| - |r.executed| - |r.pending|
    ensures |r.submitted| == |r.accepted| + 1
  {
    hide InFlight, Parity, Completions, Submissions, CompletionSlots;
    InFlightParts(before, r, cmd);
    InFlightVisible(r);
    InFlightCompletions(r);
  }

  lemma InFlightVisible(r: Ring)
    requires Inv(r) && |r.submitted| == |r.accepted| + 1
    ensures Visible(r) == |r.submitted| - |r.executed| - |r.pending|
    ensures Shaped(SessionOf(r)) && Submissions(SessionOf(r))
  {
    hide CompletionSlots, History, Parity;
    var n, v := |r.submitted|, |r.submitted| - |r.executed| - |r.pending|;
    RoundTheRing(n - v, v, r.size);
  }

  lemma InFlightCompletions(r: Ring)
    requires Inv(r) && |r.submitted| == |r.accepted| + 1 && Shaped(SessionOf(r))
    ensures Completions(SessionOf(r))
  {
    hide SubmissionSlots, Parity;
  }

  lemma InFlightParts(before: Ring, r: Ring, cmd: Command)
    requires InFlight(before, r, cmd)
    ensures Inv(r) && |r.submitted| == |r.accepted| + 1
  {
  }

  /** After the first timeout the next command, under a new cid, can be answered if and only if
      the controller has not answered the abandoned one by then, and either has fetched it or
      has a queue of more than two slots. The queues of this driver have two. */
  lemma NextCommandAfterTimeout(before: Ring, r: Ring, cmd: Command, next: Command)
    requires InFlight(before, r, cmd) && NewCid(r, next)
    ensures Sound(SessionOf(r)) && Sound(Play(SessionOf(r), GiveUp))
    ensures var s := Play(Play(SessionOf(r), GiveUp), Protocol(Submit(next)));
            Sound(s) && (Answerable(s) <==> |r.executed| == |r.accepted| && (|r.pending| == 1 || r.size > 2))
  {
    InFlightSound(before, r, cmd);
    InFlightParts(before, r, cmd);
    var s := Play(SessionOf(r), GiveUp);
    PlaySound(SessionOf(r), GiveUp);
    AnswerableIff(s, next);
  }

  /** On a queue of two slots, once a command abandoned before it was fetched is followed by
      another, both are lost for good, and the controller has nothing it could do. */
  lemma BothLost(before: Ring, r: Ring, cmd: Command, next: Command)
    requires InFlight(before, r, cmd) && r.size == 2 && r.pending == [] && |r.executed| == |r.accepted|
    ensures Sound(SessionOf(r)) && Sound(Play(SessionOf(r), GiveUp))
    ensures var s := Play(Play(SessionOf(r), GiveUp), Protocol(Submit(next)));
            && Sound(s) && Lost(s, |r.accepted|) && Lost(s, |r.accepted| + 1)
            && forall m :: Possible(s, m) ==> m == GiveUp
  {
    hide Submissions, Completions, Answers, Fetched, Effect, InFlight, Inv;
    InFlightSound(before, r, cmd);
    var s := Play(SessionOf(r), GiveUp);
    PlaySound(SessionOf(r), GiveUp);
    SubmitLosesIff(s, next, |r.accepted|);
    SubmitLosesIff(s, next, |r.accepted| + 1);
    SubmitSound(s, next);
    var s' := Play(s, Protocol(Submit(next)));
    AcceptIff(s');
    forall m | Possible(s', m)
      ensures m == GiveUp
    {
    }
  }

  /** All three ends of a timeout are reached from a new queue of two slots: before the fetch (the
      next command is lost), after it (it can be answered), and after the answer (it is wedged
      until its cid comes round again). */
  lemma EveryEndIsReached(r: Ring, cmd: Command, next: Command, unfetched: bool, answered: bool)
    returns (ms: seq<Move>)
    requires Initial(r) && r.size == 2 && cmd.cid != next.cid && (unfetched ==> !answered)
    ensures Sound(Opened(r)) && Legal(Opened(r), ms)
    ensures var s := Run(Opened(r), ms);
            && s.waiting && s.ring.submitted == [cmd, next]
            && (unfetched ==> Lost(s, 0) && Lost(s, 1))
            && (answered ==> Unclaimed(s, cmd.cid))
            && (!unfetched && !answered <==> Answerable(s))
  {
    hide Submissions, Completions, Answers, Fetched, Effect;
    OpenedSound(r);
    var s := Opened(r);
    ms := [];
    SubmitSound(s, cmd);
    LegalSnoc(s, ms, Protocol(Submit(cmd)));
    ms := ms + [Protocol(Submit(cmd))];
    if !unfetched {
      ms := FetchedFirst(s, ms, answered);
    }
    LegalSnoc(s, ms, GiveUp);
    ms := ms + [GiveUp];
    NextEnds(Run(s, ms), next);
    LegalSnoc(s, ms, Protocol(Submit(next)));
    ms := ms + [Protocol(Submit(next))];
  }

  lemma NextEnds(s: Session, next: Command)
    requires Sound(s) && !s.waiting && s.ring.size == 2 && |s.ring.submitted| == 1 && s.ring.accepted == []
    requires NewCid(s.ring, next)
    ensures var t := Play(s, Protocol(Submit(next)));
            && Sound(t) && t.waiting && t.ring.submitted == s.ring.submitted + [next]
            && (Visible(s.ring) == 1 ==> Lost(t, 0) && Lost(t, 1))
            && (s.exec != [] ==> Unclaimed(t, s.ring.submitted[0].cid))
            && (Answerable(t) <==> s.exec == [] && Visible(s.ring) == 0)
  {
    hide Submissions, Completions, Answers, Effect, Apart;
    Bounds(s);
    AnswerableIff(s, next);
    SubmitLosesIff(s, next, 0);
    SubmitLosesIff(s, next, 1);
  }

  lemma FetchedFirst(s: Session, ms: seq<Move>, answered: bool) returns (more: seq<Move>)
    requires Sound(s) && Legal(s, ms)
    requires var t := Run(s, ms);
             t.waiting && |t.ring.submitted| == 1 && Visible(t.ring) == 1 && t.exec == t.pend == [] && t.ring.size == 2
    ensures Legal(s, more)
    ensures var t, t' := Run(s, ms), Run(s, more);
            && t'.waiting && t'.ring.submitted == t.ring.submitted && Visible(t'.ring) == 0 && t'.ring.size == 2
            && t'.ring.accepted == t.ring.accepted == []
            && t'.exec == if answered then [0] else []
  {
    hide Submissions, Completions, Answers, Fetched, Effect;
    FetchAlone(Run(s, ms));
    LegalSnoc(s, ms, Protocol(Fetch));
    more := ms + [Protocol(Fetch)];
    if answered {
      var u := Run(s, more);
      CompleteAlone(u);
      LegalSnoc(s, more, Protocol(Rejection(u.ring, 0)));
      more := more + [Protocol(Rejection(u.ring, 0))];
    }
  }

  lemma FetchAlone(t: Session)
    requires Sound(t) && Visible(t.ring) == 1 && |t.ring.submitted| == 1 && t.exec == t.pend == []
    ensures Possible(t, Protocol(Fetch)) && t.ring.accepted == []
    ensures var u := Play(t, Protocol(Fetch));
            && Sound(u) && u.pend == [0] && u.exec == [] && Visible(u.ring) == 0 && u.ring.size == t.ring.size
            && u.waiting == t.waiting && u.ring.submitted == t.ring.submitted && u.ring.accepted == []
  {
    hide Submissions, Answers, Effect, Distinct, Apart;
    Bounds(t);
    FetchSound(t);
  }

  lemma CompleteAlone(s: Session)
    requires Sound(s) && s.pend == [0] && s.exec == [] && s.ring.accepted == []
    ensures Possible(s, Protocol(Rejection(s.ring, 0)))
    ensures var t := Play(s, Protocol(Rejection(s.ring, 0)));
            && Sound(t) && t.exec == [0] && t.ring.accepted == [] && t.waiting == s.waiting
            && t.ring.submitted == s.ring.submitted && Visible(t.ring) == Visible(s.ring) && t.ring.size == s.ring.size
  {
    hide Submissions, Answers, Distinct, Apart, Effect, Rejected;
    Bounds(s);
    RoundTheRing(0, 1, s.ring.size);
    RejectionFails(s.ring.geo, s.ring.world, s.ring.pending[0]);
    CompleteSound(s, 0, false, Rejected(s.ring.geo, s.ring.world, s.ring.pending[0]));
  }
}
