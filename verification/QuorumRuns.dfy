/** Many calls of the benchmark client at once, on shared gauges: each gauge update of each call is a step of its
    own, and the steps of calls, guards, late replies and timeouts interleave freely. */
module QuorumRuns {
  import opened Options
  import opened QuorumClient

  datatype Gauges = Gauges(transactions: int, transactionRequests: int, certificates: int, certificateRequests: int) {
    function Plus(g: Gauges): Gauges {
      Gauges(transactions + g.transactions, transactionRequests + g.transactionRequests,
             certificates + g.certificates, certificateRequests + g.certificateRequests)
    }
  }

  const NOTHING := Gauges(0, 0, 0, 0)

  /** One call: the replies it will get, in order, and what signature aggregation will say. */
  datatype Call = Call(votes: seq<VoteReply>, certs: seq<CertReply>, aggregates: bool)

  /** Where a call is. `k` counts the replies read; `guard` tells whether the certificate guard is still held while the
      background wait goes on. */
  datatype Phase =
    | Begun
    | Entered
    | Voting(k: nat)
    | Unwinding(k: nat)
    | Panicked(k: nat)
    | VotesClosed
    | Between
    | CertEntered
    | Certifying(k: nat)
    | Bailing(lost: nat)
    | Bailed(lost: nat)
    | Waiting(owed: nat, guard: bool)
    | Ended(guard: bool)

  /** A next phase, and the one gauge update on the way there. */
  datatype Move = Move(phase: Phase, delta: Gauges)

  datatype Task = Task(call: Call, phase: Phase)

  datatype System = System(gauges: Gauges, tasks: seq<Task>)

  /** A call starts; call `i` goes on; its guard is dropped; a reply to its background wait comes; that wait ends. */
  datatype Event = Start(call: Call) | Advance(i: nat) | DropGuard(i: nat) | Late(i: nat) | End(i: nat)

  // ----- steps

  predicate VotingGoesOn(c: Committee, call: Call, k: nat)
    requires k <= |call.votes|
  {
    k < |call.votes| && (k == 0 || !VotesSuffice(c, call.votes[..k]))
  }

  predicate CertifyingGoesOn(c: Committee, call: Call, k: nat)
    requires k <= |call.certs|
  {
    k < |call.certs| && (k == 0 || EffectStake(c, call.certs[..k]) < c.quorum)
  }

  predicate HasEffects(certs: seq<CertReply>) {
    exists i :: 0 <= i < |certs| && certs[i].Effects?
  }

  /** The next phase of a call and the one gauge update on the way there. */
  function Next(c: Committee, t: Task): Option<Move> {
    var (votes, certs) := (t.call.votes, t.call.certs);
    match t.phase
    case Begun => Some(Move(Entered, Gauges(1, 0, 0, 0)))
    case Entered => Some(Move(Voting(0), Gauges(0, |votes|, 0, 0)))
    case Voting(k) =>
      if k > |votes| then None
      else if VotingGoesOn(c, t.call, k) then Some(Move(Voting(k + 1), Gauges(0, -1, 0, 0)))
      else if CertificateFrom(c, votes[..k], t.call.aggregates).None? then Some(Move(Unwinding(k), NOTHING))
      else Some(Move(VotesClosed, Gauges(0, k - |votes|, 0, 0)))
    case Unwinding(k) => Some(Move(Phase.Panicked(k), Gauges(-1, 0, 0, 0)))
    case VotesClosed => Some(Move(Between, Gauges(-1, 0, 0, 0)))
    case Between => Some(Move(CertEntered, Gauges(0, 0, 1, 0)))
    case CertEntered => Some(Move(Certifying(0), Gauges(0, 0, 0, |certs|)))
    case Certifying(k) =>
      if k > |certs| then None
      else if CertifyingGoesOn(c, t.call, k) then Some(Move(Certifying(k + 1), Gauges(0, 0, 0, -1)))
      else if HasEffects(certs[..k]) && EffectStake(c, certs[..k]) >= c.quorum then
        Some(Move(Waiting(|certs| - k, true), NOTHING))
      else Some(Move(Bailing(|certs| - k), NOTHING))
    case Bailing(lost) => Some(Move(Phase.Bailed(lost), Gauges(0, 0, -1, 0)))
    case _ => None
  }

  /** What happens to a call from outside: its guard is dropped, or its background wait goes on or ends. */
  function Background(p: Phase, e: Event): Option<Move> {
    if e.DropGuard? && p.Waiting? && p.guard then Some(Move(Waiting(p.owed, false), Gauges(0, 0, -1, 0)))
    else if e.DropGuard? && p.Ended? && p.guard then Some(Move(Ended(false), Gauges(0, 0, -1, 0)))
    else if e.Late? && p.Waiting? && p.owed > 0 then Some(Move(Waiting(p.owed - 1, p.guard), Gauges(0, 0, 0, -1)))
    else if e.End? && p.Waiting? then Some(Move(Ended(p.guard), Gauges(0, 0, 0, 0 - p.owed)))
    else None
  }

  function TaskStep(c: Committee, t: Task, e: Event): Option<Move> {
    if e.Advance? then Next(c, t) else Background(t.phase, e)
  }

  /** One step of the system; `None` if it cannot happen. Every call asks all `clients`. */
  function Step(c: Committee, clients: nat, s: System, e: Event): Option<System> {
    if e.Start? then
      if |e.call.votes| == |e.call.certs| == clients then Some(s.(tasks := s.tasks + [Task(e.call, Begun)])) else None
    else if e.i >= |s.tasks| then None
    else
      var t := s.tasks[e.i];
      match TaskStep(c, t, e)
      case None => None
      case Some(move) => Some(System(s.gauges.Plus(move.delta), s.tasks[e.i := Task(t.call, move.phase)]))
  }

  function Run(c: Committee, clients: nat, s: System, es: seq<Event>): Option<System> {
    if es == [] then Some(s)
    else match Run(c, clients, s, es[..|es| - 1])
      case None => None
      case Some(t) => Step(c, clients, t, es[|es| - 1])
  }

  // ----- what a call holds

  /** What a call has added to the gauges and not taken back. */
  function Held(t: Task): Gauges {
    var (n, m) := (|t.call.votes|, |t.call.certs|);
    match t.phase
    case Begun => NOTHING
    case Entered => Gauges(1, 0, 0, 0)
    case Voting(k) => Gauges(1, n - k, 0, 0)
    case Unwinding(k) => Gauges(1, n - k, 0, 0)
    case Panicked(k) => Gauges(0, n - k, 0, 0)
    case VotesClosed => Gauges(1, 0, 0, 0)
    case Between => NOTHING
    case CertEntered => Gauges(0, 0, 1, 0)
    case Certifying(k) => Gauges(0, 0, 1, m - k)
    case Bailing(lost) => Gauges(0, 0, 1, lost)
    case Bailed(lost) => Gauges(0, 0, 0, lost)
    case Waiting(owed, guard) => Gauges(0, 0, if guard then 1 else 0, owed)
    case Ended(guard) => Gauges(0, 0, if guard then 1 else 0, 0)
  }

  function AllHeld(tasks: seq<Task>): Gauges {
    if tasks == [] then NOTHING else AllHeld(tasks[..|tasks| - 1]).Plus(Held(tasks[|tasks| - 1]))
  }

  /** Each step of a call changes the gauges by exactly the change in what it holds. */
  lemma StepHolds(c: Committee, t: Task, e: Event)
    requires TaskStep(c, t, e).Some?
    ensures Held(t).Plus(TaskStep(c, t, e).value.delta) == Held(Task(t.call, TaskStep(c, t, e).value.phase))
  {
    hide Next, Background, Held;
    if e.Advance? { NextHolds(c, t); } else { BackgroundHolds(t, e); }
  }

  lemma BackgroundHolds(t: Task, e: Event)
    requires Background(t.phase, e).Some?
    ensures Held(t).Plus(Background(t.phase, e).value.delta) == Held(Task(t.call, Background(t.phase, e).value.phase))
  {
  }

  lemma NextHolds(c: Committee, t: Task)
    requires Next(c, t).Some?
    ensures Held(t).Plus(Next(c, t).value.delta) == Held(Task(t.call, Next(c, t).value.phase))
  {
    hide VotingGoesOn, CertifyingGoesOn, HasEffects, EffectStake, CertificateFrom;
    match t.phase
    case Voting(k) =>
    case Certifying(k) =>
    case _ =>
  }

  lemma {:induction false} HeldUpdate(tasks: seq<Task>, i: nat, t: Task, delta: Gauges)
    requires i < |tasks| && Held(tasks[i]).Plus(delta) == Held(t)
    ensures AllHeld(tasks[i := t]) == AllHeld(tasks).Plus(delta)
  {
    hide Held;
    var n := |tasks| - 1;
    if i < n {
      HeldUpdate(tasks[..n], i, t, delta);
      assert tasks[i := t][..n] == tasks[..n][i := t];
    } else {
      assert tasks[i := t][..n] == tasks[..n];
    }
  }

  lemma HeldAppend(tasks: seq<Task>, t: Task)
    ensures AllHeld(tasks + [t]) == AllHeld(tasks).Plus(Held(t))
  {
    assert (tasks + [t])[..|tasks|] == tasks;
  }

  lemma NobodyHolds()
    ensures AllHeld([]) == NOTHING
  {
  }

  // ----- how far a call has read

  ghost predicate PhaseInv(c: Committee, t: Task) {
    var (votes, certs) := (t.call.votes, t.call.certs);
    match t.phase
    case Voting(k) => k <= |votes| && forall j | 0 < j < k :: !VotesSuffice(c, votes[..j])
    case Unwinding(k) => VotesRead(c, votes, k) && CertificateFrom(c, votes[..k], t.call.aggregates).None?
    case Panicked(k) => VotesRead(c, votes, k) && CertificateFrom(c, votes[..k], t.call.aggregates).None?
    case Certifying(k) => k <= |certs| && forall j | 0 < j < k :: EffectStake(c, certs[..j]) < c.quorum
    case Bailing(lost) => !EnoughEffects(c, certs) && lost == Leak(c, certs)
    case Bailed(lost) => !EnoughEffects(c, certs) && lost == Leak(c, certs)
    case Waiting(_, _) => EnoughEffects(c, certs)
    case Ended(_) => EnoughEffects(c, certs)
    case _ => true
  }

  lemma StepReads(c: Committee, t: Task, e: Event)
    requires PhaseInv(c, t) && TaskStep(c, t, e).Some?
    ensures PhaseInv(c, Task(t.call, TaskStep(c, t, e).value.phase))
  {
    hide EffectStake, VotesSuffice, EnoughEffects, Leak, CertificateFrom;
    if t.phase.Certifying? && e.Advance? && !CertifyingGoesOn(c, t.call, t.phase.k) {
      var k := t.phase.k;
      StopDecides(c, t.call.certs, k);
      assert HasEffects(t.call.certs[..k]) <==> exists i :: 0 <= i < k && t.call.certs[i].Effects? by {
        assert forall i | 0 <= i < k :: t.call.certs[..k][i] == t.call.certs[i];
      }
    }
  }

  // ----- every run

  ghost predicate Accounted(c: Committee, base: Gauges, s: System) {
    s.gauges == base.Plus(AllHeld(s.tasks)) && forall i | 0 <= i < |s.tasks| :: PhaseInv(c, s.tasks[i])
  }

  lemma StepAccounted(c: Committee, clients: nat, base: Gauges, s: System, e: Event)
    requires Accounted(c, base, s) && Step(c, clients, s, e).Some?
    ensures Accounted(c, base, Step(c, clients, s, e).value)
  {
    hide PhaseInv, Held, AllHeld, TaskStep;
    if e.Start? {
      var t := Task(e.call, Begun);
      HeldAppend(s.tasks, t);
      BegunHolds(c, t);
    } else {
      var t := s.tasks[e.i];
      var move := TaskStep(c, t, e).value;
      StepHolds(c, t, e);
      StepReads(c, t, e);
      HeldUpdate(s.tasks, e.i, Task(t.call, move.phase), move.delta);
    }
  }

  lemma BegunHolds(c: Committee, t: Task)
    requires t.phase == Begun
    ensures Held(t) == NOTHING && PhaseInv(c, t)
  {
  }

  /** At any moment of any run the gauges show exactly what the calls in progress hold. */
  lemma {:induction false} RunAccounted(c: Committee, clients: nat, base: Gauges, es: seq<Event>)
    requires Run(c, clients, System(base, []), es).Some?
    ensures Accounted(c, base, Run(c, clients, System(base, []), es).value)
    decreases |es|
  {
    hide Step;
    if es != [] {
      var n := |es| - 1;
      RunAccounted(c, clients, base, es[..n]);
      StepAccounted(c, clients, base, Run(c, clients, System(base, []), es[..n]).value, es[n]);
    }
  }

  /** Nothing of the call is left to happen. */
  predicate AtRest(t: Task) {
    t.phase.Panicked? || t.phase.Bailed? || t.phase == Ended(false)
  }

  ghost predicate AtRestUnharmed(c: Committee, t: Task) {
    PhaseInv(c, t) && AtRest(t) && !t.phase.Panicked?
  }

  lemma RestHolds(c: Committee, t: Task)
    requires c.quorum > 0 && AtRestUnharmed(c, t)
    ensures Held(t) == NOTHING
  {
    hide EnoughEffects, VotesSuffice, EffectStake;
  }

  lemma {:induction false} RestHoldsNothing(c: Committee, tasks: seq<Task>)
    requires c.quorum > 0
    requires forall i | 0 <= i < |tasks| :: AtRestUnharmed(c, tasks[i])
    ensures AllHeld(tasks) == NOTHING
  {
    hide AtRestUnharmed, Held, AllHeld;
    if tasks == [] {
      NobodyHolds();
    } else {
      var init, last := tasks[..|tasks| - 1], tasks[|tasks| - 1];
      RestHoldsNothing(c, init);
      RestHolds(c, last);
      assert tasks == init + [last];
      HeldAppend(init, last);
    }
  }

  // ----- every call can finish

  /** A call can start at any time; a background wait takes a late reply exactly while it is owed one. */
  lemma StartsAndLateReplies(c: Committee, clients: nat, s: System, call: Call, i: nat)
    ensures Step(c, clients, s, Start(call)) ==
            if |call.votes| == clients && |call.certs| == clients
            then Some(System(s.gauges, s.tasks + [Task(call, Begun)]))
            else None
    ensures Step(c, clients, s, Event.Late(i)).Some? <==>
            i < |s.tasks| && s.tasks[i].phase.Waiting? && s.tasks[i].phase.owed > 0
  {
  }

  /** How much a call has left to do. */
  function Left(t: Task): int {
    var (n, m) := (|t.call.votes|, |t.call.certs|);
    match t.phase
    case Begun => n + m + 12
    case Entered => n + m + 11
    case Voting(k) => n - k + m + 10
    case Unwinding(_) => 1
    case Panicked(_) => 0
    case VotesClosed => m + 9
    case Between => m + 8
    case CertEntered => m + 7
    case Certifying(k) => m - k + 6
    case Bailing(_) => 1
    case Bailed(_) => 0
    case Waiting(_, guard) => if guard then 3 else 2
    case Ended(guard) => if guard then 1 else 0
  }

  lemma NextDoes(c: Committee, t: Task, i: nat) returns (e: Event)
    requires PhaseInv(c, t) && !AtRest(t)
    ensures !e.Start? && e.i == i && TaskStep(c, t, e).Some?
    ensures 0 <= Left(Task(t.call, TaskStep(c, t, e).value.phase)) < Left(t)
  {
    hide VotesSuffice, EffectStake, EnoughEffects, Leak, CertificateFrom, HasEffects;
    e := if t.phase.Waiting? then Event.End(i) else if t.phase.Ended? then DropGuard(i) else Advance(i);
  }

  ghost predicate AllInv(c: Committee, s: System) {
    forall i | 0 <= i < |s.tasks| :: PhaseInv(c, s.tasks[i])
  }

  lemma {:induction false} RunFrom(c: Committee, clients: nat, s: System, e: Event, es: seq<Event>)
    requires Step(c, clients, s, e).Some?
    ensures Run(c, clients, s, [e] + es) == Run(c, clients, Step(c, clients, s, e).value, es)
  {
    hide Step;
    if es == [] {
      assert [e] + es == [e] && [e][..0] == [];
    } else {
      var n := |es| - 1;
      RunFrom(c, clients, s, e, es[..n]);
      assert ([e] + es)[..|es|] == [e] + es[..n];
    }
  }

  lemma RunNothing(c: Committee, clients: nat, s: System)
    ensures Run(c, clients, s, []) == Some(s)
  {
  }

  /** Whatever the other calls are doing, a call can go on, on its own, until it is at rest. */
  lemma {:induction false} CallFinishes(c: Committee, clients: nat, s: System, i: nat) returns (es: seq<Event>)
    requires AllInv(c, s) && i < |s.tasks|
    ensures Run(c, clients, s, es).Some?
    ensures var d := Run(c, clients, s, es).value;
            && |d.tasks| == |s.tasks| && AtRest(d.tasks[i]) && d.tasks[i].call == s.tasks[i].call
            && forall j | 0 <= j < |s.tasks| && j != i :: d.tasks[j] == s.tasks[j]
    decreases Left(s.tasks[i])
  {
    hide PhaseInv, TaskStep, AtRest, Left;
    if AtRest(s.tasks[i]) {
      RunNothing(c, clients, s);
      es := [];
    } else {
      var e := NextDoes(c, s.tasks[i], i);
      StepReads(c, s.tasks[i], e);
      var next := Step(c, clients, s, e).value;
      assert AllInv(c, next);
      var rest := CallFinishes(c, clients, next, i);
      RunFrom(c, clients, s, e, rest);
      es := [e] + rest;
    }
  }

  /** With a positive quorum and no panic, all four gauges are back where they started once every call is at rest,
      however the calls interleaved. */
  lemma GaugesReturn(c: Committee, clients: nat, base: Gauges, es: seq<Event>)
    requires c.quorum > 0 && Run(c, clients, System(base, []), es).Some?
    requires forall t <- Run(c, clients, System(base, []), es).value.tasks :: AtRest(t) && !t.phase.Panicked?
    ensures Run(c, clients, System(base, []), es).value.gauges == base
  {
    RunAccounted(c, clients, base, es);
    var s := Run(c, clients, System(base, []), es).value;
    hide PhaseInv, AtRest;
    forall i | 0 <= i < |s.tasks| ensures AtRestUnharmed(c, s.tasks[i]) { assert s.tasks[i] in s.tasks; }
    RestHoldsNothing(c, s.tasks);
  }

  /** A call that ended well had replies with effects from quorum stake, and one that bailed out did not. */
  lemma EndedExactly(c: Committee, clients: nat, base: Gauges, es: seq<Event>, i: nat)
    requires Run(c, clients, System(base, []), es).Some? && i < |Run(c, clients, System(base, []), es).value.tasks|
    ensures var t := Run(c, clients, System(base, []), es).value.tasks[i];
            && (t.phase.Waiting? || t.phase.Ended? ==> EnoughEffects(c, t.call.certs))
            && (t.phase.Bailed? ==> !EnoughEffects(c, t.call.certs) && t.phase.lost == Leak(c, t.call.certs))
  {
    RunAccounted(c, clients, base, es);
    var t := Run(c, clients, System(base, []), es).value.tasks[i];
    assert PhaseInv(c, t);
  }
}
