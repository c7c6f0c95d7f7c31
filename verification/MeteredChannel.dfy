/** The metered channel: a bounded channel whose gauge is updated in a step of its own, with reservable permits. Any
    number of sender tasks and one receiver interleave freely. */
module MeteredChannel {
  import opened Options

  /** What a sender task is in the middle of. The gauge is incremented when leaving `Sending` and `Reserving`, and
      decremented when entering `Dropping`; a slot of the channel is held in `Reserving`, `Holding` and `Dropping`. */
  datatype Phase = Idle | Sending | Reserving | Holding | Dropping

  /** The receiver after taking an item: first the gauge is decremented, then the total is incremented. */
  datatype ReceiverPhase = Waiting | ToDecrement | ToCount

  /** `sent` and `received` record every item put into and taken out of the channel, in order. */
  datatype Channel<T> = Channel(
    size: nat,
    queue: seq<T>,
    closed: bool,
    tasks: seq<Phase>,
    receiver: ReceiverPhase,
    gauge: int,
    total: Option<nat>,
    sent: seq<T>,
    received: seq<T>
  )

  datatype Event<T> = Enqueue(task: nat, item: T)
                    | IncrementSent(task: nat)
                    | Reserve(task: nat)
                    | IncrementReserved(task: nat)
                    | SendWithPermit(task: nat, item: T)
                    | DecrementDropped(task: nat)
                    | ReleaseSlot(task: nat)
                    | Take
                    | DecrementTaken
                    | CountTaken
                    | Close

  // ----- counting tasks

  function Count(tasks: seq<Phase>, p: Phase): nat {
    if tasks == [] then 0 else (if tasks[0] == p then 1 else 0) + Count(tasks[1..], p)
  }

  function Slots(tasks: seq<Phase>): nat {
    Count(tasks, Reserving) + Count(tasks, Holding) + Count(tasks, Dropping)
  }

  lemma {:induction false} CountUpdate(tasks: seq<Phase>, i: nat, q: Phase, p: Phase)
    requires i < |tasks|
    ensures Count(tasks[i := q], p) == Count(tasks, p) - (if tasks[i] == p then 1 else 0) + (if q == p then 1 else 0)
  {
    if i > 0 {
      assert tasks[i := q][1..] == tasks[1..][i - 1 := q];
      CountUpdate(tasks[1..], i - 1, q, p);
    } else {
      assert tasks[i := q][1..] == tasks[1..];
    }
  }

  lemma CountUpdates(tasks: seq<Phase>, i: nat, q: Phase)
    requires i < |tasks|
    ensures forall p ::
        Count(tasks[i := q], p) == Count(tasks, p) - (if tasks[i] == p then 1 else 0) + (if q == p then 1 else 0)
  {
    forall p
      ensures
        Count(tasks[i := q], p) == Count(tasks, p) - (if tasks[i] == p then 1 else 0) + (if q == p then 1 else 0)
    {
      CountUpdate(tasks, i, q, p);
    }
  }

  lemma {:induction false} CountNone(tasks: seq<Phase>, p: Phase)
    ensures p !in tasks <==> Count(tasks, p) == 0
  {
    if tasks != [] {
      CountNone(tasks[1..], p);
      assert tasks == [tasks[0]] + tasks[1..];
    }
  }

  // ----- steps

  /** `channel` and `channel_with_total`: the gauge starts at 0, the total where its counter already is. */
  function Create<T>(size: nat, senders: nat, total: Option<nat>): Channel<T> {
    Channel(size, [], false, seq(senders, _ => Idle), Waiting, 0, total, [], [])
  }

  /** `Sender::capacity`. */
  function Capacity<T>(c: Channel<T>): int {
    c.size - |c.queue| - Slots(c.tasks)
  }

  predicate In<T>(c: Channel<T>, task: nat, p: Phase) {
    task < |c.tasks| && c.tasks[task] == p
  }

  /** One atomic step; `None` if it cannot happen now (a full or closed channel, an empty queue, a task elsewhere). */
  function Step<T>(c: Channel<T>, e: Event<T>): Option<Channel<T>> {
    match e
    case Enqueue(i, item) =>
      if !In(c, i, Idle) || c.closed || Capacity(c) <= 0 then None
      else Some(c.(tasks := c.tasks[i := Sending], queue := c.queue + [item], sent := c.sent + [item]))
    case IncrementSent(i) =>
      if !In(c, i, Sending) then None else Some(c.(tasks := c.tasks[i := Idle], gauge := c.gauge + 1))
    case Reserve(i) =>
      if !In(c, i, Idle) || c.closed || Capacity(c) <= 0 then None else Some(c.(tasks := c.tasks[i := Reserving]))
    case IncrementReserved(i) =>
      if !In(c, i, Reserving) then None else Some(c.(tasks := c.tasks[i := Holding], gauge := c.gauge + 1))
    case SendWithPermit(i, item) =>
      if !In(c, i, Holding) then None
      else Some(c.(tasks := c.tasks[i := Idle], queue := c.queue + [item], sent := c.sent + [item]))
    case DecrementDropped(i) =>
      if !In(c, i, Holding) then None else Some(c.(tasks := c.tasks[i := Dropping], gauge := c.gauge - 1))
    case ReleaseSlot(i) =>
      if !In(c, i, Dropping) then None else Some(c.(tasks := c.tasks[i := Idle]))
    case Take =>
      if c.receiver != Waiting || c.queue == [] then None
      else Some(c.(receiver := ToDecrement, queue := c.queue[1..], received := c.received + [c.queue[0]]))
    case DecrementTaken =>
      if c.receiver != ToDecrement then None else Some(c.(receiver := ToCount, gauge := c.gauge - 1))
    case CountTaken =>
      if c.receiver != ToCount then None
      else Some(c.(receiver := Waiting, total := if c.total.Some? then Some(c.total.value + 1) else None))
    case Close => Some(c.(closed := true))
  }

  function Run<T>(c: Channel<T>, es: seq<Event<T>>): Option<Channel<T>> {
    if es == [] then Some(c)
    else match Run(c, es[..|es| - 1])
      case None => None
      case Some(d) => Step(d, es[|es| - 1])
  }

  // ----- accounting

  /** Items queued plus slots held: what the gauge is meant to show. */
  function Occupancy<T>(c: Channel<T>): nat {
    |c.queue| + Slots(c.tasks)
  }

  /** Gauge updates still to come: decrements minus increments. */
  function Pending<T>(c: Channel<T>): int {
    (if c.receiver == ToDecrement then 1 else 0)
    - Count(c.tasks, Sending) - Count(c.tasks, Reserving) - Count(c.tasks, Dropping)
  }

  /** The accounting equation, the capacity bound, first-in-first-out delivery, and the total (counted from
      `total0`). */
  ghost predicate Accounted<T>(c: Channel<T>, total0: Option<nat>) {
    && c.gauge == Occupancy(c) + Pending(c)
    && Occupancy(c) <= c.size
    && c.sent == c.received + c.queue
    && (c.total.Some? <==> total0.Some?)
    && (c.total.Some? ==> c.total.value + (if c.receiver == Waiting then 0 else 1) == total0.value + |c.received|)
  }

  lemma NobodyBusy(senders: nat)
    ensures var tasks: seq<Phase> := seq(senders, _ => Idle); forall p | p != Idle :: Count(tasks, p) == 0
  {
    var tasks: seq<Phase> := seq(senders, _ => Idle);
    forall p | p != Idle ensures Count(tasks, p) == 0 { CountNone(tasks, p); }
  }

  lemma CreateAccounted<T>(size: nat, senders: nat, total0: Option<nat>)
    ensures Accounted(Create<T>(size, senders, total0), total0)
  {
    var tasks: seq<Phase> := seq(senders, _ => Idle);
    assert Create<T>(size, senders, total0).tasks == tasks;
    NobodyBusy(senders);
  }

  lemma SendStepAccounted<T>(c: Channel<T>, e: Event<T>, total0: Option<nat>)
    requires Accounted(c, total0) && Step(c, e).Some?
    requires e.Enqueue? || e.IncrementSent? || e.Reserve? || e.IncrementReserved?
    ensures Accounted(Step(c, e).value, total0) && Step(c, e).value.size == c.size
  {
    hide Count;
    match e
    case Enqueue(i, _) => CountUpdates(c.tasks, i, Sending);
    case IncrementSent(i) => CountUpdates(c.tasks, i, Idle);
    case Reserve(i) => CountUpdates(c.tasks, i, Reserving);
    case IncrementReserved(i) => CountUpdates(c.tasks, i, Holding);
  }

  lemma PermitStepAccounted<T>(c: Channel<T>, e: Event<T>, total0: Option<nat>)
    requires Accounted(c, total0) && Step(c, e).Some? && (e.SendWithPermit? || e.DecrementDropped? || e.ReleaseSlot?)
    ensures Accounted(Step(c, e).value, total0) && Step(c, e).value.size == c.size
  {
    hide Count;
    match e
    case SendWithPermit(i, _) => CountUpdates(c.tasks, i, Idle);
    case DecrementDropped(i) => CountUpdates(c.tasks, i, Dropping);
    case ReleaseSlot(i) => CountUpdates(c.tasks, i, Idle);
  }

  lemma ReceiverStepAccounted<T>(c: Channel<T>, e: Event<T>, total0: Option<nat>)
    requires Accounted(c, total0) && Step(c, e).Some? && (e.Take? || e.DecrementTaken? || e.CountTaken? || e.Close?)
    ensures Accounted(Step(c, e).value, total0) && Step(c, e).value.size == c.size
  {
    hide Count;
    if e.Take? { assert c.queue == [c.queue[0]] + c.queue[1..]; }
  }

  /** Every step keeps the accounting. */
  lemma StepAccounted<T>(c: Channel<T>, e: Event<T>, total0: Option<nat>)
    requires Accounted(c, total0) && Step(c, e).Some?
    ensures Accounted(Step(c, e).value, total0) && Step(c, e).value.size == c.size
  {
    hide Accounted, Step;
    if e.Enqueue? || e.IncrementSent? || e.Reserve? || e.IncrementReserved? {
      SendStepAccounted(c, e, total0);
    } else if e.SendWithPermit? || e.DecrementDropped? || e.ReleaseSlot? {
      PermitStepAccounted(c, e, total0);
    } else {
      ReceiverStepAccounted(c, e, total0);
    }
  }

  /** Accounting holds after every interleaving of any number of senders with the receiver. */
  lemma {:induction false} RunAccounted<T>(size: nat, senders: nat, total0: Option<nat>, es: seq<Event<T>>)
    requires Run(Create<T>(size, senders, total0), es).Some?
    ensures Accounted(Run(Create<T>(size, senders, total0), es).value, total0)
    ensures Run(Create<T>(size, senders, total0), es).value.size == size
    decreases |es|
  {
    var c := Create<T>(size, senders, total0);
    if es == [] {
      CreateAccounted<T>(size, senders, total0);
    } else {
      RunAccounted(size, senders, total0, es[..|es| - 1]);
      StepAccounted(Run(c, es[..|es| - 1]).value, es[|es| - 1], total0);
    }
  }

  // ----- consequences

  /** No gauge or total update is outstanding. */
  predicate AtRest<T>(c: Channel<T>) {
    c.receiver == Waiting && Sending !in c.tasks && Reserving !in c.tasks && Dropping !in c.tasks
  }

  /** At rest the gauge is the number of queued items and held permits, and within the channel size; with a total,
      every send so far was either counted as received or is still queued. */
  lemma GaugeAtRest<T>(size: nat, senders: nat, total0: Option<nat>, es: seq<Event<T>>)
    requires Run(Create<T>(size, senders, total0), es).Some? && AtRest(Run(Create<T>(size, senders, total0), es).value)
    ensures var c := Run(Create<T>(size, senders, total0), es).value;
            && c.gauge == |c.queue| + Count(c.tasks, Holding)
            && 0 <= c.gauge <= size
            && (total0.Some? ==> c.total.Some? && |c.sent| == (c.total.value - total0.value) + |c.queue|)
  {
    RunAccounted(size, senders, total0, es);
    var tasks := Run(Create<T>(size, senders, total0), es).value.tasks;
    CountNone(tasks, Sending);
    CountNone(tasks, Reserving);
    CountNone(tasks, Dropping);
  }

  /** At any moment: the gauge shows the occupancy exactly when the outstanding updates cancel, it is never more than
      one above the channel size, and it is below zero exactly when more senders have still to count their item than
      there are items queued, permits held and items taken but not yet taken off. */
  lemma GaugeAnytime<T>(size: nat, senders: nat, total0: Option<nat>, es: seq<Event<T>>)
    requires Run(Create<T>(size, senders, total0), es).Some?
    ensures var c := Run(Create<T>(size, senders, total0), es).value;
            && (c.gauge == Occupancy(c) <==>
                  (if c.receiver == ToDecrement then 1 else 0)
                      == Count(c.tasks, Sending) + Count(c.tasks, Reserving) + Count(c.tasks, Dropping))
            && c.gauge <= size + 1
            && (c.gauge < 0 <==>
                  Count(c.tasks, Sending) > |c.queue| + Count(c.tasks, Holding)
                      + if c.receiver == ToDecrement then 1 else 0)
            && c.received <= c.sent
  {
    RunAccounted(size, senders, total0, es);
  }

  // ----- what can happen when

  /** An item or a reservation is taken in exactly by an idle task, on an open channel, with a slot to spare; items come
      out exactly when there are some; a held permit can be used or dropped even after closing. */
  lemma PossibleExactly<T>(c: Channel<T>, i: nat, item: T)
    ensures var idle := i < |c.tasks| && c.tasks[i] == Idle;
            var room := !c.closed && |c.queue| + Slots(c.tasks) < c.size;
            && (Step(c, Enqueue(i, item)).Some? <==> idle && room)
            && (Step(c, Reserve(i)).Some? <==> idle && room)
    ensures var holding := i < |c.tasks| && c.tasks[i] == Holding;
            && (Step(c, SendWithPermit(i, item)).Some? <==> holding)
            && (Step(c, DecrementDropped(i)).Some? <==> holding)
    ensures Step(c, Take).Some? <==> c.receiver == Waiting && c.queue != []
    ensures Step(c, Close).Some? && Step(c, Close).value == c.(closed := true)
  {
  }

  /** Permits that are out, counted or not. */
  function Permits<T>(c: Channel<T>): nat {
    Count(c.tasks, Reserving) + Count(c.tasks, Holding)
  }

  /** Once closed, always closed; whatever happens, no more can be sent than there are permits out. */
  lemma {:induction false} ClosedForGood<T>(c: Channel<T>, es: seq<Event<T>>)
    requires c.closed && Run(c, es).Some?
    ensures var d := Run(c, es).value; d.closed && |d.sent| + Permits(d) <= |c.sent| + Permits(c)
  {
    if es != [] {
      var n := |es| - 1;
      ClosedForGood(c, es[..n]);
      ClosedStep(Run(c, es[..n]).value, es[n]);
    }
  }

  lemma ClosedStep<T>(c: Channel<T>, e: Event<T>)
    requires c.closed && Step(c, e).Some?
    ensures var d := Step(c, e).value; d.closed && |d.sent| + Permits(d) <= |c.sent| + Permits(c)
  {
    hide Count;
    match e
    case IncrementSent(i) => CountUpdates(c.tasks, i, Idle);
    case IncrementReserved(i) => CountUpdates(c.tasks, i, Holding);
    case SendWithPermit(i, _) => CountUpdates(c.tasks, i, Idle);
    case DecrementDropped(i) => CountUpdates(c.tasks, i, Dropping);
    case ReleaseSlot(i) => CountUpdates(c.tasks, i, Idle);
    case _ =>
  }

  // ----- coming to rest

  /** Updates still to be made. */
  function Busy<T>(c: Channel<T>): nat {
    Count(c.tasks, Sending) + Count(c.tasks, Reserving) + Count(c.tasks, Dropping)
    + match c.receiver case Waiting => 0 case ToDecrement => 2 case ToCount => 1
  }

  predicate IsUpdate<T>(e: Event<T>) {
    e.IncrementSent? || e.IncrementReserved? || e.ReleaseSlot? || e.DecrementTaken? || e.CountTaken?
  }

  lemma {:induction false} RunFrom<T>(c: Channel<T>, e: Event<T>, es: seq<Event<T>>)
    requires Step(c, e).Some?
    ensures Run(c, [e] + es) == Run(Step(c, e).value, es)
  {
    hide Step;
    if es == [] {
      assert [e] + es == [e] && [e][..0] == [];
    } else {
      var n := |es| - 1;
      RunFrom(c, e, es[..n]);
      assert ([e] + es)[..|es|] == [e] + es[..n];
    }
  }

  /** Some update can be made, unless all are. */
  lemma NextUpdate<T>(c: Channel<T>) returns (e: Event<T>)
    requires !AtRest(c)
    ensures IsUpdate(e) && Step(c, e).Some? && Busy(Step(c, e).value) < Busy(c)
    ensures var d := Step(c, e).value;
            d.queue == c.queue && d.sent == c.sent && d.received == c.received && d.closed == c.closed
  {
    hide Count;
    if c.receiver == ToDecrement {
      e := DecrementTaken;
    } else if c.receiver == ToCount {
      e := CountTaken;
    } else if i: nat :| i < |c.tasks| && c.tasks[i] == Sending {
      e := IncrementSent(i);
      CountUpdates(c.tasks, i, Idle);
    } else if i: nat :| i < |c.tasks| && c.tasks[i] == Reserving {
      e := IncrementReserved(i);
      CountUpdates(c.tasks, i, Holding);
    } else {
      var i: nat :| i < |c.tasks| && c.tasks[i] == Dropping;
      e := ReleaseSlot(i);
      CountUpdates(c.tasks, i, Idle);
    }
  }

  /** From any state the outstanding updates alone, needing nothing from anyone, bring the channel to rest, with the
      items as they are. */
  lemma {:induction false} ComesToRest<T>(c: Channel<T>) returns (es: seq<Event<T>>)
    ensures (forall e <- es :: IsUpdate(e)) && Run(c, es).Some? && AtRest(Run(c, es).value)
    ensures var d := Run(c, es).value;
            d.queue == c.queue && d.sent == c.sent && d.received == c.received && d.closed == c.closed
    decreases Busy(c)
  {
    if AtRest(c) {
      es := [];
    } else {
      hide Step, Busy, AtRest;
      var e := NextUpdate(c);
      var rest := ComesToRest(Step(c, e).value);
      RunFrom(c, e, rest);
      es := [e] + rest;
    }
  }

  /** The gauge does go below zero: the receiver can take and count an item before its sender has counted it. */
  lemma GaugeCanBeNegative(size: nat, item: int)
    requires size > 0
    ensures var c := Run(Create<int>(size, 1, None), [Enqueue(0, item), Take, DecrementTaken]);
            c.Some? && c.value.gauge == -1
  {
    var c0 := Create<int>(size, 1, None);
    var tasks: seq<Phase> := seq(1, _ => Idle);
    assert c0.tasks == tasks;
    NobodyBusy(1);
    var es := [Enqueue(0, item), Take, DecrementTaken];
    assert es[..2] == [Enqueue(0, item), Take] && es[..2][..1] == [Enqueue(0, item)] && es[..2][..1][..0] == [];
    var c1 := Step(c0, Enqueue(0, item)).value;
    var c2 := Step(c1, Take).value;
    assert Run(c0, es[..2][..1]) == Some(c1);
    assert Run(c0, es[..2]) == Some(c2);
  }
}
