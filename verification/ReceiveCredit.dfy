/** Receive-window credit of streaming responses: the application's consumer threads queue
    credit, a coalesced wakeup tells the connection's worker, and the worker applies whole
    batches. The steps are the critical sections and the system calls between them. */
module ReceiveCredit {

  type StreamId = int

  datatype Credit = Credit(stream: StreamId, bytes: nat)

  type Amounts = map<StreamId, nat>

  function At(m: Amounts, stream: StreamId): nat { if stream in m then m[stream] else 0 }

  function Plus(m: Amounts, credit: Credit): Amounts {
    m[credit.stream := At(m, credit.stream) + credit.bytes]
  }

  function Total(credits: seq<Credit>): nat {
    if credits == [] then 0 else credits[0].bytes + Total(credits[1..])
  }

  function TotalFor(credits: seq<Credit>, stream: StreamId): nat {
    if credits == [] then 0
    else (if credits[0].stream == stream then credits[0].bytes else 0) + TotalFor(credits[1..], stream)
  }

  lemma {:induction false} TotalsAppend(a: seq<Credit>, b: seq<Credit>, stream: StreamId)
    ensures Total(a + b) == Total(a) + Total(b)
    ensures TotalFor(a + b, stream) == TotalFor(a, stream) + TotalFor(b, stream)
  {
    if a == [] {
      assert a + b == b;
    } else {
      assert (a + b)[1..] == a[1..] + b;
      TotalsAppend(a[1..], b, stream);
    }
  }

  lemma TotalsOne(credit: Credit, stream: StreamId)
    ensures Total([credit]) == credit.bytes
    ensures TotalFor([credit], stream) == if credit.stream == stream then credit.bytes else 0
  {
  }

  // ---------------------------------------------------------------- sums over streams

  ghost function AnyOf<T>(s: set<T>): (x: T)
    requires |s| > 0
    ensures x in s
  {
    var x :| x in s;
    x
  }

  method PickOne<T(==)>(s: set<T>) returns (x: T)
    requires |s| > 0
    ensures x in s
  {
    x :| x in s;
  }

  ghost function Sum(m: Amounts): nat
    decreases |m|
  {
    if |m| == 0 then 0
    else
      var stream := AnyOf(m.Keys);
      m[stream] + Sum(m - {stream})
  }

  lemma SumUnfold(m: Amounts)
    requires |m| > 0
    ensures var stream := AnyOf(m.Keys); Sum(m) == m[stream] + Sum(m - {stream})
  {
  }

  lemma {:induction false} SumWithout(m: Amounts, stream: StreamId)
    requires stream in m
    ensures Sum(m) == m[stream] + Sum(m - {stream})
    decreases |m|
  {
    hide Sum, AnyOf;
    var chosen := AnyOf(m.Keys);
    SumUnfold(m);
    if chosen != stream {
      SumWithout(m - {chosen}, stream);
      SumWithout(m - {stream}, chosen);
      assert m - {chosen} - {stream} == m - {stream} - {chosen};
    }
  }

  lemma SumPlus(m: Amounts, credit: Credit)
    ensures Sum(Plus(m, credit)) == Sum(m) + credit.bytes
  {
    hide Sum;
    var stream := credit.stream;
    var n := Plus(m, credit);
    SumWithout(n, stream);
    assert n - {stream} == m - {stream};
    if stream in m { SumWithout(m, stream); }
    else { assert m - {stream} == m; }
  }

  // ---------------------------------------------------------------- applying a batch

  function Applied(m: Amounts, credits: seq<Credit>): Amounts
    decreases |credits|
  {
    if credits == [] then m else Applied(Plus(m, credits[0]), credits[1..])
  }

  lemma {:induction false} AppliedAt(m: Amounts, credits: seq<Credit>, stream: StreamId)
    ensures At(Applied(m, credits), stream) == At(m, stream) + TotalFor(credits, stream)
    ensures Sum(Applied(m, credits)) == Sum(m) + Total(credits)
    decreases |credits|
  {
    if credits != [] {
      SumPlus(m, credits[0]);
      AppliedAt(Plus(m, credits[0]), credits[1..], stream);
    }
  }

  lemma {:induction false} AppliedAppend(m: Amounts, a: seq<Credit>, b: seq<Credit>)
    ensures Applied(m, a + b) == Applied(Applied(m, a), b)
    decreases |a|
  {
    if a == [] {
      assert a + b == b;
    } else {
      assert (a + b)[1..] == a[1..] + b;
      AppliedAppend(Plus(m, a[0]), a[1..], b);
    }
  }

  /** Adds up a batch per stream. The connection gets as much as its streams together. */
  method CollectCredit(pending: seq<Credit>) returns (streamCredit: Amounts, connectionCredit: nat)
    ensures forall stream :: At(streamCredit, stream) == TotalFor(pending, stream)
    ensures connectionCredit == Total(pending) == Sum(streamCredit)
  {
    hide Total, TotalFor, Sum, Applied;
    streamCredit, connectionCredit := map[], 0;
    var i := 0;
    assert pending[..0] == [];
    NothingYet();
    while i < |pending|
      invariant i <= |pending|
      invariant streamCredit == Applied(map[], pending[..i])
      invariant connectionCredit == Total(pending[..i])
    {
      assert pending[..i + 1] == pending[..i] + [pending[i]];
      AppliedAppend(map[], pending[..i], [pending[i]]);
      AppliedOne(streamCredit, pending[i]);
      TotalsAppend(pending[..i], [pending[i]], 0);
      TotalsOne(pending[i], 0);
      streamCredit := Plus(streamCredit, pending[i]);
      connectionCredit := connectionCredit + pending[i].bytes;
      i := i + 1;
    }
    assert pending[..|pending|] == pending;
    forall stream ensures At(streamCredit, stream) == TotalFor(pending, stream) {
      AppliedAt(map[], pending, stream);
    }
    AppliedAt(map[], pending, 0);
  }

  lemma NothingYet()
    ensures Applied(map[], []) == map[] && Total([]) == 0 && Sum(map[]) == 0
  {
    var none: Amounts := map[];
    assert |none| == 0;
  }

  lemma AppliedOne(m: Amounts, credit: Credit)
    ensures Applied(m, [credit]) == Plus(m, credit)
  {
    assert Applied(Plus(m, credit), []) == Plus(m, credit);
  }

  /** Extends every stream's window by its share and the connection's by the total. */
  method ApplyBatch(pending: seq<Credit>, windows: Amounts, connection: nat)
    returns (newWindows: Amounts, newConnection: nat)
    ensures forall stream :: At(newWindows, stream) == At(windows, stream) + TotalFor(pending, stream)
    ensures newConnection == connection + Total(pending)
  {
    hide Total, TotalFor, Sum;
    var streamCredit, connectionCredit := CollectCredit(pending);
    newWindows := windows;
    var left := streamCredit.Keys;
    while |left| > 0
      invariant left <= streamCredit.Keys
      invariant forall stream :: At(newWindows, stream) ==
                  At(windows, stream) + if stream in left then 0 else At(streamCredit, stream)
      decreases |left|
    {
      var stream := PickOne(left);
      newWindows := Plus(newWindows, Credit(stream, streamCredit[stream]));
      left := left - {stream};
    }
    newConnection := connection + connectionCredit;
  }

  // ---------------------------------------------------------------- the protocol

  /** Counters of one streaming response. */
  datatype Job = Job(delivered: nat, unconsumed: nat, consumed: nat, closed: bool)

  /** The worker waits in poll, has drained the eventfd, or holds a batch. */
  datatype Worker = Polling | Drained | Applying(batch: seq<Credit>)

  /** `holding`: consumers between the job lock and the queue lock. `waking`: consumers
      that were told to wake the worker and have not written the eventfd yet. */
  datatype State = State(
    jobs: map<StreamId, Job>, holding: seq<Credit>, queue: seq<Credit>,
    flag: bool, waking: nat, signalled: bool, worker: Worker,
    applied: Amounts, connection: nat, dropped: Amounts)

  const INIT := State(map[], [], [], false, 0, false, Polling, map[], 0, map[])

  datatype Step =
    | Open(stream: StreamId)
    | Close(stream: StreamId)
    | Deliver(stream: StreamId, len: nat)
    | Consume(stream: StreamId, bytes: nat)
    | Enqueue(i: nat)
    | Wakeup
    | OtherWakeup
    | DrainEventfd
    | SwapQueue
    | ApplyCredit(connected: bool)

  predicate Enabled(s: State, step: Step) {
    match step
    case Open(stream) => stream !in s.jobs
    case Close(stream) => stream in s.jobs
    case Deliver(stream, _) => stream in s.jobs
    case Consume(stream, bytes) => stream in s.jobs && bytes > 0
    case Enqueue(i) => i < |s.holding|
    case Wakeup => s.waking > 0
    case OtherWakeup => true
    case DrainEventfd => s.worker.Polling? && s.signalled
    case SwapQueue => s.worker.Drained?
    case ApplyCredit(_) => s.worker.Applying?
  }

  function Consumed(s: State, stream: StreamId, bytes: nat): State
    requires stream in s.jobs
  {
    var job := s.jobs[stream];
    if job.closed || bytes > job.unconsumed then s
    else s.(jobs := s.jobs[stream := job.(unconsumed := job.unconsumed - bytes, consumed := job.consumed + bytes)],
            holding := s.holding + [Credit(stream, bytes)])
  }

  function Next(s: State, step: Step): State
    requires Enabled(s, step)
  {
    match step
    case Open(stream) => s.(jobs := s.jobs[stream := Job(0, 0, 0, false)])
    case Close(stream) => s.(jobs := s.jobs[stream := s.jobs[stream].(closed := true)])
    case Deliver(stream, len) =>
      var job := s.jobs[stream];
      s.(jobs := s.jobs[stream := job.(delivered := job.delivered + len, unconsumed := job.unconsumed + len)])
    case Consume(stream, bytes) => Consumed(s, stream, bytes)
    case Enqueue(i) =>
      s.(holding := s.holding[..i] + s.holding[i + 1..], queue := s.queue + [s.holding[i]],
         flag := true, waking := if s.flag then s.waking else s.waking + 1)
    case Wakeup => s.(waking := s.waking - 1, signalled := true)
    case OtherWakeup => s.(signalled := true)
    case DrainEventfd => s.(worker := Drained, signalled := false)
    case SwapQueue => s.(worker := Applying(s.queue), queue := [], flag := false)
    case ApplyCredit(connected) =>
      if connected then
        s.(worker := Polling, applied := Applied(s.applied, s.worker.batch),
           connection := s.connection + Total(s.worker.batch))
      else s.(worker := Polling, dropped := Applied(s.dropped, s.worker.batch))
  }

  function Batch(s: State): seq<Credit> { if s.worker.Applying? then s.worker.batch else [] }

  /** Credit on its way from a consumer to the windows. */
  function InFlight(s: State, stream: StreamId): nat {
    TotalFor(s.holding, stream) + TotalFor(s.queue, stream) + TotalFor(Batch(s), stream)
  }

  ghost predicate JobsBalance(s: State) {
    forall stream :: stream in s.jobs ==>
      s.jobs[stream].delivered == s.jobs[stream].consumed + s.jobs[stream].unconsumed
  }

  function ConsumedBytes(s: State, stream: StreamId): nat {
    if stream in s.jobs then s.jobs[stream].consumed else 0
  }

  ghost predicate CreditBalances(s: State, stream: StreamId) {
    ConsumedBytes(s, stream) == At(s.applied, stream) + At(s.dropped, stream) + InFlight(s, stream)
  }

  ghost predicate CreditBalancesEverywhere(s: State) {
    forall stream :: CreditBalances(s, stream)
  }

  /** The flag promises that the worker will look at the queue. */
  ghost predicate NoLostWakeup(s: State) {
    && (s.queue != [] ==> s.flag)
    && (s.flag ==> s.signalled || s.waking > 0 || s.worker.Drained?)
  }

  ghost predicate Inv(s: State) {
    && JobsBalance(s)
    && CreditBalancesEverywhere(s)
    && s.connection == Sum(s.applied)
    && NoLostWakeup(s)
  }

  lemma Initially()
    ensures Inv(INIT)
  {
    NothingYet();
  }

  lemma TotalsWithout(credits: seq<Credit>, i: nat, stream: StreamId)
    requires i < |credits|
    ensures TotalFor(credits, stream) ==
            TotalFor(credits[..i] + credits[i + 1..], stream) + TotalFor([credits[i]], stream)
  {
    hide TotalFor;
    assert credits == credits[..i] + ([credits[i]] + credits[i + 1..]);
    TotalsAppend(credits[..i], [credits[i]] + credits[i + 1..], stream);
    TotalsAppend([credits[i]], credits[i + 1..], stream);
    TotalsAppend(credits[..i], credits[i + 1..], stream);
  }

  lemma StepKeepsJobs(s: State, step: Step)
    requires JobsBalance(s) && Enabled(s, step)
    ensures JobsBalance(Next(s, step))
  {
    hide Applied, Total;
  }

  lemma ConsumeKeepsCredit(s: State, stream: StreamId, bytes: nat, other: StreamId)
    requires stream in s.jobs && CreditBalances(s, other)
    ensures CreditBalances(Consumed(s, stream, bytes), other)
  {
    hide TotalFor;
    TotalsAppend(s.holding, [Credit(stream, bytes)], other);
    TotalsOne(Credit(stream, bytes), other);
  }

  lemma EnqueueKeepsCredit(s: State, i: nat, stream: StreamId)
    requires i < |s.holding| && CreditBalances(s, stream)
    ensures CreditBalances(Next(s, Enqueue(i)), stream)
  {
    hide TotalFor;
    TotalsWithout(s.holding, i, stream);
    TotalsAppend(s.queue, [s.holding[i]], stream);
  }

  lemma ApplyKeepsCredit(s: State, connected: bool, stream: StreamId)
    requires s.worker.Applying? && CreditBalances(s, stream)
    ensures CreditBalances(Next(s, ApplyCredit(connected)), stream)
  {
    hide TotalFor, Applied, Total;
    AppliedAt(s.applied, s.worker.batch, stream);
    AppliedAt(s.dropped, s.worker.batch, stream);
    TotalsNothing(stream);
  }

  lemma TotalsNothing(stream: StreamId)
    ensures TotalFor([], stream) == 0
  {
  }

  lemma StepKeepsCredit(s: State, step: Step, stream: StreamId)
    requires CreditBalances(s, stream) && Enabled(s, step)
    ensures CreditBalances(Next(s, step), stream)
  {
    hide TotalFor, Applied, Total, At;
    TotalsNothing(stream);
    match step
    case Consume(target, bytes) => ConsumeKeepsCredit(s, target, bytes, stream);
    case Enqueue(i) => EnqueueKeepsCredit(s, i, stream);
    case ApplyCredit(connected) => ApplyKeepsCredit(s, connected, stream);
    case _ =>
  }

  lemma StepKeepsConnection(s: State, step: Step)
    requires Enabled(s, step) && s.connection == Sum(s.applied)
    ensures Next(s, step).connection == Sum(Next(s, step).applied)
  {
    hide Sum, Applied, Total, TotalFor;
    if step.ApplyCredit? { AppliedAt(s.applied, s.worker.batch, 0); }
  }

  lemma StepKeepsWakeup(s: State, step: Step)
    requires NoLostWakeup(s) && Enabled(s, step)
    ensures NoLostWakeup(Next(s, step))
  {
    hide Applied, Total;
  }

  lemma StepKeeps(s: State, step: Step)
    requires Inv(s) && Enabled(s, step)
    ensures Inv(Next(s, step))
  {
    hide Next, CreditBalances, NoLostWakeup, JobsBalance, Sum;
    StepKeepsJobs(s, step);
    StepKeepsConnection(s, step);
    StepKeepsWakeup(s, step);
    forall stream ensures CreditBalances(Next(s, step), stream) {
      assert CreditBalances(s, stream);
      StepKeepsCredit(s, step, stream);
    }
  }

  ghost predicate Run(states: seq<State>, steps: seq<Step>) {
    && |states| == |steps| + 1
    && forall i :: 0 <= i < |steps| ==> Enabled(states[i], steps[i]) && states[i + 1] == Next(states[i], steps[i])
  }

  lemma {:induction false} RunKeeps(states: seq<State>, steps: seq<Step>, k: nat)
    requires Run(states, steps) && states[0] == INIT && k < |states|
    ensures Inv(states[k])
  {
    hide Next, Inv;
    if k == 0 {
      Initially();
    } else {
      RunKeeps(states, steps, k - 1);
      assert Enabled(states[k - 1], steps[k - 1]);
      StepKeeps(states[k - 1], steps[k - 1]);
    }
  }

  // ---------------------------------------------------------------- what it comes to

  /** In every reachable state: a stream's window was extended by no more than was
      delivered on it, and the connection's by exactly what its streams got. */
  lemma CreditNeverExceedsDelivery(states: seq<State>, steps: seq<Step>, k: nat, stream: StreamId)
    requires Run(states, steps) && states[0] == INIT && k < |states|
    ensures var s := states[k];
            && At(s.applied, stream) <= ConsumedBytes(s, stream)
            && (stream in s.jobs ==> s.jobs[stream].consumed <= s.jobs[stream].delivered)
            && s.connection == Sum(s.applied)
  {
    hide Sum, TotalFor;
    RunKeeps(states, steps, k);
    assert CreditBalances(states[k], stream);
  }

  /** A worker that would sleep in poll while no consumer is about to wake it has nothing
      to apply. */
  lemma SleepingWorkerHasNoCredit(states: seq<State>, steps: seq<Step>, k: nat)
    requires Run(states, steps) && states[0] == INIT && k < |states|
    requires states[k].worker.Polling? && !states[k].signalled && states[k].waking == 0
    ensures states[k].queue == []
  {
    RunKeeps(states, steps, k);
  }

  /** When it sleeps and no consumer is under way, every consumed byte has been given back
      to the peer, or was dropped with a closed connection. */
  lemma AllCreditArrives(states: seq<State>, steps: seq<Step>, k: nat, stream: StreamId)
    requires Run(states, steps) && states[0] == INIT && k < |states|
    requires states[k].worker.Polling? && !states[k].signalled && states[k].waking == 0 && states[k].holding == []
    ensures ConsumedBytes(states[k], stream) == At(states[k].applied, stream) + At(states[k].dropped, stream)
  {
    hide Sum;
    RunKeeps(states, steps, k);
    assert CreditBalances(states[k], stream);
  }

  // ---------------------------------------------------------------- in terms of what happened

  /** Bytes the peer sent on a stream. */
  function Arrived(steps: seq<Step>, stream: StreamId): nat {
    if steps == [] then 0
    else
      var last := steps[|steps| - 1];
      Arrived(steps[..|steps| - 1], stream) + if last.Deliver? && last.stream == stream then last.len else 0
  }

  lemma StepDelivers(s: State, step: Step, stream: StreamId)
    requires Enabled(s, step)
    ensures var t := Next(s, step);
            && (stream in t.jobs ==>
                  t.jobs[stream].delivered == (if stream in s.jobs then s.jobs[stream].delivered else 0) +
                                              if step.Deliver? && step.stream == stream then step.len else 0)
            && (stream !in t.jobs ==> stream !in s.jobs && !(step.Deliver? && step.stream == stream))
  {
    hide Applied, Total;
  }

  lemma {:induction false} DeliveredIsArrived(states: seq<State>, steps: seq<Step>, k: nat, stream: StreamId)
    requires Run(states, steps) && states[0] == INIT && k < |states|
    ensures Arrived(steps[..k], stream) == if stream in states[k].jobs then states[k].jobs[stream].delivered else 0
  {
    hide Next;
    if k > 0 {
      DeliveredIsArrived(states, steps, k - 1, stream);
      assert Enabled(states[k - 1], steps[k - 1]);
      StepDelivers(states[k - 1], steps[k - 1], stream);
      assert steps[..k][..k - 1] == steps[..k - 1];
    }
  }

  /** In every reachable state a stream's window was extended by no more bytes than the
      peer had sent on it. */
  lemma CreditNeverExceedsArrival(states: seq<State>, steps: seq<Step>, k: nat, stream: StreamId)
    requires Run(states, steps) && states[0] == INIT && k < |states|
    ensures At(states[k].applied, stream) <= Arrived(steps[..k], stream)
  {
    hide Next, Sum, Arrived;
    DeliveredIsArrived(states, steps, k, stream);
    CreditNeverExceedsDelivery(states, steps, k, stream);
  }

  /** A consumer is believed exactly when the response is open and it consumes no more than
      has arrived and is not consumed yet; then exactly its bytes are credited, and a
      refusal changes nothing. */
  lemma ConsumeExactly(states: seq<State>, steps: seq<Step>, k: nat, stream: StreamId, bytes: nat)
    requires Run(states, steps) && states[0] == INIT && k < |states| && Enabled(states[k], Consume(stream, bytes))
    ensures var s := states[k];
            var t := Next(s, Consume(stream, bytes));
            if !s.jobs[stream].closed && s.jobs[stream].consumed + bytes <= Arrived(steps[..k], stream) then
              && t.holding == s.holding + [Credit(stream, bytes)]
              && t.jobs.Keys == s.jobs.Keys && t.jobs[stream].consumed == s.jobs[stream].consumed + bytes
              && t.jobs[stream].delivered == s.jobs[stream].delivered
              && (forall other :: other in s.jobs && other != stream ==> t.jobs[other] == s.jobs[other])
            else t == s
  {
    hide Sum, Arrived, TotalFor;
    DeliveredIsArrived(states, steps, k, stream);
    RunKeeps(states, steps, k);
  }

  // ---------------------------------------------------------------- the shared objects

  /** The queue and the coalescer flag, both under the consume mutex. Each method is one
      step of the protocol above on any state the object represents. */
  class CreditQueue {
    var pendingConsumes: seq<Credit>
    var wakeupPending: bool

    ghost predicate Represents(s: State)
      reads this
    {
      pendingConsumes == s.queue && wakeupPending == s.flag
    }

    constructor ()
      ensures Represents(INIT)
    {
      pendingConsumes, wakeupPending := [], false;
    }

    /** The locked section of `consume`: the caller must wake the worker exactly when the
        step adds a pending wakeup. */
    method Push(credit: Credit, ghost s: State, ghost i: nat) returns (shouldWake: bool)
      requires Represents(s) && i < |s.holding| && s.holding[i] == credit
      modifies this
      ensures Represents(Next(s, Enqueue(i)))
      ensures Next(s, Enqueue(i)).waking == s.waking + if shouldWake then 1 else 0
      ensures shouldWake <==> !old(wakeupPending)
    {
      pendingConsumes := pendingConsumes + [credit];
      shouldWake := !wakeupPending;
      wakeupPending := true;
    }

    /** The locked section of `process_wakeup`. */
    method TakeBatch(ghost s: State) returns (batch: seq<Credit>)
      requires Represents(s) && s.worker.Drained?
      modifies this
      ensures Represents(Next(s, SwapQueue)) && Next(s, SwapQueue).worker == Applying(batch)
      ensures batch == old(pendingConsumes)
    {
      batch := pendingConsumes;
      pendingConsumes := [];
      wakeupPending := false;
    }
  }

  /** Receive counters of one job, under its receive-credit mutex, tied to the protocol in
      the same way. */
  class ReceiveCounters {
    var delivered: nat
    var unconsumed: nat
    var consumed: nat

    ghost predicate Represents(s: State, stream: StreamId)
      reads this
    {
      && stream in s.jobs && delivered == s.jobs[stream].delivered
      && unconsumed == s.jobs[stream].unconsumed && consumed == s.jobs[stream].consumed
    }

    constructor (ghost s: State, ghost stream: StreamId)
      requires Enabled(s, Open(stream))
      ensures Represents(Next(s, Open(stream)), stream)
    {
      delivered, unconsumed, consumed := 0, 0, 0;
    }

    method Deliver(len: nat, ghost s: State, ghost stream: StreamId)
      requires Represents(s, stream)
      modifies this
      ensures Represents(Next(s, Step.Deliver(stream, len)), stream)
      ensures delivered == old(delivered) + len && unconsumed == old(unconsumed) + len && consumed == old(consumed)
    {
      delivered, unconsumed := delivered + len, unconsumed + len;
    }

    /** Refuses more than was delivered and not yet consumed; otherwise the caller now
        holds the credit it has to queue. */
    method Consume(bytes: nat, closed: bool, ghost s: State, ghost stream: StreamId) returns (ok: bool)
      requires Represents(s, stream) && bytes > 0 && closed == s.jobs[stream].closed
      modifies this
      ensures Represents(Next(s, Step.Consume(stream, bytes)), stream)
      ensures Next(s, Step.Consume(stream, bytes)).holding ==
              if ok then s.holding + [Credit(stream, bytes)] else s.holding
      ensures ok <==> !closed && bytes <= old(unconsumed)
      ensures delivered == old(delivered) && unconsumed + consumed == old(unconsumed + consumed)
      ensures consumed == old(consumed) + if ok then bytes else 0
    {
      if closed || bytes > unconsumed { return false; }
      unconsumed, consumed := unconsumed - bytes, consumed + bytes;
      return true;
    }
  }
}
