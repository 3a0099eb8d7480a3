/** Response queues of streaming calls that share one byte budget. Every action is one
    atomic step: one compare-and-set on the budget, one channel operation, or the part
    of a locked section between two of those. */
module StreamBudget {

  datatype Event = Event(isBody: bool, bytes: nat)

  /** What the holder of a queue's lock is in the middle of. */
  datatype Lock =
    | Free
    | Reserved(ev: Event)      // offer: budget acquired, event not sent yet
    | Sent(ev: Event)          // offer: event in the channel, bytes not counted yet
    | Undoing(bytes: nat)      // offer: send failed, budget not given back yet
    | Releasing(bytes: nat)    // release or abort: bytes uncounted, budget not given back yet
    | Draining                 // abort: emptying the channel

  /** `channel` and `received` hold positions in `offered`, the accepted events in offer
      order. `late` holds the sizes of body events a consumer has taken but not yet
      released. */
  datatype Queue = Queue(
    channel: seq<nat>, buffered: nat, terminal: bool, aborted: bool, lock: Lock,
    offered: seq<Event>, received: seq<nat>, late: seq<nat>)

  datatype State = State(perStream: nat, limit: nat, used: nat, queues: seq<Queue>)

  datatype Action =
    | Reserve(q: nat, ev: Event)
    | Send(q: nat)
    | SendFailed(q: nat)
    | Count(q: nat)
    | Undo(q: nat)
    | Receive(q: nat)
    | ReleaseLocal(q: nat, i: nat)
    | ReleaseBudget(q: nat)
    | Finish(q: nat)
    | AbortBegin(q: nat)
    | AbortDrain(q: nat)
    | AbortEnd(q: nat)

  const EMPTY := Queue([], 0, false, false, Free, [], [], [])

  function Size(ev: Event): nat { if ev.isBody then ev.bytes else 0 }

  function Init(perStream: nat, limit: nat, n: nat): State {
    State(perStream, limit, 0, seq(n, _ => EMPTY))
  }

  predicate Enabled(s: State, a: Action) {
    a.q < |s.queues| &&
    var q := s.queues[a.q];
    match a
    case Reserve(_, ev) =>
      q.lock.Free? && !q.terminal && Size(ev) as int <= s.perStream - q.buffered &&
      (Size(ev) > 0 ==> Size(ev) as int <= s.limit - s.used)
    case Send(_) => q.lock.Reserved?
    case SendFailed(_) => q.lock.Reserved?
    case Count(_) => q.lock.Sent?
    case Undo(_) => q.lock.Undoing?
    case Receive(_) => q.channel != []
    case ReleaseLocal(_, i) => q.lock.Free? && i < |q.late|
    case ReleaseBudget(_) => q.lock.Releasing?
    case Finish(_) => q.lock.Free?
    case AbortBegin(_) => q.lock.Free?
    case AbortDrain(_) => q.lock.Draining? && q.channel != []
    case AbortEnd(_) => q.lock.Draining? && q.channel == []
  }

  function Min(a: nat, b: nat): nat { if a <= b then a else b }

  /** The budget's own release, clamped at zero. */
  function Clamped(used: nat, bytes: nat): nat { if used >= bytes then used - bytes else 0 }

  function Without(late: seq<nat>, i: nat): seq<nat>
    requires i < |late|
  {
    late[..i] + late[i + 1..]
  }

  /** New state of the queue an action works on. A queue's lock is released together
      with the last effect of its locked section. */
  function QueueAfter(s: State, a: Action): Queue
    requires Enabled(s, a)
    requires forall i :: 0 <= i < |s.queues[a.q].channel| ==> s.queues[a.q].channel[i] < |s.queues[a.q].offered|
  {
    var q := s.queues[a.q];
    match a
    case Reserve(_, ev) => q.(lock := Reserved(ev))
    case Send(_) =>
      q.(lock := Sent(q.lock.ev), channel := q.channel + [|q.offered|], offered := q.offered + [q.lock.ev])
    case SendFailed(_) => if Size(q.lock.ev) > 0 then q.(lock := Undoing(Size(q.lock.ev))) else q.(lock := Free)
    case Count(_) => q.(lock := Free, buffered := q.buffered + Size(q.lock.ev))
    case Undo(_) => q.(lock := Free)
    case Receive(_) =>
      var ev := q.offered[q.channel[0]];
      q.(channel := q.channel[1..], received := q.received + [q.channel[0]],
         late := if ev.isBody then q.late + [ev.bytes] else q.late)
    case ReleaseLocal(_, i) =>
      var released := Min(q.late[i], q.buffered);
      q.(late := Without(q.late, i), buffered := q.buffered - released,
         lock := if released > 0 then Releasing(released) else Free)
    case ReleaseBudget(_) => q.(lock := Free)
    case Finish(_) => q.(terminal := true)
    case AbortBegin(_) => if q.terminal then q else q.(terminal := true, lock := Draining)
    case AbortDrain(_) => q.(channel := q.channel[1..])
    case AbortEnd(_) =>
      q.(buffered := 0, aborted := true, lock := if q.buffered > 0 then Releasing(q.buffered) else Free)
  }

  function UsedAfter(s: State, a: Action): nat
    requires Enabled(s, a)
  {
    match a
    case Reserve(_, ev) => s.used + Size(ev)
    case Undo(_) => Clamped(s.used, s.queues[a.q].lock.bytes)
    case ReleaseBudget(_) => Clamped(s.used, s.queues[a.q].lock.bytes)
    case _ => s.used
  }

  function Apply(s: State, a: Action): State
    requires Enabled(s, a)
    requires forall i :: 0 <= i < |s.queues[a.q].channel| ==> s.queues[a.q].channel[i] < |s.queues[a.q].offered|
  {
    s.(used := UsedAfter(s, a), queues := s.queues[a.q := QueueAfter(s, a)])
  }

  // ---------------------------------------------------------------- invariant

  function Total(sizes: seq<nat>): nat {
    if sizes == [] then 0 else sizes[0] + Total(sizes[1..])
  }

  /** Body bytes of the events at the given positions. */
  function BytesAt(offered: seq<Event>, positions: seq<nat>): nat
    requires forall i :: 0 <= i < |positions| ==> positions[i] < |offered|
  {
    if positions == [] then 0 else Size(offered[positions[0]]) + BytesAt(offered, positions[1..])
  }

  /** Budget bytes this queue accounts for. */
  function Held(q: Queue): nat {
    q.buffered +
    match q.lock
    case Reserved(ev) => Size(ev)
    case Sent(ev) => Size(ev)
    case Undoing(n) => n
    case Releasing(n) => n
    case Free => 0
    case Draining => 0
  }

  function SumHeld(qs: seq<Queue>): nat {
    if qs == [] then 0 else Held(qs[0]) + SumHeld(qs[1..])
  }

  predicate Increasing(ps: seq<nat>, bound: nat) {
    (forall i :: 0 <= i < |ps| ==> ps[i] < bound) && (forall i, j :: 0 <= i < j < |ps| ==> ps[i] < ps[j])
  }

  /** Bytes sent but not counted. */
  function Uncounted(q: Queue): nat { if q.lock.Sent? then Size(q.lock.ev) else 0 }

  predicate QueueOk(perStream: nat, q: Queue) {
    && Increasing(q.received + q.channel, |q.offered|)
    && (forall i :: 0 <= i < |q.channel| ==> q.channel[i] < |q.offered|)
    && q.buffered <= perStream
    && (q.lock.Reserved? ==> q.buffered + Size(q.lock.ev) <= perStream)
    && (q.lock.Sent? ==> q.buffered + Size(q.lock.ev) <= perStream)
    && (q.lock.Reserved? || q.lock.Sent? || q.lock.Undoing? ==> !q.terminal)
    && (q.aborted || q.lock.Draining? ==> q.terminal)
    && (q.aborted ==> q.buffered == 0 && q.channel == [] && !q.lock.Draining?)
    && (!q.aborted && !q.lock.Draining? ==>
          && |q.received| + |q.channel| == |q.offered|
          && q.buffered + Uncounted(q) == BytesAt(q.offered, q.channel) + Total(q.late))
  }

  predicate Inv(s: State) {
    && s.used == SumHeld(s.queues) && s.used <= s.limit
    && forall i :: 0 <= i < |s.queues| ==> QueueOk(s.perStream, s.queues[i])
  }

  // ---------------------------------------------------------------- sums

  lemma {:induction false} SumUpdate(qs: seq<Queue>, k: nat, q: Queue)
    requires k < |qs|
    ensures SumHeld(qs[k := q]) == SumHeld(qs) - Held(qs[k]) + Held(q) && SumHeld(qs) >= Held(qs[k])
  {
    if k == 0 {
      assert qs[k := q][1..] == qs[1..];
    } else {
      assert qs[k := q][1..] == qs[1..][k - 1 := q];
      SumUpdate(qs[1..], k - 1, q);
    }
  }

  lemma {:induction false} TotalAppend(a: seq<nat>, b: seq<nat>)
    ensures Total(a + b) == Total(a) + Total(b)
  {
    if a == [] {
      assert a + b == b;
    } else {
      assert (a + b)[1..] == a[1..] + b;
      TotalAppend(a[1..], b);
    }
  }

  lemma TotalWithout(late: seq<nat>, i: nat)
    requires i < |late|
    ensures Total(late) == late[i] + Total(Without(late, i))
  {
    assert late == late[..i] + ([late[i]] + late[i + 1..]);
    TotalAppend(late[..i], [late[i]] + late[i + 1..]);
    TotalAppend(late[..i], late[i + 1..]);
  }

  lemma {:induction false} BytesSnoc(offered: seq<Event>, ps: seq<nat>, ev: Event)
    requires forall i :: 0 <= i < |ps| ==> ps[i] < |offered|
    ensures BytesAt(offered + [ev], ps + [|offered|]) == BytesAt(offered, ps) + Size(ev)
  {
    if ps == [] {
      assert ps + [|offered|] == [|offered|];
    } else {
      assert (ps + [|offered|])[1..] == ps[1..] + [|offered|];
      BytesSnoc(offered, ps[1..], ev);
    }
  }

  // ---------------------------------------------------------------- every step keeps the invariant

  lemma OfferKeeps(s: State, a: Action)
    requires Enabled(s, a) && QueueOk(s.perStream, s.queues[a.q])
    requires a.Reserve? || a.Send? || a.SendFailed? || a.Count? || a.Undo?
    ensures QueueOk(s.perStream, QueueAfter(s, a))
  {
    var q := s.queues[a.q];
    if a.Send? {
      BytesSnoc(q.offered, q.channel, q.lock.ev);
      assert q.received + (q.channel + [|q.offered|]) == (q.received + q.channel) + [|q.offered|];
    }
    hide BytesAt, Total;
  }

  lemma ReceiveKeeps(s: State, a: Action)
    requires Enabled(s, a) && QueueOk(s.perStream, s.queues[a.q]) && a.Receive?
    ensures QueueOk(s.perStream, QueueAfter(s, a))
  {
    var q := s.queues[a.q];
    var ev := q.offered[q.channel[0]];
    TotalAppend(q.late, [ev.bytes]);
    assert (q.received + [q.channel[0]]) + q.channel[1..] == q.received + q.channel;
  }

  lemma ReleaseKeeps(s: State, a: Action)
    requires Enabled(s, a) && QueueOk(s.perStream, s.queues[a.q]) && (a.ReleaseLocal? || a.ReleaseBudget?)
    ensures QueueOk(s.perStream, QueueAfter(s, a))
  {
    var q := s.queues[a.q];
    if a.ReleaseLocal? { TotalWithout(q.late, a.i); }
    hide BytesAt, Total, Increasing;
  }

  lemma IncreasingWithout(a: seq<nat>, b: seq<nat>, bound: nat)
    requires b != [] && Increasing(a + b, bound)
    ensures Increasing(a + b[1..], bound)
  {
    var c := a + b[1..];
    forall i | 0 <= i < |c| ensures c[i] == (a + b)[if i < |a| then i else i + 1] { }
  }

  lemma EndKeeps(s: State, a: Action)
    requires Enabled(s, a) && QueueOk(s.perStream, s.queues[a.q])
    requires a.Finish? || a.AbortBegin? || a.AbortDrain? || a.AbortEnd?
    ensures QueueOk(s.perStream, QueueAfter(s, a))
  {
    var q := s.queues[a.q];
    if a.AbortDrain? { IncreasingWithout(q.received, q.channel, |q.offered|); }
    hide BytesAt, Total, Increasing;
  }

  lemma HeldAfter(s: State, a: Action)
    requires Enabled(s, a) && QueueOk(s.perStream, s.queues[a.q])
    ensures var q := s.queues[a.q];
            var delta := Held(QueueAfter(s, a)) as int - Held(q) as int;
            && (a.Reserve? ==> delta == Size(a.ev))
            && (a.Undo? || a.ReleaseBudget? ==> q.lock.bytes <= Held(q) && delta == -(q.lock.bytes as int))
            && (!a.Reserve? && !a.Undo? && !a.ReleaseBudget? ==> delta == 0)
  {
    hide BytesAt, Total, Increasing;
  }

  lemma StepKeeps(s: State, a: Action)
    requires Inv(s) && Enabled(s, a)
    ensures Inv(Apply(s, a))
  {
    var q' := QueueAfter(s, a);
    match a {
      case Receive(_) => ReceiveKeeps(s, a);
      case ReleaseLocal(_, _) => ReleaseKeeps(s, a);
      case ReleaseBudget(_) => ReleaseKeeps(s, a);
      case Finish(_) => EndKeeps(s, a);
      case AbortBegin(_) => EndKeeps(s, a);
      case AbortDrain(_) => EndKeeps(s, a);
      case AbortEnd(_) => EndKeeps(s, a);
      case Reserve(_, _) => OfferKeeps(s, a);
      case Send(_) => OfferKeeps(s, a);
      case SendFailed(_) => OfferKeeps(s, a);
      case Count(_) => OfferKeeps(s, a);
      case Undo(_) => OfferKeeps(s, a);
    }
    HeldAfter(s, a);
    SumUpdate(s.queues, a.q, q');
    hide QueueOk, QueueAfter, Held, SumHeld;
  }

  /** The clamps of both release functions never fire: the budget always covers what is
      given back, and before an abort a queue always covers a late release. */
  lemma ClampsNeverFire(s: State, a: Action)
    requires Inv(s) && Enabled(s, a)
    ensures a.Undo? || a.ReleaseBudget? ==> s.used >= s.queues[a.q].lock.bytes
    ensures a.ReleaseLocal? && !s.queues[a.q].aborted ==> s.queues[a.q].late[a.i] <= s.queues[a.q].buffered
    ensures a.ReleaseLocal? && s.queues[a.q].aborted ==> QueueAfter(s, a).lock.Free? && QueueAfter(s, a).buffered == 0
  {
    HeldAfter(s, a);
    SumUpdate(s.queues, a.q, s.queues[a.q]);
    var q := s.queues[a.q];
    assert QueueOk(s.perStream, q);
    if a.ReleaseLocal? { TotalWithout(q.late, a.i); }
    hide BytesAt, Total, SumHeld, Increasing;
  }

  // ---------------------------------------------------------------- runs

  ghost predicate ValidRun(s: State, actions: seq<Action>)
    requires Inv(s)
    decreases |actions|
  {
    actions != [] ==> Enabled(s, actions[0]) && (StepKeeps(s, actions[0]); ValidRun(Apply(s, actions[0]), actions[1..]))
  }

  ghost function Run(s: State, actions: seq<Action>): (t: State)
    requires Inv(s) && ValidRun(s, actions)
    ensures Inv(t) && t.limit == s.limit && t.perStream == s.perStream
    decreases |actions|
  {
    if actions == [] then s
    else
      StepKeeps(s, actions[0]);
      Run(Apply(s, actions[0]), actions[1..])
  }

  lemma {:induction false} InitInv(perStream: nat, limit: nat, n: nat)
    ensures Inv(Init(perStream, limit, n))
  {
    if n > 0 {
      InitInv(perStream, limit, n - 1);
      assert Init(perStream, limit, n).queues[1..] == Init(perStream, limit, n - 1).queues;
    }
  }

  function SumBuffered(qs: seq<Queue>): nat {
    if qs == [] then 0 else qs[0].buffered + SumBuffered(qs[1..])
  }

  lemma {:induction false} UnlockedHeld(qs: seq<Queue>)
    requires forall i :: 0 <= i < |qs| ==> qs[i].lock.Free?
    ensures SumHeld(qs) == SumBuffered(qs)
  {
    if qs != [] { UnlockedHeld(qs[1..]); }
  }

  /** Over every interleaving on any number of queues: the budget equals what the
      queues account for and never exceeds its limit, no queue exceeds its own, and
      whenever no locked section is open the budget is exactly the sum of the buffered
      bytes. */
  lemma BudgetIsConserved(perStream: nat, limit: nat, n: nat, actions: seq<Action>)
    requires (InitInv(perStream, limit, n); ValidRun(Init(perStream, limit, n), actions))
    ensures (InitInv(perStream, limit, n);
            var s := Run(Init(perStream, limit, n), actions);
            && s.used == SumHeld(s.queues) && s.used <= limit
            && (forall i :: 0 <= i < |s.queues| ==> s.queues[i].buffered <= perStream)
            && ((forall i :: 0 <= i < |s.queues| ==> s.queues[i].lock.Free?) ==> s.used == SumBuffered(s.queues)))
  {
    InitInv(perStream, limit, n);
    var s := Run(Init(perStream, limit, n), actions);
    forall i | 0 <= i < |s.queues| ensures s.queues[i].buffered <= perStream { assert QueueOk(perStream, s.queues[i]); }
    hide Run, QueueOk, SumHeld, SumBuffered;
    if forall i :: 0 <= i < |s.queues| ==> s.queues[i].lock.Free? { UnlockedHeld(s.queues); }
  }

  lemma {:induction false} IncreasingFull(ps: seq<nat>, bound: nat, i: nat)
    requires Increasing(ps, bound) && |ps| == bound && i < bound
    ensures ps[i] == i
  {
    IncreasingLow(ps, bound, i);
    IncreasingHigh(ps, bound, i);
  }

  lemma {:induction false} IncreasingLow(ps: seq<nat>, bound: nat, i: nat)
    requires Increasing(ps, bound) && i < |ps|
    ensures ps[i] >= i
  {
    if i > 0 { IncreasingLow(ps, bound, i - 1); }
  }

  lemma {:induction false} IncreasingHigh(ps: seq<nat>, bound: nat, i: nat)
    requires Increasing(ps, bound) && |ps| == bound && i < bound
    ensures ps[i] <= i
    decreases bound - i
  {
    if i + 1 < bound { IncreasingHigh(ps, bound, i + 1); }
  }

  /** Consumers see events in offer order: always without going back, and without any
      gap until the queue is aborted. */
  lemma ConsumersSeeOfferOrder(s: State, k: nat)
    requires Inv(s) && k < |s.queues|
    ensures var q := s.queues[k];
            && Increasing(q.received, |q.offered|)
            && (!q.aborted && !q.lock.Draining? ==> forall i :: 0 <= i < |q.received| ==> q.received[i] == i)
  {
    var q := s.queues[k];
    assert QueueOk(s.perStream, q);
    var all := q.received + q.channel;
    hide BytesAt, Total;
    forall i | 0 <= i < |q.received| ensures all[i] == q.received[i] { }
    if !q.aborted && !q.lock.Draining? {
      forall i | 0 <= i < |q.received| ensures q.received[i] == i { IncreasingFull(all, |q.offered|, i); }
    }
  }

  /** A queue whose consumer has taken and released everything, or that was aborted,
      holds no part of the budget. */
  lemma DrainedQueueHoldsNothing(s: State, k: nat)
    requires Inv(s) && k < |s.queues| && s.queues[k].lock.Free?
    requires s.queues[k].aborted || (s.queues[k].channel == [] && s.queues[k].late == [])
    ensures Held(s.queues[k]) == 0
  {
    assert QueueOk(s.perStream, s.queues[k]);
  }

  /** Exactly when an unlocked queue holds no part of the budget: it was aborted, or no
      body byte is left in its channel or with its consumer. */
  lemma HoldsNothingExactly(s: State, k: nat)
    requires Inv(s) && k < |s.queues| && s.queues[k].lock.Free?
    ensures var q := s.queues[k];
            && (forall i :: 0 <= i < |q.channel| ==> q.channel[i] < |q.offered|)
            && (Held(q) == 0 <==> q.aborted || BytesAt(q.offered, q.channel) + Total(q.late) == 0)
  {
    assert QueueOk(s.perStream, s.queues[k]);
    hide BytesAt, Total, Increasing;
  }

  /** A finished queue that was not aborted keeps its share of the budget until its
      consumer releases: an abort comes too late, and nothing else gives bytes back. */
  lemma FinishedShareStays(s: State, a: Action, k: nat)
    requires Inv(s) && Enabled(s, a) && k < |s.queues|
    requires s.queues[k].terminal && s.queues[k].lock.Free?
    requires !(a.ReleaseLocal? && a.q == k)
    ensures var q := Apply(s, a).queues[k];
            Held(q) == Held(s.queues[k]) && q.terminal && q.lock.Free? && q.aborted == s.queues[k].aborted
  {
    assert QueueOk(s.perStream, s.queues[a.q]);
    hide BytesAt, Total, Increasing;
  }

  // ---------------------------------------------------------------- whole operations

  ghost function Then(s: State, a: Action): (t: State)
    requires Inv(s) && Enabled(s, a)
    ensures Inv(t)
  {
    StepKeeps(s, a);
    Apply(s, a)
  }

  /** Everything but queue `k` and the budget is as it was. */
  predicate OnlyQueue(s: State, t: State, k: nat) {
    && |t.queues| == |s.queues| && t.perStream == s.perStream && t.limit == s.limit
    && (forall j :: 0 <= j < |s.queues| && j != k ==> t.queues[j] == s.queues[j])
  }

  lemma ThenMeans(s: State, a: Action)
    requires Inv(s) && Enabled(s, a)
    ensures forall i :: 0 <= i < |s.queues[a.q].channel| ==> s.queues[a.q].channel[i] < |s.queues[a.q].offered|
    ensures Then(s, a) == s.(used := UsedAfter(s, a), queues := s.queues[a.q := QueueAfter(s, a)])
  {
    hide QueueAfter, UsedAfter;
    assert QueueOk(s.perStream, s.queues[a.q]);
  }

  /** An offer that goes through puts its event behind all others and charges its bytes
      once to the queue and once to the budget. */
  lemma OfferMeaning(s: State, k: nat, ev: Event)
    requires Inv(s) && Enabled(s, Reserve(k, ev))
    ensures var t1 := Then(s, Reserve(k, ev));
            Enabled(t1, Send(k)) && var t2 := Then(t1, Send(k));
            Enabled(t2, Count(k)) && var t, q := Then(t2, Count(k)), s.queues[k];
            && OnlyQueue(s, t, k) && t.used == s.used + (if ev.isBody then ev.bytes else 0)
            && t.queues[k] == q.(channel := q.channel + [|q.offered|], offered := q.offered + [ev],
                                 buffered := q.buffered + if ev.isBody then ev.bytes else 0)
  {
    hide Inv, Then;
    ThenMeans(s, Reserve(k, ev));
    var t1 := Then(s, Reserve(k, ev));
    ThenMeans(t1, Send(k));
    var t2 := Then(t1, Send(k));
    ThenMeans(t2, Count(k));
  }

  /** An offer whose send fails leaves no trace: what it reserved goes back. */
  lemma FailedOfferLeavesNoTrace(s: State, k: nat, ev: Event)
    requires Inv(s) && Enabled(s, Reserve(k, ev))
    ensures var t1 := Then(s, Reserve(k, ev));
            Enabled(t1, SendFailed(k)) && var t2 := Then(t1, SendFailed(k));
            if ev.isBody && ev.bytes > 0 then Enabled(t2, Undo(k)) && Then(t2, Undo(k)) == s else t2 == s
  {
    hide Inv, Then;
    ThenMeans(s, Reserve(k, ev));
    var t1 := Then(s, Reserve(k, ev));
    ThenMeans(t1, SendFailed(k));
    var t2 := Then(t1, SendFailed(k));
    assert s.queues[k := s.queues[k]] == s.queues;
    assert t1.queues[k := s.queues[k]] == s.queues;
    if ev.isBody && ev.bytes > 0 {
      ThenMeans(t2, Undo(k));
      assert t2.queues[k := s.queues[k]] == s.queues;
    }
  }

  /** Taking the next event hands over the oldest one in the channel; releasing it gives
      exactly its body bytes back to the queue and to the budget. */
  lemma ReceiveThenRelease(s: State, k: nat)
    requires Inv(s) && Enabled(s, Receive(k)) && s.queues[k].lock.Free?
    ensures var q := s.queues[k];
            q.channel[0] < |q.offered| &&
            var ev, t := q.offered[q.channel[0]], Then(s, Receive(k));
            && OnlyQueue(s, t, k) && t.used == s.used
            && t.queues[k].received == q.received + [q.channel[0]] && t.queues[k].channel == q.channel[1..]
            && t.queues[k].buffered == q.buffered
            && (!ev.isBody ==> t.queues[k].late == q.late)
            && (ev.isBody ==>
                  && t.queues[k].late == q.late + [ev.bytes]
                  && Enabled(t, ReleaseLocal(k, |q.late|))
                  && var u := Then(t, ReleaseLocal(k, |q.late|));
                  && (ev.bytes == 0 ==> u.queues[k] == t.queues[k].(late := q.late) && u.used == s.used)
                  && (ev.bytes > 0 ==>
                        && Enabled(u, ReleaseBudget(k))
                        && var v := Then(u, ReleaseBudget(k));
                        && OnlyQueue(s, v, k) && v.used == s.used - ev.bytes
                        && v.queues[k] == t.queues[k].(late := q.late, buffered := q.buffered - ev.bytes)))
  {
    hide Inv, Then;
    ThenMeans(s, Receive(k));
    var q := s.queues[k];
    var ev, t := q.offered[q.channel[0]], Then(s, Receive(k));
    if ev.isBody {
      assert Without(q.late + [ev.bytes], |q.late|) == q.late;
      FullChannelIsOpen(s, k);
      LateIsCovered(t, k, |q.late|);
      ThenMeans(t, ReleaseLocal(k, |q.late|));
      var u := Then(t, ReleaseLocal(k, |q.late|));
      if ev.bytes > 0 {
        ThenMeans(u, ReleaseBudget(k));
        ClampsNeverFire(u, ReleaseBudget(k));
      }
    }
  }

  lemma FullChannelIsOpen(s: State, k: nat)
    requires Inv(s) && k < |s.queues| && s.queues[k].channel != []
    ensures !s.queues[k].aborted
  {
    assert QueueOk(s.perStream, s.queues[k]);
  }

  lemma LateIsCovered(s: State, k: nat, i: nat)
    requires Inv(s) && Enabled(s, ReleaseLocal(k, i)) && !s.queues[k].aborted
    ensures s.queues[k].late[i] <= s.queues[k].buffered
  {
    ClampsNeverFire(s, ReleaseLocal(k, i));
  }

  /** Nothing is offered after the end, in any run. */
  lemma {:induction false} NothingAfterTheEnd(s: State, actions: seq<Action>, k: nat)
    requires Inv(s) && ValidRun(s, actions) && k < |s.queues| && s.queues[k].terminal
    ensures var t := Run(s, actions);
            && |t.queues| == |s.queues| && t.queues[k].terminal && t.queues[k].offered == s.queues[k].offered
            && (s.queues[k].aborted ==> t.queues[k].aborted && t.queues[k].received == s.queues[k].received)
    decreases |actions|
  {
    if actions != [] {
      StepKeeps(s, actions[0]);
      EndStays(s, actions[0], k);
      NothingAfterTheEnd(Apply(s, actions[0]), actions[1..], k);
    }
  }

  lemma EndStays(s: State, a: Action, k: nat)
    requires Inv(s) && Enabled(s, a) && k < |s.queues| && s.queues[k].terminal
    ensures var q := Then(s, a).queues[k];
            && |Then(s, a).queues| == |s.queues| && q.terminal && q.offered == s.queues[k].offered
            && (s.queues[k].aborted ==> q.aborted && q.received == s.queues[k].received)
  {
    hide BytesAt, Total, Increasing, SumHeld;
    ThenMeans(s, a);
    assert QueueOk(s.perStream, s.queues[k]);
  }

  /** Finishing and aborting both end a queue; an abort goes on to empty it exactly when the
      queue had not ended before. */
  lemma EndsExactly(s: State, k: nat)
    requires Inv(s) && k < |s.queues| && s.queues[k].lock.Free?
    ensures var q := s.queues[k];
            && Then(s, Finish(k)).queues[k] == q.(terminal := true)
            && var t := Then(s, AbortBegin(k));
            && t.queues[k].terminal && t.queues[k].channel == q.channel && t.used == s.used
            && (q.terminal <==> t.queues[k].lock.Free?) && (!q.terminal <==> t.queues[k].lock.Draining?)
  {
    hide Inv, Then;
    ThenMeans(s, Finish(k));
    ThenMeans(s, AbortBegin(k));
  }

  /** The end of an abort: nothing is buffered any more, and exactly what was buffered is
      on its way back to the budget. */
  lemma AbortGivesBack(s: State, k: nat)
    requires Inv(s) && Enabled(s, AbortEnd(k))
    ensures var q, t := s.queues[k], Then(s, AbortEnd(k));
            && t.queues[k].aborted && t.queues[k].buffered == 0 && t.queues[k].channel == []
            && (if q.buffered > 0 then
                  Enabled(t, ReleaseBudget(k)) && Then(t, ReleaseBudget(k)).used == s.used - q.buffered &&
                  Held(Then(t, ReleaseBudget(k)).queues[k]) == 0
                else t.used == s.used && Held(t.queues[k]) == 0)
  {
    hide Inv, Then;
    ThenMeans(s, AbortEnd(k));
    var t := Then(s, AbortEnd(k));
    if s.queues[k].buffered > 0 {
      ThenMeans(t, ReleaseBudget(k));
      ClampsNeverFire(t, ReleaseBudget(k));
    }
  }
}
