/** The request protocol of the engine as a transition system: executing, delivering,
    cancelling (also from inside a callback) and destroying, interleaved freely
    between threads under the lifecycle lock, the recursive callback lock and the
    registry lock. Every action below is one critical section or one callback. */
module EngineProtocol {
  import opened Text

  type Id = int
  type Thread = nat

  datatype Kind = HeadersEvent | BodyEvent | CompleteEvent | ErrorEvent

  predicate IsTerminal(k: Kind) { k == CompleteEvent || k == ErrorEvent }

  datatype Event = Event(id: Id, kind: Kind)

  datatype Entry = Entry(cancelled: bool, terminal: bool)

  /** Who holds the lifecycle lock, and where. */
  datatype Lifecycle =
    | Free
    | CancelWaiting(id: Id)     // cancel, waiting for the callback lock
    | Admitting(id: Id)         // execute, registered, handing the job over
    | Rejecting(id: Id)         // execute, about to report a direct error
    | RejectRunning             // execute, inside that callback
    | Joining                   // destroy, stopping dispatcher and workers

  /** A callback in progress under the callback lock; the lock is recursive, so the
      callbacks of the holding thread nest. */
  datatype Running = DeliverRunning(id: Id, terminal: bool) | CancelRunning | CloseRunning

  /** Registry already checked, callback not yet entered. */
  datatype Armed = Armed(id: Id, kind: Kind, forCancel: bool)

  datatype State = State(
    registry: map<Id, Entry>, used: set<Id>, jobs: set<Id>, destroyed: bool,
    lifecycle: Lifecycle, owner: Thread,
    armed: Option<Armed>, running: seq<Running>, holder: Thread,
    pending: seq<Id>, closer: Thread, log: seq<Event>)

  const INIT := State(map[], {}, {}, false, Free, 0, None, [], 0, [], 0, [])

  datatype Action =
    | ExecuteRejected(t: Thread, id: Id)
    | ExecuteRegister(t: Thread, id: Id)
    | AdmitOk
    | AdmitFail
    | RejectInvoke
    | RejectReturn
    | CancelEnter(t: Thread, id: Id)
    | CancelTake
    | DeliverEnter(t: Thread, id: Id, kind: Kind)
    | Invoke
    | Return
    | DestroyEnter(t: Thread)
    | DestroyClear(order: seq<Id>)
    | CloseInvoke

  /** The callback lock is free, or held by `t` between two of its own callbacks. */
  predicate CanLock(s: State, t: Thread) { s.armed.None? && (s.running == [] || s.holder == t) }

  predicate Distinct(ids: seq<Id>) { forall i, j :: 0 <= i < j < |ids| ==> ids[i] != ids[j] }

  /** The requests destroy still owes an answer, in some order. */
  ghost predicate IsPendingOrder(registry: map<Id, Entry>, order: seq<Id>) {
    && Distinct(order)
    && (forall i :: 0 <= i < |order| ==>
          order[i] in registry && !registry[order[i]].terminal && !registry[order[i]].cancelled)
    && (forall id :: id in registry && !registry[id].terminal && !registry[id].cancelled ==> id in order)
  }

  ghost predicate Enabled(s: State, a: Action) {
    match a
    case ExecuteRejected(_, id) => s.lifecycle.Free? && id !in s.used
    case ExecuteRegister(_, id) => s.lifecycle.Free? && id !in s.used && !s.destroyed
    case AdmitOk => s.lifecycle.Admitting?
    case AdmitFail => s.lifecycle.Admitting?
    case RejectInvoke => s.lifecycle.Rejecting?
    case RejectReturn => s.lifecycle.RejectRunning?
    case CancelEnter(_, _) => s.lifecycle.Free?
    case CancelTake => s.lifecycle.CancelWaiting? && CanLock(s, s.owner)
    case DeliverEnter(t, id, _) => id in s.jobs && CanLock(s, t)
    case Invoke => s.armed.Some?
    case Return => s.armed.None? && s.running != []
    case DestroyEnter(_) => s.lifecycle.Free?
    case DestroyClear(order) => s.lifecycle.Joining? && IsPendingOrder(s.registry, order)
    case CloseInvoke => s.pending != [] && CanLock(s, s.closer)
  }

  function Erase(registry: map<Id, Entry>, id: Id): map<Id, Entry> { registry - {id} }

  ghost function Apply(s: State, a: Action): State
    requires Enabled(s, a)
  {
    match a
    case ExecuteRejected(t, id) => s.(lifecycle := Rejecting(id), owner := t, used := s.used + {id})
    case ExecuteRegister(t, id) =>
      s.(lifecycle := Admitting(id), owner := t, used := s.used + {id},
         registry := s.registry[id := Entry(false, false)])
    case AdmitOk => s.(lifecycle := Free, jobs := s.jobs + {s.lifecycle.id})
    case AdmitFail =>
      s.(lifecycle := Rejecting(s.lifecycle.id), registry := Erase(s.registry, s.lifecycle.id))
    case RejectInvoke =>
      s.(lifecycle := RejectRunning, log := s.log + [Event(s.lifecycle.id, ErrorEvent)])
    case RejectReturn => s.(lifecycle := Free)
    case CancelEnter(t, id) => s.(lifecycle := CancelWaiting(id), owner := t)
    case CancelTake =>
      var id := s.lifecycle.id;
      if id !in s.registry || s.registry[id].terminal then s.(lifecycle := Free)
      else s.(lifecycle := Free, registry := Erase(s.registry, id),
              armed := Some(Armed(id, ErrorEvent, true)), holder := s.owner)
    case DeliverEnter(t, id, kind) =>
      if id !in s.registry || s.registry[id].terminal then s
      else if s.registry[id].cancelled then s.(registry := Erase(s.registry, id))
      else
        s.(registry := if IsTerminal(kind) then s.registry[id := s.registry[id].(terminal := true)] else s.registry,
           armed := Some(Armed(id, kind, false)), holder := t)
    case Invoke =>
      var x := s.armed.value;
      s.(armed := None, log := s.log + [Event(x.id, x.kind)],
         running := s.running + [if x.forCancel then CancelRunning else DeliverRunning(x.id, IsTerminal(x.kind))])
    case Return =>
      var top := s.running[|s.running| - 1];
      s.(running := s.running[..|s.running| - 1],
         registry := if top.DeliverRunning? && top.terminal then Erase(s.registry, top.id) else s.registry)
    case DestroyEnter(t) => if s.destroyed then s else s.(lifecycle := Joining, owner := t, destroyed := true)
    case DestroyClear(order) =>
      s.(lifecycle := Free, registry := map[], pending := order, closer := s.owner)
    case CloseInvoke =>
      s.(pending := s.pending[1..], log := s.log + [Event(s.pending[0], ErrorEvent)],
         running := s.running + [CloseRunning], holder := s.closer)
  }

  ghost predicate ValidRun(s: State, actions: seq<Action>)
    decreases |actions|
  {
    actions != [] ==> Enabled(s, actions[0]) && ValidRun(Apply(s, actions[0]), actions[1..])
  }

  ghost function Run(s: State, actions: seq<Action>): State
    requires ValidRun(s, actions)
    decreases |actions|
  {
    if actions == [] then s else Run(Apply(s, actions[0]), actions[1..])
  }

  // ---------------------------------------------------------------- safety

  ghost predicate Finished(log: seq<Event>, id: Id) {
    exists k :: 0 <= k < |log| && log[k].id == id && IsTerminal(log[k].kind)
  }

  /** At most one terminal event per request, and nothing after it. */
  ghost predicate Safe(log: seq<Event>) {
    forall i, j :: 0 <= i < j < |log| && log[i].id == log[j].id ==> !IsTerminal(log[i].kind)
  }

  predicate Open(s: State, id: Id) { id in s.registry && !s.registry[id].terminal }

  predicate ArmedTerminal(s: State, id: Id) {
    s.armed.Some? && s.armed.value.id == id && IsTerminal(s.armed.value.kind)
  }

  predicate InPending(s: State, id: Id) { id in s.pending }

  predicate InRejecting(s: State, id: Id) { s.lifecycle == Rejecting(id) }

  /** The number of places that still owe `id` its terminal event, plus one if it had it. */
  ghost function Debts(s: State, id: Id): nat {
    (if Finished(s.log, id) then 1 else 0) + (if Open(s, id) then 1 else 0) +
    (if ArmedTerminal(s, id) then 1 else 0) + (if InPending(s, id) then 1 else 0) +
    (if InRejecting(s, id) then 1 else 0)
  }

  /** Each request has had its terminal event or is owed it by exactly one place. */
  ghost predicate Accounting(s: State) {
    && (forall id :: id in s.used ==> Debts(s, id) == 1)
    && (forall id :: id !in s.used ==> Debts(s, id) == 0)
  }

  ghost predicate Inv(s: State) {
    && Safe(s.log) && Accounting(s) && Distinct(s.pending)
    && (forall id :: id in s.registry ==> id in s.used && !s.registry[id].cancelled)
    && (forall id :: id in s.jobs ==> id in s.used && !InRejecting(s, id) && s.lifecycle != Admitting(id))
    && (s.armed.Some? ==> !Finished(s.log, s.armed.value.id))
    && (s.armed.Some? && !s.armed.value.forCancel ==> s.armed.value.id in s.jobs)
    && (s.armed.Some? && s.armed.value.forCancel ==> s.armed.value.kind == ErrorEvent)
    && (s.lifecycle.Admitting? ==> Open(s, s.lifecycle.id))
    && (s.lifecycle.Rejecting? ==> s.lifecycle.id !in s.registry)
    && (s.lifecycle.Joining? ==> s.destroyed && s.pending == [])
    && (s.pending != [] ==> s.destroyed)
    && RunningFinished(s.running, s.log)
  }

  /** A terminal callback that is still running has been logged. */
  ghost predicate RunningFinished(running: seq<Running>, log: seq<Event>) {
    forall i :: 0 <= i < |running| && running[i].DeliverRunning? && running[i].terminal ==> Finished(log, running[i].id)
  }

  // ---------------------------------------------------------------- every action keeps the invariant

  lemma FinishedAppend(log: seq<Event>, e: Event, id: Id)
    ensures Finished(log + [e], id) <==> Finished(log, id) || (e.id == id && IsTerminal(e.kind))
  {
    var t := log + [e];
    if Finished(log, id) {
      var k :| 0 <= k < |log| && log[k].id == id && IsTerminal(log[k].kind);
      assert t[k] == log[k];
    }
    if e.id == id && IsTerminal(e.kind) { assert t[|log|] == e; }
  }

  lemma SafeAppend(log: seq<Event>, e: Event)
    requires Safe(log) && !Finished(log, e.id)
    ensures Safe(log + [e])
  {
  }

  lemma InitInv()
    ensures Inv(INIT)
  {
  }

  lemma ExecuteKeeps(s: State, a: Action)
    requires Inv(s) && Enabled(s, a) && (a.ExecuteRejected? || a.ExecuteRegister?)
    ensures Inv(Apply(s, a))
  {
    hide Finished, Safe, Distinct;
  }

  lemma AdmitKeeps(s: State, a: Action)
    requires Inv(s) && Enabled(s, a) && (a.AdmitOk? || a.AdmitFail?)
    ensures Inv(Apply(s, a))
  {
    hide Finished, Safe, Distinct;
  }

  lemma RejectKeeps(s: State, a: Action)
    requires Inv(s) && Enabled(s, a) && (a.RejectInvoke? || a.RejectReturn?)
    ensures Inv(Apply(s, a))
  {
    if a.RejectInvoke? {
      var e := Event(s.lifecycle.id, ErrorEvent);
      assert Debts(s, e.id) <= 1;
      SafeAppend(s.log, e);
      forall id { FinishedAppend(s.log, e, id); }
    }
    hide Finished, Safe, Distinct;
  }

  lemma CancelKeeps(s: State, a: Action)
    requires Inv(s) && Enabled(s, a) && (a.CancelEnter? || a.CancelTake?)
    ensures Inv(Apply(s, a))
  {
    hide Finished, Safe, Distinct;
  }

  lemma DeliverKeeps(s: State, a: Action)
    requires Inv(s) && Enabled(s, a) && a.DeliverEnter?
    ensures Inv(Apply(s, a))
  {
    hide Finished, Safe, Distinct;
  }

  lemma InvokeKeeps(s: State)
    requires Inv(s) && Enabled(s, Invoke)
    ensures Inv(Apply(s, Invoke))
  {
    var e := Event(s.armed.value.id, s.armed.value.kind);
    SafeAppend(s.log, e);
    forall id { FinishedAppend(s.log, e, id); }
    hide Finished, Safe, Distinct;
  }

  lemma ReturnKeeps(s: State)
    requires Inv(s) && Enabled(s, Return)
    ensures Inv(Apply(s, Return))
  {
    hide Finished, Safe, Distinct;
    var top := s.running[|s.running| - 1];
    if top.DeliverRunning? && top.terminal { assert Debts(s, top.id) <= 1; }
  }

  lemma DestroyKeeps(s: State, a: Action)
    requires Inv(s) && Enabled(s, a) && (a.DestroyEnter? || a.DestroyClear?)
    ensures Inv(Apply(s, a))
  {
    hide Finished, Safe;
    if a.DestroyClear? {
      forall id ensures Open(s, id) <==> id in a.order { }
    }
  }

  lemma CloseKeeps(s: State)
    requires Inv(s) && Enabled(s, CloseInvoke)
    ensures Inv(Apply(s, CloseInvoke))
  {
    var e := Event(s.pending[0], ErrorEvent);
    assert Debts(s, e.id) <= 1 && InPending(s, e.id);
    SafeAppend(s.log, e);
    forall id { FinishedAppend(s.log, e, id); }
    DistinctTail(s.pending);
    hide Finished, Safe, Distinct;
  }

  lemma DistinctTail(ids: seq<Id>)
    requires ids != [] && Distinct(ids)
    ensures Distinct(ids[1..]) && ids[0] !in ids[1..]
    ensures forall id :: id in ids <==> id == ids[0] || id in ids[1..]
  {
  }

  lemma StepKeeps(s: State, a: Action)
    requires Inv(s) && Enabled(s, a)
    ensures Inv(Apply(s, a))
  {
    hide Inv, Apply, Enabled;
    match a
    case ExecuteRejected(_, _) => ExecuteKeeps(s, a);
    case ExecuteRegister(_, _) => ExecuteKeeps(s, a);
    case AdmitOk => AdmitKeeps(s, a);
    case AdmitFail => AdmitKeeps(s, a);
    case RejectInvoke => RejectKeeps(s, a);
    case RejectReturn => RejectKeeps(s, a);
    case CancelEnter(_, _) => CancelKeeps(s, a);
    case CancelTake => CancelKeeps(s, a);
    case DeliverEnter(_, _, _) => DeliverKeeps(s, a);
    case Invoke => InvokeKeeps(s);
    case Return => ReturnKeeps(s);
    case DestroyEnter(_) => DestroyKeeps(s, a);
    case DestroyClear(_) => DestroyKeeps(s, a);
    case CloseInvoke => CloseKeeps(s);
  }

  lemma {:induction false} RunKeeps(s: State, actions: seq<Action>)
    requires Inv(s) && ValidRun(s, actions)
    ensures Inv(Run(s, actions))
    decreases |actions|
  {
    hide Inv, Apply, Enabled;
    if actions != [] {
      StepKeeps(s, actions[0]);
      RunKeeps(Apply(s, actions[0]), actions[1..]);
    }
  }

  /** From the moment `destroy` has left its join, the registry is and stays empty. */
  ghost predicate Cleared(s: State) { s.destroyed && !s.lifecycle.Joining? ==> forall id :: id !in s.registry }

  lemma StepKeepsCleared(s: State, a: Action)
    requires Cleared(s) && Enabled(s, a)
    ensures Cleared(Apply(s, a))
  {
    hide Distinct;
  }

  lemma {:induction false} RunKeepsCleared(s: State, actions: seq<Action>)
    requires Cleared(s) && ValidRun(s, actions)
    ensures Cleared(Run(s, actions))
    decreases |actions|
  {
    hide Cleared, Apply, Enabled;
    if actions != [] {
      StepKeepsCleared(s, actions[0]);
      RunKeepsCleared(Apply(s, actions[0]), actions[1..]);
    }
  }

  // ---------------------------------------------------------------- main results

  /** Over every interleaving each request sees at most one COMPLETE or ERROR and
      nothing after it. */
  lemma TerminalEventProtocol(actions: seq<Action>)
    ensures ValidRun(INIT, actions) ==> Safe(Run(INIT, actions).log)
  {
    hide Run, ValidRun, Safe;
    InitInv();
    if ValidRun(INIT, actions) { RunKeeps(INIT, actions); }
  }

  /** Nobody is forgotten: in every reachable state each executed request either has
      had its terminal event or is owed it by exactly one place. */
  lemma EveryRequestIsOwed(actions: seq<Action>, id: Id)
    ensures ValidRun(INIT, actions) && id in Run(INIT, actions).used ==> Debts(Run(INIT, actions), id) == 1
  {
    hide Run, ValidRun, Debts;
    InitInv();
    if ValidRun(INIT, actions) { RunKeeps(INIT, actions); }
  }

  /** `destroy` has returned from its join, has invoked all its callbacks, and every other
      call has left its critical section. */
  predicate DestroyThrough(s: State) {
    s.destroyed && s.lifecycle.Free? && s.pending == [] && s.armed.None?
  }

  /** Once destroy is through, the registry is empty and each executed request has had
      its one terminal event. */
  lemma DestroyAnswersEveryone(actions: seq<Action>, id: Id)
    ensures ValidRun(INIT, actions) && DestroyThrough(Run(INIT, actions)) ==>
              id !in Run(INIT, actions).registry &&
              (id in Run(INIT, actions).used ==> Finished(Run(INIT, actions).log, id))
  {
    hide Run, ValidRun, Finished;
    assert Cleared(INIT);
    if ValidRun(INIT, actions) { RunKeepsCleared(INIT, actions); }
    EveryRequestIsOwed(actions, id);
  }

  // ---------------------------------------------------------------- what is shown is what was delivered

  /** The kinds of the events shown for one request, in order. */
  function KindsOf(log: seq<Event>, id: Id): seq<Kind> {
    if log == [] then []
    else
      var last := log[|log| - 1];
      KindsOf(log[..|log| - 1], id) + if last.id == id then [last.kind] else []
  }

  /** Shown, or about to be shown by the callback that is armed. */
  function Shown(s: State, id: Id): seq<Kind> {
    KindsOf(s.log, id) + if s.armed.Some? && s.armed.value.id == id then [s.armed.value.kind] else []
  }

  /** The registry lets an event of this request through. */
  predicate Passes(s: State, id: Id) {
    id in s.registry && !s.registry[id].terminal && !s.registry[id].cancelled
  }

  /** The event a worker delivers with this action, when it gets through. */
  function DeliveredBy(s: State, a: Action, id: Id): seq<Kind> {
    if a.DeliverEnter? && a.id == id && Passes(s, id) then [a.kind] else []
  }

  /** The error the engine itself adds with this action. */
  predicate ForcedBy(s: State, a: Action, id: Id) {
    match a
    case CancelTake => s.lifecycle == CancelWaiting(id) && Passes(s, id)
    case RejectInvoke => s.lifecycle == Rejecting(id)
    case CloseInvoke => s.pending != [] && s.pending[0] == id
    case _ => false
  }

  /** A cancel of the request, a rejection of its execution or admission, or a destroy. */
  predicate CauseBy(s: State, a: Action, id: Id) {
    match a
    case CancelEnter(_, x) => x == id
    case ExecuteRejected(_, x) => x == id
    case AdmitFail => s.lifecycle == Admitting(id)
    case DestroyEnter(_) => true
    case _ => false
  }

  /** Everything delivered for the request over a run, in order. */
  ghost function Delivered(s: State, actions: seq<Action>, id: Id): seq<Kind>
    requires ValidRun(s, actions)
    decreases |actions|
  {
    if actions == [] then []
    else DeliveredBy(s, actions[0], id) + Delivered(Apply(s, actions[0]), actions[1..], id)
  }

  ghost predicate ForcedIn(s: State, actions: seq<Action>, id: Id)
    requires ValidRun(s, actions)
    decreases |actions|
  {
    actions != [] && (ForcedBy(s, actions[0], id) || ForcedIn(Apply(s, actions[0]), actions[1..], id))
  }

  ghost predicate CauseIn(s: State, actions: seq<Action>, id: Id)
    requires ValidRun(s, actions)
    decreases |actions|
  {
    actions != [] && (CauseBy(s, actions[0], id) || CauseIn(Apply(s, actions[0]), actions[1..], id))
  }

  lemma KindsSnoc(log: seq<Event>, e: Event, id: Id)
    ensures KindsOf(log + [e], id) == KindsOf(log, id) + if e.id == id then [e.kind] else []
  {
    assert (log + [e])[..|log|] == log;
  }

  lemma RejectedIsNotArmed(s: State)
    requires Inv(s) && s.lifecycle.Rejecting?
    ensures s.armed.Some? ==> s.armed.value.id != s.lifecycle.id
  {
    hide Finished, Safe, Distinct;
    assert Debts(s, s.lifecycle.id) <= 1;
  }

  lemma StepShows(s: State, a: Action, id: Id)
    requires Inv(s) && Enabled(s, a)
    ensures Shown(Apply(s, a), id) ==
            Shown(s, id) + DeliveredBy(s, a, id) + if ForcedBy(s, a, id) then [ErrorEvent] else []
  {
    hide Inv, KindsOf, Finished, Distinct, IsPendingOrder;
    if a.RejectInvoke? {
      RejectedIsNotArmed(s);
      KindsSnoc(s.log, Event(s.lifecycle.id, ErrorEvent), id);
    } else if a.Invoke? {
      KindsSnoc(s.log, Event(s.armed.value.id, s.armed.value.kind), id);
    } else if a.CloseInvoke? {
      KindsSnoc(s.log, Event(s.pending[0], ErrorEvent), id);
    } else if a.CancelTake? {
      RegisteredIsLive(s);
    }
  }

  lemma RegisteredIsLive(s: State)
    requires Inv(s)
    ensures forall id :: id in s.registry ==> !s.registry[id].cancelled
  {
    hide Finished, Safe, Distinct;
  }

  /** The terminal event has been shown or is armed. */
  ghost predicate Ended(s: State, id: Id) { Finished(s.log, id) || ArmedTerminal(s, id) }

  lemma EndedStays(s: State, a: Action, id: Id)
    requires Enabled(s, a) && Ended(s, id)
    ensures Ended(Apply(s, a), id)
  {
    if a.Invoke? {
      FinishedAppend(s.log, Event(s.armed.value.id, s.armed.value.kind), id);
    } else if a.RejectInvoke? {
      FinishedAppend(s.log, Event(s.lifecycle.id, ErrorEvent), id);
    } else if a.CloseInvoke? {
      FinishedAppend(s.log, Event(s.pending[0], ErrorEvent), id);
    }
    hide Finished;
  }

  lemma EndedIsQuiet(s: State, a: Action, id: Id)
    requires Inv(s) && Enabled(s, a) && Ended(s, id)
    ensures DeliveredBy(s, a, id) == [] && !ForcedBy(s, a, id)
  {
    hide Finished, Safe, Distinct;
    assert Debts(s, id) <= 1;
  }

  lemma {:induction false} NothingAfterTheEnd(s: State, actions: seq<Action>, id: Id)
    requires Inv(s) && ValidRun(s, actions) && Ended(s, id)
    ensures Delivered(s, actions, id) == [] && !ForcedIn(s, actions, id)
    decreases |actions|
  {
    hide Inv, Apply, Enabled, Ended, DeliveredBy, ForcedBy;
    if actions != [] {
      StepKeeps(s, actions[0]);
      EndedIsQuiet(s, actions[0], id);
      EndedStays(s, actions[0], id);
      NothingAfterTheEnd(Apply(s, actions[0]), actions[1..], id);
    }
  }

  lemma ForcedEnds(s: State, a: Action, id: Id)
    requires Inv(s) && Enabled(s, a) && ForcedBy(s, a, id)
    ensures Ended(Apply(s, a), id) && DeliveredBy(s, a, id) == []
  {
    if a.RejectInvoke? {
      FinishedAppend(s.log, Event(id, ErrorEvent), id);
    } else if a.CloseInvoke? {
      FinishedAppend(s.log, Event(id, ErrorEvent), id);
    }
    hide Finished, Inv;
  }

  lemma {:induction false} RunShows(s: State, actions: seq<Action>, id: Id)
    requires Inv(s) && ValidRun(s, actions)
    ensures Shown(Run(s, actions), id) ==
            Shown(s, id) + Delivered(s, actions, id) + if ForcedIn(s, actions, id) then [ErrorEvent] else []
    decreases |actions|
  {
    hide Inv, Apply, Enabled, Ended, DeliveredBy, ForcedBy, Shown;
    if actions != [] {
      var a, t := actions[0], Apply(s, actions[0]);
      StepKeeps(s, a);
      StepShows(s, a, id);
      RunShows(t, actions[1..], id);
      if ForcedBy(s, a, id) {
        ForcedEnds(s, a, id);
        NothingAfterTheEnd(t, actions[1..], id);
      }
      var rest := Delivered(t, actions[1..], id);
      assert Shown(s, id) + DeliveredBy(s, a, id) + rest == Shown(s, id) + (DeliveredBy(s, a, id) + rest);
    }
  }

  /** Once a cancel has found its request alive, whatever is delivered later: the request is
      shown one ERROR more and nothing else. */
  lemma CancelEnds(s: State, actions: seq<Action>, id: Id)
    requires Inv(s) && s.lifecycle == CancelWaiting(id) && Enabled(s, CancelTake)
    requires id in s.registry && !s.registry[id].terminal && ValidRun(Apply(s, CancelTake), actions)
    ensures Shown(Run(Apply(s, CancelTake), actions), id) == KindsOf(s.log, id) + [ErrorEvent]
  {
    RegisteredIsLive(s);
    StepKeeps(s, CancelTake);
    ForcedEnds(s, CancelTake, id);
    StepShows(s, CancelTake, id);
    hide Inv, Run, ValidRun, KindsOf, Delivered, ForcedIn, Ended;
    var t := Apply(s, CancelTake);
    NothingAfterTheEnd(t, actions, id);
    RunShows(t, actions, id);
    assert Shown(s, id) == KindsOf(s.log, id) && Shown(t, id) == KindsOf(s.log, id) + [ErrorEvent];
    assert Shown(t, id) + [] + [] == Shown(t, id);
  }

  /** An error of the engine's own is in the making. */
  predicate Blamed(s: State, id: Id) {
    s.lifecycle == CancelWaiting(id) || s.lifecycle == Rejecting(id) || id in s.pending || s.lifecycle.Joining?
  }

  lemma BlameHasCause(s: State, a: Action, id: Id)
    requires Enabled(s, a)
    ensures Blamed(Apply(s, a), id) ==> Blamed(s, id) || CauseBy(s, a, id)
    ensures ForcedBy(s, a, id) ==> Blamed(s, id)
  {
    hide Finished, Distinct;
  }

  lemma {:induction false} ForcedHasCause(s: State, actions: seq<Action>, id: Id)
    requires ValidRun(s, actions) && ForcedIn(s, actions, id)
    ensures Blamed(s, id) || CauseIn(s, actions, id)
    decreases |actions|
  {
    hide Apply, Enabled, ForcedBy, Blamed, CauseBy;
    var a := actions[0];
    BlameHasCause(s, a, id);
    if !ForcedBy(s, a, id) { ForcedHasCause(Apply(s, a), actions[1..], id); }
  }

  /** Over every run: what the application is shown of a request is exactly what was
      delivered for it, kind by kind and in order, followed by at most one ERROR of the
      engine's own, and that only after a cancel of the request, a rejection of its
      execution or admission, or a destroy. */
  lemma ShownIsDelivered(actions: seq<Action>, id: Id)
    ensures ValidRun(INIT, actions) ==>
              && Shown(Run(INIT, actions), id) ==
                 Delivered(INIT, actions, id) + (if ForcedIn(INIT, actions, id) then [ErrorEvent] else [])
              && (ForcedIn(INIT, actions, id) ==> CauseIn(INIT, actions, id))
  {
    InitInv();
    assert Shown(INIT, id) == [] && !Blamed(INIT, id);
    hide Run, ValidRun, Shown, Delivered, ForcedIn, CauseIn, Blamed, Inv;
    if ValidRun(INIT, actions) {
      RunShows(INIT, actions, id);
      assert [] + Delivered(INIT, actions, id) == Delivered(INIT, actions, id);
      if ForcedIn(INIT, actions, id) { ForcedHasCause(INIT, actions, id); }
    }
  }

  lemma {:induction false} LoggedIsShown(log: seq<Event>, k: nat)
    requires k < |log|
    ensures log[k].kind in KindsOf(log, log[k].id)
  {
    if k < |log| - 1 { LoggedIsShown(log[..|log| - 1], k); }
  }

  /** An event that is shown was delivered with that very kind, unless it is the ERROR of a
      request that was cancelled, rejected or caught by destroy. */
  lemma NoInventedEvents(actions: seq<Action>, k: nat)
    ensures ValidRun(INIT, actions) && k < |Run(INIT, actions).log| ==>
              var e := Run(INIT, actions).log[k];
              e.kind in Delivered(INIT, actions, e.id) || (e.kind == ErrorEvent && CauseIn(INIT, actions, e.id))
  {
    hide Run, ValidRun, Delivered, ForcedIn, CauseIn, KindsOf;
    if ValidRun(INIT, actions) && k < |Run(INIT, actions).log| {
      var e := Run(INIT, actions).log[k];
      ShownIsDelivered(actions, e.id);
      LoggedIsShown(Run(INIT, actions).log, k);
      assert e.kind in Shown(Run(INIT, actions), e.id);
    }
  }
}
