/** Client-side admission per origin: at most `maxActive` permits, at most `maxQueued`
    waiters, strict priority between eight urgency queues and FIFO inside each. */
module RequestScheduler {
  import opened Text

  const URGENCIES := 8

  /** A queued call; numbers grow in queueing order. */
  type Waiter = nat

  type Queues = seq<seq<Waiter>>

  datatype OriginState = OriginState(active: int, waiters: Queues)

  function Total(qs: Queues): nat {
    if qs == [] then 0 else |qs[0]| + Total(qs[1..])
  }

  predicate AllEmpty(qs: Queues) { forall u :: 0 <= u < |qs| ==> qs[u] == [] }

  predicate Increasing(q: seq<Waiter>) { forall i, j :: 0 <= i < j < |q| ==> q[i] < q[j] }

  lemma {:induction false} TotalUpdate(qs: Queues, u: nat, q: seq<Waiter>)
    requires u < |qs|
    ensures Total(qs[u := q]) == Total(qs) - |qs[u]| + |q|
  {
    if u == 0 {
      assert qs[u := q][1..] == qs[1..];
    } else {
      assert qs[u := q][1..] == qs[1..][u - 1 := q];
      TotalUpdate(qs[1..], u - 1, q);
    }
  }

  lemma {:induction false} TotalZero(qs: Queues)
    ensures Total(qs) == 0 <==> AllEmpty(qs)
  {
    if qs != [] {
      TotalZero(qs[1..]);
      if AllEmpty(qs[1..]) && qs[0] == [] {
        forall u | 0 <= u < |qs| ensures qs[u] == [] { if u > 0 { assert qs[1..][u - 1] == []; } }
      }
      if AllEmpty(qs) {
        forall u | 0 <= u < |qs[1..]| ensures qs[1..][u] == [] { assert qs[u + 1] == []; }
      }
    }
  }

  lemma {:induction false} TotalMonotone(qs: Queues, rs: Queues)
    requires |qs| == |rs| && forall u :: 0 <= u < |qs| ==> |rs[u]| <= |qs[u]|
    ensures Total(rs) <= Total(qs)
  {
    if qs != [] {
      assert forall u :: 0 <= u < |qs| - 1 ==> qs[1..][u] == qs[u + 1] && rs[1..][u] == rs[u + 1];
      TotalMonotone(qs[1..], rs[1..]);
    }
  }

  // ---------------------------------------------------------------- choosing the next waiter

  datatype Pick = Nobody | Chosen(urgency: nat, position: nat)

  /** First live waiter of one queue, or its length. */
  function FirstLive(q: seq<Waiter>, live: set<Waiter>): (k: nat)
    ensures k <= |q| && (k < |q| ==> q[k] in live)
    ensures forall i :: 0 <= i < k ==> q[i] !in live
  {
    if q == [] || q[0] in live then 0 else 1 + FirstLive(q[1..], live)
  }

  function PickFrom(qs: Queues, from: nat, live: set<Waiter>): (p: Pick)
    requires from <= |qs|
    ensures p.Nobody? <==> forall u, i :: from <= u < |qs| && 0 <= i < |qs[u]| ==> qs[u][i] !in live
    ensures p.Chosen? ==>
              && from <= p.urgency < |qs| && p.position < |qs[p.urgency]| && qs[p.urgency][p.position] in live
              && (forall u, i :: from <= u < p.urgency && 0 <= i < |qs[u]| ==> qs[u][i] !in live)
              && (forall i :: 0 <= i < p.position ==> qs[p.urgency][i] !in live)
    decreases |qs| - from
  {
    if from == |qs| then Nobody
    else
      var k := FirstLive(qs[from], live);
      if k < |qs[from]| then Chosen(from, k) else PickFrom(qs, from + 1, live)
  }

  /** Queues below the pick are drained of dead waiters, the pick and the dead ones in
      front of it leave their queue, the rest stays. */
  function AfterPick(qs: Queues, p: Pick): Queues
    requires p.Chosen? ==> p.urgency < |qs| && p.position < |qs[p.urgency]|
  {
    seq(|qs|, u requires 0 <= u < |qs| =>
      if p.Nobody? || u < p.urgency then [] else if u == p.urgency then qs[u][p.position + 1..] else qs[u])
  }

  /** The waiter a freed slot goes to. */
  function NextOf(qs: Queues, live: set<Waiter>): Option<Waiter> {
    var p := PickFrom(qs, 0, live);
    if p.Chosen? then Some(qs[p.urgency][p.position]) else None
  }

  /** The pick is the earliest-queued live waiter of the lowest urgency number (section
      4.1 of RFC 9218). */
  lemma PickIsFairest(qs: Queues, live: set<Waiter>, u: nat, i: nat)
    requires forall v :: 0 <= v < |qs| ==> Increasing(qs[v])
    requires u < |qs| && i < |qs[u]| && qs[u][i] in live
    ensures var p := PickFrom(qs, 0, live);
            p.Chosen? && (p.urgency < u || (p.urgency == u && qs[u][p.position] <= qs[u][i]))
  {
    var p := PickFrom(qs, 0, live);
    if p.Chosen? && p.urgency == u && p.position > i { assert false; }
  }

  lemma PositionIn(q: seq<Waiter>, w: Waiter) returns (i: nat)
    requires w in q
    ensures i < |q| && q[i] == w
  {
    i :| 0 <= i < |q| && q[i] == w;
  }

  /** A pick takes one waiter out of its queue and, besides it, only waiters that have
      already given up: every other live waiter stays at its urgency, nobody is added or
      moved, and the order in each queue is kept. */
  lemma PickTakesOne(qs: Queues, live: set<Waiter>, u: nat, w: Waiter)
    requires u < |qs| && Increasing(qs[u])
    ensures var p, rest := PickFrom(qs, 0, live), AfterPick(qs, PickFrom(qs, 0, live));
            && |rest| == |qs| && Increasing(rest[u])
            && (w in rest[u] ==> w in qs[u])
            && (w in qs[u] && w in live ==>
                  p.Chosen? && (w in rest[u] <==> !(u == p.urgency && w == qs[p.urgency][p.position])))
  {
    hide Increasing;
    var p := PickFrom(qs, 0, live);
    var rest := AfterPick(qs, p);
    if p.Nobody? || u < p.urgency {
      assert rest[u] == [];
      if w in qs[u] { var i := PositionIn(qs[u], w); }
      NothingIncreasing();
    } else if u == p.urgency {
      assert rest[u] == qs[u][p.position + 1..];
      TailWithout(qs[u], p.position, w, live);
    } else {
      assert rest[u] == qs[u];
    }
  }

  lemma NothingIncreasing()
    ensures Increasing([])
  {
  }

  /** A queue cut behind its first live waiter loses no other live one. */
  lemma TailWithout(q: seq<Waiter>, k: nat, w: Waiter, live: set<Waiter>)
    requires k < |q| && Increasing(q) && forall i :: 0 <= i < k ==> q[i] !in live
    ensures Increasing(q[k + 1..]) && (w in q[k + 1..] ==> w in q)
    ensures w in q && w in live ==> (w in q[k + 1..] <==> w != q[k])
  {
    var t := q[k + 1..];
    assert forall i :: 0 <= i < |t| ==> t[i] == q[k + 1 + i];
    if w in q && w in live {
      var i := PositionIn(q, w);
      if i > k { assert t[i - k - 1] == w; }
    }
  }

  // ---------------------------------------------------------------- permits

  function PermitsOf(outstanding: map<nat, string>, origin: string): set<nat> {
    set p | p in outstanding && outstanding[p] == origin
  }

  lemma PermitAddedAt(outstanding: map<nat, string>, p: nat, origin: string, o: string)
    requires p !in outstanding
    ensures |PermitsOf(outstanding[p := origin], o)| == |PermitsOf(outstanding, o)| + if o == origin then 1 else 0
  {
    var after := outstanding[p := origin];
    if o == origin {
      assert PermitsOf(after, o) == PermitsOf(outstanding, o) + {p};
    } else {
      assert PermitsOf(after, o) == PermitsOf(outstanding, o);
    }
  }

  lemma PermitAdded(outstanding: map<nat, string>, p: nat, origin: string)
    requires p !in outstanding
    ensures forall o ::
              |PermitsOf(outstanding[p := origin], o)| == |PermitsOf(outstanding, o)| + if o == origin then 1 else 0
  {
    hide PermitsOf;
    forall o { PermitAddedAt(outstanding, p, origin, o); }
  }

  lemma PermitRemovedAt(outstanding: map<nat, string>, p: nat, o: string)
    requires p in outstanding
    ensures |PermitsOf(outstanding - {p}, o)| == |PermitsOf(outstanding, o)| - if o == outstanding[p] then 1 else 0
  {
    var after := outstanding - {p};
    if o == outstanding[p] {
      assert PermitsOf(outstanding, o) == PermitsOf(after, o) + {p};
    } else {
      assert PermitsOf(after, o) == PermitsOf(outstanding, o);
    }
  }

  lemma PermitRemoved(outstanding: map<nat, string>, p: nat)
    requires p in outstanding
    ensures forall o ::
              |PermitsOf(outstanding - {p}, o)| == |PermitsOf(outstanding, o)| - if o == outstanding[p] then 1 else 0
  {
    hide PermitsOf;
    forall o { PermitRemovedAt(outstanding, p, o); }
  }

  // ---------------------------------------------------------------- the scheduler

  datatype Acquired = Closed | Granted(permit: nat) | QueueFull | Queued(waiter: Waiter)

  ghost predicate StateOk(maxActive: nat, maxQueued: nat, nextWaiter: nat, st: OriginState, permits: nat) {
    && st.active == permits && 1 <= st.active <= maxActive
    && |st.waiters| == URGENCIES && Total(st.waiters) <= maxQueued
    && (!AllEmpty(st.waiters) ==> st.active == maxActive)
    && (forall u :: 0 <= u < URGENCIES ==> Increasing(st.waiters[u]))
    && (forall u, i :: 0 <= u < URGENCIES && 0 <= i < |st.waiters[u]| ==> st.waiters[u][i] < nextWaiter)
  }

  class OriginRequestScheduler {
    const maxActive: nat
    const maxQueued: nat
    var origins: map<string, OriginState>
    var closed: bool

    /** Continuations that have been neither resumed nor cancelled. A cancelled call
        leaves this set before its cancellation handler removes it from the queues. */
    var live: set<Waiter>
    var nextWaiter: nat
    var nextPermit: nat

    /** Permits whose `close` has not run, by origin, including those on their way to
        a waiter that may still turn out to be cancelled. */
    var outstanding: map<nat, string>

    /** Before `close`, every origin's `active` is the number of its outstanding
        permits, within `maxActive`; waiters exist only when all permits are out. */
    ghost predicate Valid()
      reads this
    {
      && maxActive > 0
      && (closed ==> origins == map[])
      && (!closed ==> forall o :: o in origins ==>
            StateOk(maxActive, maxQueued, nextWaiter, origins[o], |PermitsOf(outstanding, o)|))
      && (!closed ==> forall o :: o !in origins ==> |PermitsOf(outstanding, o)| == 0)
      && (forall p :: p in outstanding ==> p < nextPermit)
      && (forall w :: w in live ==> w < nextWaiter)
    }

    constructor (maxActive: nat, maxQueued: nat)
      requires maxActive > 0
      ensures Valid() && !closed && origins == map[] && outstanding == map[]
      ensures this.maxActive == maxActive && this.maxQueued == maxQueued
    {
      this.maxActive, this.maxQueued := maxActive, maxQueued;
      origins, closed, live, nextWaiter, nextPermit, outstanding := map[], false, {}, 0, 0, map[];
    }

    method NewPermit(origin: string) returns (permit: nat)
      requires forall p :: p in outstanding ==> p < nextPermit
      modifies this`nextPermit, this`outstanding
      ensures permit == old(nextPermit) && nextPermit == old(nextPermit) + 1
      ensures permit !in old(outstanding) && outstanding == old(outstanding)[permit := origin]
      ensures forall p :: p in outstanding ==> p < nextPermit
      ensures forall o :: |PermitsOf(outstanding, o)| == |PermitsOf(old(outstanding), o)| + if o == origin then 1 else 0
    {
      PermitAdded(outstanding, nextPermit, origin);
      permit := nextPermit;
      nextPermit := nextPermit + 1;
      outstanding := outstanding[permit := origin];
    }

    method Acquire(origin: string, urgency: nat) returns (r: Acquired)
      requires Valid() && urgency < URGENCIES
      modifies this
      ensures Valid() && closed == old(closed)
      ensures r.Closed? <==> old(closed)
      ensures r.Closed? || r.QueueFull? ==>
                outstanding == old(outstanding) && live == old(live) && origins == old(origins)
      ensures !old(closed) ==>
                var permits := |PermitsOf(old(outstanding), origin)|;
                && (r.Granted? <==> permits < maxActive)
                && (r.Granted? ==> r.permit !in old(outstanding) && outstanding == old(outstanding)[r.permit := origin])
                && (r.QueueFull? ==>
                      permits == maxActive && origin in origins && Total(origins[origin].waiters) >= maxQueued)
                && (r.Queued? ==> permits == maxActive && outstanding == old(outstanding) && r.waiter in live &&
                                  origin in old(origins) && Total(old(origins)[origin].waiters) < maxQueued &&
                                  origins == old(origins)[origin := Enqueued(old(origins)[origin], urgency, r.waiter)])
    {
      hide PermitsOf, Total, AllEmpty, Increasing, StateOk;
      if closed { return Closed; }
      var st := if origin in origins then origins[origin] else OriginState(0, seq(URGENCIES, _ => []));
      ghost var permits := |PermitsOf(outstanding, origin)|;
      if origin !in origins {
        FreshState(maxActive, maxQueued, nextWaiter);
      } else {
        StateOkParts(maxActive, maxQueued, nextWaiter, st, permits);
      }
      if st.active < maxActive {
        if origin in origins { OneMorePermit(maxActive, maxQueued, nextWaiter, st, permits); }
        var permit := NewPermit(origin);
        origins := origins[origin := st.(active := st.active + 1)];
        return Granted(permit);
      }
      if Total(st.waiters) >= maxQueued { return QueueFull; }
      var w := nextWaiter;
      EnqueuedOk(maxActive, maxQueued, w, st, permits, urgency);
      forall o | o in origins
        ensures StateOk(maxActive, maxQueued, w + 1, origins[o], |PermitsOf(outstanding, o)|)
      {
        WaiterBoundGrows(maxActive, maxQueued, w, origins[o], |PermitsOf(outstanding, o)|);
      }
      nextWaiter := w + 1;
      live := live + {w};
      origins := origins[origin := Enqueued(st, urgency, w)];
      return Queued(w);
    }

    /** Skips the dead waiters at the head of one queue. */
    method DrainDead(q: seq<Waiter>) returns (k: nat)
      ensures k == FirstLive(q, live)
    {
      k := 0;
      while k < |q| && q[k] !in live
        invariant 0 <= k <= |q|
        invariant forall i :: 0 <= i < k ==> q[i] !in live
      {
        k := k + 1;
      }
      FirstLiveIs(q, live, k);
    }

    /** The search in `release`: drains dead waiters until a live one turns up. */
    method PopNext(qs: Queues) returns (next: Option<Waiter>, rest: Queues)
      requires |qs| == URGENCIES
      ensures var p := PickFrom(qs, 0, live);
              rest == AfterPick(qs, p) && next == NextOf(qs, live)
    {
      hide PickFrom, FirstLive;
      next := None;
      rest := qs;
      var u := 0;
      while u < |qs|
        invariant 0 <= u <= |qs| && |rest| == |qs| && next.None?
        invariant PickFrom(qs, 0, live) == PickFrom(qs, u, live)
        invariant forall v :: 0 <= v < |qs| ==> rest[v] == if v < u then [] else qs[v]
      {
        var k := DrainDead(qs[u]);
        PickStep(qs, u, live);
        if k < |qs[u]| {
          next := Some(qs[u][k]);
          rest := rest[u := qs[u][k + 1..]];
          return;
        }
        rest := rest[u := []];
        u := u + 1;
      }
      PickStep(qs, u, live);
    }

    /** `Permit.close`: at most once per permit the slot goes to the next waiter, as a
        new permit, or is given back. */
    method ClosePermit(permit: nat) returns (next: Option<Waiter>, handedOn: nat)
      requires Valid()
      modifies this`outstanding, this`origins, this`nextPermit
      ensures Valid()
      ensures permit !in old(outstanding) ==> next.None? && outstanding == old(outstanding) && origins == old(origins)
      ensures permit in old(outstanding) && closed ==> next.None? && outstanding == old(outstanding) - {permit}
      ensures permit in old(outstanding) && !closed ==>
                var o := old(outstanding)[permit];
                && o in old(origins)
                && var st := old(origins)[o];
                   var p := PickFrom(st.waiters, 0, live);
                   && next == NextOf(st.waiters, live)
                   && (p.Chosen? ==>
                         && handedOn !in old(outstanding) && outstanding == (old(outstanding) - {permit})[handedOn := o]
                         && origins == old(origins)[o := OriginState(st.active, AfterPick(st.waiters, p))])
                   && (p.Nobody? ==>
                         && outstanding == old(outstanding) - {permit}
                         && origins == if st.active == 1 then old(origins) - {o}
                                       else old(origins)[o := OriginState(st.active - 1, AfterPick(st.waiters, p))])
    {
      hide PermitsOf, Total, AllEmpty, Increasing, StateOk, PickFrom, AfterPick;
      next, handedOn := None, 0;
      if permit !in outstanding { return; }
      var origin := outstanding[permit];
      PermitRemoved(outstanding, permit);
      PermitCounted(outstanding, permit);
      ghost var permits := |PermitsOf(outstanding, origin)|;
      outstanding := outstanding - {permit};
      if origin !in origins { return; }
      var st := origins[origin];
      StateOkParts(maxActive, maxQueued, nextWaiter, st, permits);
      var rest: Queues;
      next, rest := PopNext(st.waiters);
      PickedOk(maxActive, maxQueued, nextWaiter, st, permits, live);
      if next.None? {
        if st.active - 1 == 0 {
          origins := origins - {origin};
        } else {
          origins := origins[origin := OriginState(st.active - 1, rest)];
        }
        return;
      }
      handedOn := NewPermit(origin);
      origins := origins[origin := OriginState(st.active, rest)];
    }

    /** Resuming the chosen call: if it was cancelled in the meantime, the permit it
        would have received is closed again and the slot travels on. */
    method Resume(w: Waiter, permit: nat) returns (accepted: bool, next: Option<Waiter>, handedOn: nat)
      requires Valid() && permit in outstanding
      modifies this`outstanding, this`origins, this`nextPermit, this`live
      ensures Valid()
      ensures accepted <==> w in old(live)
      ensures accepted ==> outstanding == old(outstanding) && origins == old(origins) && live == old(live) - {w}
      ensures !accepted ==> live == old(live) && permit !in outstanding
      ensures !accepted && !closed ==>
                var o := old(outstanding)[permit];
                o in old(origins) && next == NextOf(old(origins)[o].waiters, live) &&
                (next.Some? ==> handedOn in outstanding && outstanding[handedOn] == o)
    {
      next, handedOn := None, 0;
      accepted := w in live;
      if accepted {
        live := live - {w};
      } else {
        next, handedOn := ClosePermit(permit);
      }
    }

    /** A call is cancelled or times out; its handler runs later. */
    method Cancel(w: Waiter)
      requires Valid()
      modifies this`live
      ensures Valid() && live == old(live) - {w}
    {
      live := live - {w};
    }

    method RemoveWaiter(origin: string, w: Waiter)
      requires Valid()
      modifies this`origins
      ensures Valid()
      ensures origin !in old(origins) ==> origins == old(origins)
      ensures origin in old(origins) ==>
                var st := old(origins)[origin];
                origins == old(origins)[origin := st.(waiters := Removed(st.waiters, w))]
    {
      hide StateOk;
      if origin !in origins { return; }
      var st := origins[origin];
      RemovedOk(maxActive, maxQueued, nextWaiter, st, |PermitsOf(outstanding, origin)|, w);
      StateOkParts(maxActive, maxQueued, nextWaiter, st, |PermitsOf(outstanding, origin)|);
      var rest := Removed(st.waiters, w);
      origins := if st.active == 0 && Total(rest) == 0 then origins - {origin}
                 else origins[origin := st.(waiters := rest)];
    }

    /** Ends admission: every queued call that is still live fails. */
    method Close() returns (failed: set<Waiter>)
      requires Valid()
      modifies this`origins, this`closed, this`live
      ensures Valid() && closed && origins == map[]
      ensures old(closed) ==> failed == {} && live == old(live)
      ensures !old(closed) ==> failed == AllWaiters(old(origins)) * old(live) && live == old(live) - failed
    {
      if closed { return {}; }
      failed := AllWaiters(origins) * live;
      closed := true;
      live := live - failed;
      origins := map[];
    }
  }

  function Enqueued(st: OriginState, urgency: nat, w: Waiter): OriginState
    requires urgency < |st.waiters|
  {
    st.(waiters := st.waiters[urgency := st.waiters[urgency] + [w]])
  }

  function RemoveFrom(q: seq<Waiter>, w: Waiter): (r: seq<Waiter>)
    ensures |r| <= |q|
    ensures forall x :: x in r <==> x in q && x != w
  {
    if q == [] then [] else (if q[0] == w then [] else [q[0]]) + RemoveFrom(q[1..], w)
  }

  function Removed(qs: Queues, w: Waiter): Queues {
    seq(|qs|, u requires 0 <= u < |qs| => RemoveFrom(qs[u], w))
  }

  function AllWaiters(origins: map<string, OriginState>): set<Waiter> {
    set o, u, i | o in origins && 0 <= u < |origins[o].waiters| && 0 <= i < |origins[o].waiters[u]| ::
      origins[o].waiters[u][i]
  }

  /** Closing reaches every queued waiter of every origin, and nobody else. */
  lemma EveryQueueIsReached(origins: map<string, OriginState>, w: Waiter)
    ensures w in AllWaiters(origins) <==>
            exists o, u :: o in origins && 0 <= u < |origins[o].waiters| && w in origins[o].waiters[u]
  {
    forall o, u | o in origins && 0 <= u < |origins[o].waiters| && w in origins[o].waiters[u]
      ensures w in AllWaiters(origins)
    {
      var i := PositionIn(origins[o].waiters[u], w);
    }
  }

  /** A new waiter stands last in the queue of its urgency; cancelling it takes it out of
      every queue and nobody else out of any. */
  lemma QueueingIsUndone(st: OriginState, urgency: nat, w: Waiter, u: nat, x: Waiter)
    requires urgency < |st.waiters| && u < |st.waiters| && forall v :: 0 <= v < |st.waiters| ==> w !in st.waiters[v]
    ensures var t := Enqueued(st, urgency, w);
            && t.active == st.active && |t.waiters| == |st.waiters|
            && (x in t.waiters[u] <==> x in st.waiters[u] || (u == urgency && x == w))
            && t.waiters[urgency] != [] && t.waiters[urgency][|t.waiters[urgency]| - 1] == w
            && Removed(t.waiters, w) == st.waiters
  {
    var t := Enqueued(st, urgency, w);
    forall v | 0 <= v < |st.waiters| ensures Removed(t.waiters, w)[v] == st.waiters[v] {
      RemoveAbsent(st.waiters[v], w);
      RemoveLast(st.waiters[v], w);
    }
  }

  lemma {:induction false} RemoveAbsent(q: seq<Waiter>, w: Waiter)
    requires w !in q
    ensures RemoveFrom(q, w) == q
  {
    if q != [] {
      RemoveAbsent(q[1..], w);
      assert q == [q[0]] + q[1..];
    }
  }

  lemma {:induction false} RemoveLast(q: seq<Waiter>, w: Waiter)
    requires w !in q
    ensures RemoveFrom(q + [w], w) == q
  {
    if q == [] {
      assert q + [w] == [w] && RemoveFrom([w], w) == [];
    } else {
      assert (q + [w])[1..] == q[1..] + [w];
      RemoveLast(q[1..], w);
      assert q == [q[0]] + q[1..];
    }
  }

  // ---------------------------------------------------------------- invariant of one origin

  lemma FirstLiveIs(q: seq<Waiter>, live: set<Waiter>, k: nat)
    requires k <= |q| && (k < |q| ==> q[k] in live) && forall i :: 0 <= i < k ==> q[i] !in live
    ensures FirstLive(q, live) == k
  {
  }

  lemma FreshState(maxActive: nat, maxQueued: nat, nextWaiter: nat)
    requires maxActive > 0
    ensures StateOk(maxActive, maxQueued, nextWaiter, OriginState(1, seq(URGENCIES, _ => [])), 1)
  {
    var qs: Queues := seq(URGENCIES, _ => []);
    TotalZero(qs);
  }

  lemma StateOkParts(maxActive: nat, maxQueued: nat, nextWaiter: nat, st: OriginState, permits: nat)
    requires StateOk(maxActive, maxQueued, nextWaiter, st, permits)
    ensures st.active == permits && 1 <= st.active <= maxActive && |st.waiters| == URGENCIES
    ensures Total(st.waiters) <= maxQueued && (!AllEmpty(st.waiters) ==> st.active == maxActive)
  {
  }

  lemma OneMorePermit(maxActive: nat, maxQueued: nat, nextWaiter: nat, st: OriginState, permits: nat)
    requires StateOk(maxActive, maxQueued, nextWaiter, st, permits) && st.active < maxActive
    ensures StateOk(maxActive, maxQueued, nextWaiter, st.(active := st.active + 1), permits + 1)
  {
  }

  lemma WaiterBoundGrows(maxActive: nat, maxQueued: nat, nextWaiter: nat, st: OriginState, permits: nat)
    requires StateOk(maxActive, maxQueued, nextWaiter, st, permits)
    ensures StateOk(maxActive, maxQueued, nextWaiter + 1, st, permits)
  {
  }

  lemma EnqueuedOk(maxActive: nat, maxQueued: nat, w: Waiter, st: OriginState, permits: nat, urgency: nat)
    requires StateOk(maxActive, maxQueued, w, st, permits) && urgency < URGENCIES
    requires st.active >= maxActive && Total(st.waiters) < maxQueued
    ensures StateOk(maxActive, maxQueued, w + 1, Enqueued(st, urgency, w), permits)
  {
    TotalUpdate(st.waiters, urgency, st.waiters[urgency] + [w]);
    hide Total;
  }

  lemma PickStep(qs: Queues, u: nat, live: set<Waiter>)
    requires u <= |qs|
    ensures u == |qs| ==> PickFrom(qs, u, live) == Nobody
    ensures u < |qs| ==>
              var k := FirstLive(qs[u], live);
              PickFrom(qs, u, live) == if k < |qs[u]| then Chosen(u, k) else PickFrom(qs, u + 1, live)
  {
  }

  /** Each queue after a pick is empty or a tail of what it was. */
  lemma AfterPickParts(qs: Queues, live: set<Waiter>, u: nat)
    requires u < |qs|
    ensures var p := PickFrom(qs, 0, live);
            var rest := AfterPick(qs, p);
            |rest| == |qs| && |rest[u]| <= |qs[u]| && rest[u] == qs[u][|qs[u]| - |rest[u]|..]
    ensures PickFrom(qs, 0, live).Nobody? ==> AfterPick(qs, PickFrom(qs, 0, live))[u] == []
  {
  }

  lemma PickedOk(maxActive: nat, maxQueued: nat, nextWaiter: nat, st: OriginState, permits: nat, live: set<Waiter>)
    requires StateOk(maxActive, maxQueued, nextWaiter, st, permits)
    ensures var p := PickFrom(st.waiters, 0, live);
            var rest := AfterPick(st.waiters, p);
            && (p.Chosen? ==> StateOk(maxActive, maxQueued, nextWaiter, OriginState(st.active, rest), permits))
            && (p.Nobody? && st.active > 1 ==>
                  StateOk(maxActive, maxQueued, nextWaiter, OriginState(st.active - 1, rest), permits - 1))
  {
    hide PickFrom, AfterPick, Total, Increasing, AllEmpty;
    var p := PickFrom(st.waiters, 0, live);
    var rest := AfterPick(st.waiters, p);
    AfterPickTails(st.waiters, live);
    TailsOk(maxActive, maxQueued, nextWaiter, st, permits, rest);
    PickMeansWaiters(st.waiters, live);
  }

  lemma AfterPickTails(qs: Queues, live: set<Waiter>)
    ensures var p := PickFrom(qs, 0, live);
            var rest := AfterPick(qs, p);
            && |rest| == |qs|
            && (forall u :: 0 <= u < |qs| ==> |rest[u]| <= |qs[u]| && rest[u] == qs[u][|qs[u]| - |rest[u]|..])
            && (p.Nobody? ==> AllEmpty(rest))
  {
    var p := PickFrom(qs, 0, live);
    var rest := AfterPick(qs, p);
    forall u | 0 <= u < |qs|
      ensures |rest[u]| <= |qs[u]| && rest[u] == qs[u][|qs[u]| - |rest[u]|..]
      ensures p.Nobody? ==> rest[u] == []
    {
      AfterPickParts(qs, live, u);
    }
    hide PickFrom, AfterPick;
  }

  lemma PickMeansWaiters(qs: Queues, live: set<Waiter>)
    ensures PickFrom(qs, 0, live).Chosen? ==> !AllEmpty(qs)
  {
    var p := PickFrom(qs, 0, live);
    if p.Chosen? { assert qs[p.urgency] != []; }
  }

  lemma TailIncreasing(q: seq<Waiter>, n: nat)
    requires n <= |q| && Increasing(q)
    ensures Increasing(q[n..])
  {
  }

  lemma TailsOk(maxActive: nat, maxQueued: nat, nextWaiter: nat, st: OriginState, permits: nat, rest: Queues)
    requires StateOk(maxActive, maxQueued, nextWaiter, st, permits) && |rest| == |st.waiters|
    requires forall u :: 0 <= u < |rest| ==>
               |rest[u]| <= |st.waiters[u]| && rest[u] == st.waiters[u][|st.waiters[u]| - |rest[u]|..]
    ensures Total(rest) <= maxQueued
    ensures forall u :: 0 <= u < URGENCIES ==> Increasing(rest[u])
    ensures forall u, i :: 0 <= u < URGENCIES && 0 <= i < |rest[u]| ==> rest[u][i] < nextWaiter
  {
    TotalMonotone(st.waiters, rest);
    hide Total, AllEmpty, Increasing;
    forall u | 0 <= u < URGENCIES ensures Increasing(rest[u]) {
      TailIncreasing(st.waiters[u], |st.waiters[u]| - |rest[u]|);
    }
    forall u, i | 0 <= u < URGENCIES && 0 <= i < |rest[u]| ensures rest[u][i] < nextWaiter {
      assert rest[u][i] == st.waiters[u][|st.waiters[u]| - |rest[u]| + i];
    }
  }

  lemma RemoveStep(q: seq<Waiter>, w: Waiter)
    requires q != []
    ensures RemoveFrom(q, w) == if q[0] == w then RemoveFrom(q[1..], w) else [q[0]] + RemoveFrom(q[1..], w)
  {
    assert [] + RemoveFrom(q[1..], w) == RemoveFrom(q[1..], w);
  }

  lemma IncreasingCons(first: Waiter, rest: seq<Waiter>)
    requires Increasing(rest) && forall x :: x in rest ==> first < x
    ensures Increasing([first] + rest)
  {
    assert forall i :: 0 <= i < |rest| ==> rest[i] in rest;
  }

  lemma {:induction false} RemoveFromIncreasing(q: seq<Waiter>, w: Waiter)
    requires Increasing(q)
    ensures Increasing(RemoveFrom(q, w))
  {
    hide RemoveFrom;
    if q != [] {
      RemoveStep(q, w);
      assert forall x :: x in q[1..] ==> q[0] < x;
      TailIncreasing(q, 1);
      hide Increasing;
      RemoveFromIncreasing(q[1..], w);
      IncreasingCons(q[0], RemoveFrom(q[1..], w));
    } else {
      assert |RemoveFrom(q, w)| <= 0;
      assert RemoveFrom(q, w) == [];
    }
  }

  lemma RemovedOk(maxActive: nat, maxQueued: nat, nextWaiter: nat, st: OriginState, permits: nat, w: Waiter)
    requires StateOk(maxActive, maxQueued, nextWaiter, st, permits)
    ensures StateOk(maxActive, maxQueued, nextWaiter, st.(waiters := Removed(st.waiters, w)), permits)
  {
    var rest := Removed(st.waiters, w);
    forall u | 0 <= u < URGENCIES ensures Increasing(rest[u]) { RemoveFromIncreasing(st.waiters[u], w); }
    TotalMonotone(st.waiters, rest);
    hide Total, Increasing;
    forall u, i | 0 <= u < URGENCIES && 0 <= i < |rest[u]| ensures rest[u][i] < nextWaiter {
      assert rest[u][i] in st.waiters[u];
    }
  }

  lemma PermitCounted(outstanding: map<nat, string>, p: nat)
    requires p in outstanding
    ensures |PermitsOf(outstanding, outstanding[p])| > 0
  {
    assert p in PermitsOf(outstanding, outstanding[p]);
  }
}
