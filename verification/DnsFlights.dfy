/** Shared DNS resolutions as a transition system. Every action is one critical
    section under the flights lock or the pool lock, one flag access, or one
    callback; cancellation flags may flip between any two of them. */
module DnsFlights {
  import opened DnsPool

  const MAX_FLIGHT_WAITERS: nat := 1024

  /** A caller waiting for `flight`; `token` is its cancellation flag. */
  datatype Waiter = Waiter(id: nat, token: nat, flight: nat)

  datatype Worker = Idle | Popped(flight: nat) | Resolving(flight: nat) | Calling(flight: nat, rest: seq<Waiter>)

  /** Where an accepted waiter is. */
  datatype Place = Attached(flight: nat) | InCall(worker: nat) | Called | Dropped

  datatype State = State(
    flights: map<string, nat>, waiters: map<nat, seq<Waiter>>, keyOf: map<nat, string>,
    cancelledFlights: set<nat>, cancelledTokens: set<nat>, pool: Pool, workers: seq<Worker>,
    calls: seq<Waiter>, nextFlight: nat, nextWaiter: nat,
    place: map<nat, Place>, tokenOf: map<nat, nat>)

  const INIT := State(map[], map[], map[], {}, {}, Pool([], [], false), [Idle, Idle], [], 0, 0, map[], map[])

  datatype Action =
    | ResolveSkipped(token: nat)
    | Resolve(key: string, token: nat, seen: set<nat>)
    | SetFlag(token: nat)
    | CancelScan(token: nat)
    | PruneCancelled(seen: set<nat>)
    | Take(w: nat, seen: set<nat>)
    | SkipCancelled(w: nat)
    | Start(w: nat)
    | Complete(w: nat)
    | SkipWaiter(w: nat)
    | CallNext(w: nat)
    | Finish(w: nat)
    | StopPool

  /** A flag that is read as set is set; a flag that is read as clear may be set by the time
      of the action the reading led to. */
  predicate Enabled(s: State, a: Action) {
    match a
    case ResolveSkipped(token) => token in s.cancelledTokens
    case Resolve(_, _, seen) => seen <= s.cancelledFlights
    case SetFlag(_) => true
    case CancelScan(token) => token in s.cancelledTokens
    case PruneCancelled(seen) => seen <= s.cancelledFlights
    case Take(w, seen) => w < |s.workers| && s.workers[w].Idle? && s.pool.tasks != [] && seen <= s.cancelledFlights
    case SkipCancelled(w) =>
      w < |s.workers| && (s.workers[w].Popped? || s.workers[w].Resolving?) && s.workers[w].flight in s.cancelledFlights
    case Start(w) => w < |s.workers| && s.workers[w].Popped?
    case Complete(w) => w < |s.workers| && s.workers[w].Resolving?
    case SkipWaiter(w) =>
      w < |s.workers| && s.workers[w].Calling? && s.workers[w].rest != [] &&
      s.workers[w].rest[0].token in s.cancelledTokens
    case CallNext(w) => w < |s.workers| && s.workers[w].Calling? && s.workers[w].rest != []
    case Finish(w) => w < |s.workers| && s.workers[w].Calling? && s.workers[w].rest == []
    case StopPool => true
  }

  function Detach(ws: seq<Waiter>, token: nat): (r: seq<Waiter>)
    ensures |r| <= |ws|
    ensures forall x :: x in r <==> x in ws && x.token != token
  {
    if ws == [] then [] else (if ws[0].token == token then [] else [ws[0]]) + Detach(ws[1..], token)
  }

  /** A new waiter on an existing flight. */
  function Joined(s: State, f: nat, token: nat): State
    requires f in s.waiters
  {
    s.(waiters := s.waiters[f := s.waiters[f] + [Waiter(s.nextWaiter, token, f)]],
       nextWaiter := s.nextWaiter + 1,
       place := s.place[s.nextWaiter := Attached(f)], tokenOf := s.tokenOf[s.nextWaiter := token])
  }

  /** A new flight whose work the pool accepted. */
  function Started(s: State, key: string, token: nat, pool: Pool): State {
    var f := s.nextFlight;
    s.(flights := s.flights[key := f], keyOf := s.keyOf[f := key], pool := pool, nextFlight := f + 1,
       waiters := s.waiters[f := [Waiter(s.nextWaiter, token, f)]], nextWaiter := s.nextWaiter + 1,
       place := s.place[s.nextWaiter := Attached(f)], tokenOf := s.tokenOf[s.nextWaiter := token])
  }

  /** A new flight whose work the pool refused: only the flight number is used up. */
  function Refused(s: State, pool: Pool): State { s.(pool := pool, nextFlight := s.nextFlight + 1) }

  /** `resolve_async` after its own flag was read as clear: join the flight of the key, or
      start one. The flag may have been set since. */
  function Resolved(s: State, key: string, token: nat, seen: set<nat>): State {
    if key in s.flights && s.flights[key] in s.waiters then
      if |s.waiters[s.flights[key]]| >= MAX_FLIGHT_WAITERS then s else Joined(s, s.flights[key], token)
    else
      var sub := Submission(s.pool, s.nextFlight, seen);
      if sub.accepted then Started(s, key, token, sub.pool) else Refused(s, sub.pool)
  }

  /** Flights that lose their last waiter to the cancellation of `token`. */
  function Emptied(s: State, token: nat): set<string> {
    set k | k in s.flights && s.flights[k] in s.waiters && Detach(s.waiters[s.flights[k]], token) == []
  }

  function Scanned(s: State, token: nat): State {
    var emptied := Emptied(s, token);
    s.(flights := s.flights - emptied,
       waiters := map f | f in s.waiters ::
                    if f in s.keyOf && s.keyOf[f] in s.flights && s.flights[s.keyOf[f]] == f
                    then Detach(s.waiters[f], token) else s.waiters[f],
       cancelledFlights := s.cancelledFlights + set k | k in emptied :: s.flights[k],
       place := map x | x in s.place ::
                  if s.place[x].Attached? && x in s.tokenOf && s.tokenOf[x] == token then Dropped else s.place[x])
  }

  /** `it->second == active_flight`: the key still maps to this very flight. */
  predicate Current(s: State, f: nat) { f in s.keyOf && s.keyOf[f] in s.flights && s.flights[s.keyOf[f]] == f }

  function Completed(s: State, w: nat): State
    requires w < |s.workers| && s.workers[w].Resolving?
  {
    var f := s.workers[w].flight;
    if Current(s, f) && f in s.waiters then
      s.(workers := s.workers[w := Calling(f, s.waiters[f])],
         flights := s.flights - {s.keyOf[f]}, waiters := s.waiters[f := []],
         place := map x | x in s.place :: if s.place[x] == Attached(f) then InCall(w) else s.place[x])
    else s.(workers := s.workers[w := Calling(f, [])])
  }

  /** The first waiter of the list is skipped, or called. */
  function CalledNext(s: State, w: nat, skip: bool): State
    requires w < |s.workers| && s.workers[w].Calling? && s.workers[w].rest != []
  {
    var Calling(f, rest) := s.workers[w];
    var t := s.(workers := s.workers[w := Calling(f, rest[1..])]);
    if skip then t.(place := t.place[rest[0].id := Dropped])
    else t.(calls := t.calls + [rest[0]], place := t.place[rest[0].id := Called])
  }

  function Apply(s: State, a: Action): State
    requires Enabled(s, a)
  {
    match a
    case ResolveSkipped(_) => s
    case Resolve(key, token, seen) => Resolved(s, key, token, seen)
    case SetFlag(token) => s.(cancelledTokens := s.cancelledTokens + {token})
    case CancelScan(token) => Scanned(s, token)
    case PruneCancelled(seen) => s.(pool := Tidy(s.pool, seen))
    case Take(w, seen) =>
      s.(workers := s.workers[w := Popped(s.pool.tasks[0])], pool := TakeFirst(s.pool, seen))
    case SkipCancelled(w) => s.(workers := s.workers[w := Idle])
    case Start(w) => s.(workers := s.workers[w := Resolving(s.workers[w].flight)])
    case Complete(w) => Completed(s, w)
    case SkipWaiter(w) => CalledNext(s, w, true)
    case CallNext(w) => CalledNext(s, w, false)
    case Finish(w) => s.(workers := s.workers[w := Idle])
    case StopPool => s.(pool := s.pool.(stopping := true))
  }

  // ---------------------------------------------------------------- invariant

  predicate Holds(worker: Worker, f: nat) { (worker.Popped? || worker.Resolving?) && worker.flight == f }

  predicate Busy(worker: Worker) { worker.Popped? || worker.Resolving? }

  /** Work is in one place: no two workers and no queue slot share a flight. */
  predicate OnePlace(s: State) {
    && Inv(s.pool)
    && (forall f :: f in Queue(s.pool) ==> f < s.nextFlight)
    && (forall i :: 0 <= i < |s.workers| && Busy(s.workers[i]) ==>
          s.workers[i].flight < s.nextFlight && s.workers[i].flight !in Queue(s.pool))
    && (forall i, j :: 0 <= i < j < |s.workers| && Busy(s.workers[i]) && Busy(s.workers[j]) ==>
          s.workers[i].flight != s.workers[j].flight)
  }

  predicate HasTask(s: State, f: nat) {
    f in Queue(s.pool) || exists i :: 0 <= i < |s.workers| && Holds(s.workers[i], f)
  }

  /** A mapped flight is live: not cancelled, somebody waits, and its task exists. */
  predicate Live(s: State, f: nat) {
    && f < s.nextFlight && f in s.waiters && f !in s.cancelledFlights
    && 1 <= |s.waiters[f]| <= MAX_FLIGHT_WAITERS && HasTask(s, f)
  }

  predicate FlightsLive(s: State) {
    && (forall k :: k in s.flights ==> Live(s, s.flights[k]) && s.flights[k] in s.keyOf && s.keyOf[s.flights[k]] == k)
    && (forall f :: f in s.keyOf ==> f < s.nextFlight)
    && (forall f :: f in s.cancelledFlights ==> f < s.nextFlight)
  }

  predicate DistinctIds(ws: seq<Waiter>) { forall i, j :: 0 <= i < j < |ws| ==> ws[i].id != ws[j].id }

  /** The list holds exactly the waiters whose place is `p`, each under its own token. */
  predicate ListAt(s: State, ws: seq<Waiter>, f: nat, p: Place) {
    && DistinctIds(ws)
    && (forall i :: 0 <= i < |ws| ==>
          ws[i].flight == f && ws[i].id in s.place && s.place[ws[i].id] == p &&
          ws[i].id in s.tokenOf && s.tokenOf[ws[i].id] == ws[i].token)
  }

  predicate InList(ws: seq<Waiter>, id: nat) { exists i :: 0 <= i < |ws| && ws[i].id == id }

  /** Lists and places agree in both directions. */
  predicate PlacesAgree(s: State) {
    && (forall id :: id in s.place ==> id < s.nextWaiter && id in s.tokenOf)
    && (forall k :: k in s.flights ==>
          s.flights[k] in s.waiters && ListAt(s, s.waiters[s.flights[k]], s.flights[k], Attached(s.flights[k])))
    && (forall w :: 0 <= w < |s.workers| && s.workers[w].Calling? ==>
          ListAt(s, s.workers[w].rest, s.workers[w].flight, InCall(w)))
    && (forall i :: 0 <= i < |s.calls| ==> s.calls[i].id in s.place && s.place[s.calls[i].id] == Called)
    && (forall i, j :: 0 <= i < j < |s.calls| ==> s.calls[i].id != s.calls[j].id)
  }

  predicate PlaceServed(s: State, id: nat)
    requires id in s.place
  {
    match s.place[id]
    case Attached(f) => Current(s, f) && f in s.waiters && InList(s.waiters[f], id)
    case InCall(w) => w < |s.workers| && s.workers[w].Calling? && InList(s.workers[w].rest, id)
    case Called => InList(s.calls, id)
    case Dropped => id in s.tokenOf && s.tokenOf[id] in s.cancelledTokens
  }

  predicate NobodyStranded(s: State) { forall id :: id in s.place ==> PlaceServed(s, id) }

  predicate FlightInv(s: State) { OnePlace(s) && FlightsLive(s) && PlacesAgree(s) && NobodyStranded(s) }

  lemma InitFlightInv()
    ensures FlightInv(INIT)
  {
  }

  // ---------------------------------------------------------------- pool steps

  /** Maintenance with set flags only cannot lose the task of a live flight. */
  lemma TasksSurvive(s: State, t: State)
    requires FlightsLive(s) && t == s.(pool := t.pool, workers := t.workers)
    requires forall f :: f !in s.cancelledFlights && HasTask(s, f) ==> HasTask(t, f)
    ensures FlightsLive(t)
  {
    hide HasTask;
  }

  lemma PoolOnly(s: State, t: State)
    requires PlacesAgree(s) && NobodyStranded(s) && t == s.(pool := t.pool)
    ensures PlacesAgree(t) && NobodyStranded(t)
  {
    hide DistinctIds, InList;
  }

  lemma PruneKeeps(s: State, seen: set<nat>)
    requires FlightInv(s) && Enabled(s, PruneCancelled(seen))
    ensures FlightInv(Apply(s, PruneCancelled(seen)))
  {
    hide PlacesAgree, NobodyStranded, Tidy, Inv, Queue, DnsPool.Prune;
    var t := s.(pool := Tidy(s.pool, seen));
    TidyQueue(s.pool, seen);
    PoolInvTidy(s.pool, seen);
    PoolOnly(s, t);
    TasksSurvive(s, t);
  }

  lemma PoolInvTidy(p: Pool, seen: set<nat>)
    requires Inv(p)
    ensures Inv(Tidy(p, seen))
  {
    TidyKeeps(p, seen);
  }

  lemma FirstIsOnce(q: seq<nat>)
    requires Increasing(q) && q != []
    ensures forall f :: f in q <==> f == q[0] || f in q[1..]
    ensures q[0] !in q[1..]
  {
  }

  lemma TakeKeeps(s: State, w: nat, seen: set<nat>)
    requires FlightInv(s) && Enabled(s, Take(w, seen))
    ensures FlightInv(Apply(s, Take(w, seen)))
  {
    var t := Apply(s, Take(w, seen));
    TakeOnePlace(s, w, seen);
    TakeTasks(s, w, seen);
    hide PlacesAgree, NobodyStranded, OnePlace, TakeFirst, Inv, Queue;
    WorkerWithoutCalls(s, w, Popped(s.pool.tasks[0]), t.pool);
    TasksSurvive(s, t);
  }

  lemma TakeQueue(p: Pool, seen: set<nat>)
    requires Inv(p) && p.tasks != []
    ensures var q := TakeFirst(p, seen);
            && Inv(q) && p.tasks[0] in Queue(p)
            && (forall f :: f in Queue(q) <==> f in Queue(p) && f != p.tasks[0] && f !in seen)
  {
    TakeMeaning(p, seen);
    FirstIsOnce(Queue(p));
  }

  lemma TakeOnePlace(s: State, w: nat, seen: set<nat>)
    requires OnePlace(s) && Enabled(s, Take(w, seen))
    ensures OnePlace(Apply(s, Take(w, seen)))
  {
    var f := s.pool.tasks[0];
    var t := Apply(s, Take(w, seen));
    TakeQueue(s.pool, seen);
    var pool := TakeFirst(s.pool, seen);
    hide TakeFirst, Inv, Queue;
    assert t.pool == pool && t.workers == s.workers[w := Popped(f)];
    assert f in Queue(s.pool) && f !in Queue(pool) && f < s.nextFlight;
    forall i | 0 <= i < |t.workers| && Busy(t.workers[i])
      ensures t.workers[i].flight < t.nextFlight && t.workers[i].flight !in Queue(t.pool)
      ensures i != w ==> t.workers[i].flight != f
    {
      if i != w { assert Busy(s.workers[i]); }
    }
  }

  lemma TakeTasks(s: State, w: nat, seen: set<nat>)
    requires OnePlace(s) && Enabled(s, Take(w, seen))
    ensures forall g :: g !in s.cancelledFlights && HasTask(s, g) ==> HasTask(Apply(s, Take(w, seen)), g)
  {
    hide HasTask, TakeFirst, Inv, Queue;
    TakeQueue(s.pool, seen);
    var t := Apply(s, Take(w, seen));
    assert forall g :: g in seen ==> g in s.cancelledFlights;
    forall g | g !in s.cancelledFlights && HasTask(s, g)
      ensures HasTask(t, g)
    {
      TaskMoves(s, t, w, s.pool.tasks[0], g);
    }
  }

  lemma TaskMoves(s: State, t: State, w: nat, f: nat, g: nat)
    requires w < |s.workers| && s.workers[w].Idle? && t.workers == s.workers[w := Popped(f)]
    requires HasTask(s, g) && (g in Queue(s.pool) && g != f ==> g in Queue(t.pool)) && f in Queue(s.pool)
    ensures HasTask(t, g)
  {
    hide Queue;
    assert Holds(t.workers[w], f);
    if g !in Queue(s.pool) {
      var i :| 0 <= i < |s.workers| && Holds(s.workers[i], g);
      assert Holds(t.workers[i], g);
    }
  }

  /** Replacing a worker that is in no call by another such leaves places alone. */
  lemma WorkerWithoutCalls(s: State, w: nat, worker: Worker, pool: Pool)
    requires PlacesAgree(s) && NobodyStranded(s) && w < |s.workers|
    requires !worker.Calling? && (s.workers[w].Calling? ==> s.workers[w].rest == [])
    ensures var t := s.(workers := s.workers[w := worker], pool := pool);
            PlacesAgree(t) && NobodyStranded(t)
  {
    hide DistinctIds;
    var t := s.(workers := s.workers[w := worker], pool := pool);
    forall id | id in t.place ensures PlaceServed(t, id) { assert PlaceServed(s, id); }
  }

  lemma WorkerKeeps(s: State, a: Action)
    requires FlightInv(s) && Enabled(s, a) && (a.SkipCancelled? || a.Start? || a.Finish?)
    ensures FlightInv(Apply(s, a))
  {
    hide PlacesAgree, NobodyStranded, Inv, Queue, DnsPool.Prune;
    var t := Apply(s, a);
    WorkerWithoutCalls(s, a.w, t.workers[a.w], s.pool);
    forall g | g !in s.cancelledFlights && HasTask(s, g)
      ensures HasTask(t, g)
    {
      if g !in Queue(s.pool) {
        var i :| 0 <= i < |s.workers| && Holds(s.workers[i], g);
        assert Holds(t.workers[i], g);
      }
    }
    TasksSurvive(s, t);
  }

  lemma FlagKeeps(s: State, a: Action)
    requires FlightInv(s) && Enabled(s, a) && (a.SetFlag? || a.StopPool?)
    ensures FlightInv(Apply(s, a))
  {
    hide Increasing, DistinctIds, InList;
    var t := Apply(s, a);
    forall id | id in t.place ensures PlaceServed(t, id) { assert PlaceServed(s, id); }
    forall f ensures HasTask(s, f) ==> HasTask(t, f) { }
    hide HasTask;
  }

  // ---------------------------------------------------------------- completion and callbacks

  lemma CompleteKeeps(s: State, w: nat)
    requires FlightInv(s) && Enabled(s, Complete(w))
    ensures FlightInv(Apply(s, Complete(w)))
  {
    CompletePlaces(s, w);
    CompleteFlights(s, w);
  }

  lemma CompleteFlights(s: State, w: nat)
    requires FlightInv(s) && Enabled(s, Complete(w))
    ensures OnePlace(Completed(s, w)) && FlightsLive(Completed(s, w))
  {
    hide PlacesAgree, NobodyStranded, Inv, Queue;
    var t := Completed(s, w);
    forall g | g != s.workers[w].flight && HasTask(s, g)
      ensures HasTask(t, g)
    {
      if g !in Queue(s.pool) {
        var i :| 0 <= i < |s.workers| && Holds(s.workers[i], g);
        assert Holds(t.workers[i], g);
      }
    }
    hide HasTask;
  }

  /** A list follows its waiters when they all move from place `p` to place `q`. */
  lemma ListMoves(s: State, t: State, ws: seq<Waiter>, f: nat, p: Place, q: Place)
    requires ListAt(s, ws, f, p) && t.tokenOf == s.tokenOf
    requires forall id :: id in s.place && s.place[id] == p ==> id in t.place && t.place[id] == q
    ensures ListAt(t, ws, f, q)
  {
    hide DistinctIds;
  }

  lemma CompleteServed(s: State, w: nat, id: nat)
    requires FlightInv(s) && Enabled(s, Complete(w)) && id in s.place
    ensures id in Completed(s, w).place && PlaceServed(Completed(s, w), id)
  {
    hide OnePlace, PlacesAgree, InList, Live;
    assert PlaceServed(s, id);
  }

  lemma CompletePlaces(s: State, w: nat)
    requires FlightInv(s) && Enabled(s, Complete(w))
    ensures PlacesAgree(Completed(s, w)) && NobodyStranded(Completed(s, w))
  {
    CompleteLists(s, w);
    hide OnePlace, FlightsLive, PlacesAgree, PlaceServed;
    var t := Completed(s, w);
    forall id | id in t.place ensures PlaceServed(t, id) { CompleteServed(s, w, id); }
  }

  lemma CompleteLists(s: State, w: nat)
    requires FlightInv(s) && Enabled(s, Complete(w))
    ensures PlacesAgree(Completed(s, w))
  {
    hide OnePlace, DistinctIds, NobodyStranded, Live;
    var f := s.workers[w].flight;
    var t := Completed(s, w);
    forall k | k in t.flights
      ensures t.flights[k] in t.waiters && ListAt(t, t.waiters[t.flights[k]], t.flights[k], Attached(t.flights[k]))
    {
      var g := s.flights[k];
      assert t.waiters[g] == s.waiters[g];
      ListMoves(s, t, s.waiters[g], g, Attached(g), Attached(g));
    }
    forall v | 0 <= v < |t.workers| && t.workers[v].Calling?
      ensures ListAt(t, t.workers[v].rest, t.workers[v].flight, InCall(v))
    {
      if v != w {
        ListMoves(s, t, s.workers[v].rest, s.workers[v].flight, InCall(v), InCall(v));
      } else if Current(s, f) && f in s.waiters {
        ListMoves(s, t, s.waiters[f], f, Attached(f), InCall(w));
      } else {
        EmptyDistinct();
      }
    }
  }

  lemma EmptyDistinct()
    ensures DistinctIds([])
  {
  }

  lemma CallNextKeeps(s: State, w: nat, skip: bool)
    requires FlightInv(s) && Enabled(s, if skip then SkipWaiter(w) else CallNext(w))
    ensures FlightInv(Apply(s, if skip then SkipWaiter(w) else CallNext(w)))
  {
    CallNextPlaces(s, w, skip);
    hide PlacesAgree, NobodyStranded, Inv, Queue;
    var t := CalledNext(s, w, skip);
    forall g | HasTask(s, g) ensures HasTask(t, g) {
      if g !in Queue(s.pool) {
        var i :| 0 <= i < |s.workers| && Holds(s.workers[i], g);
        assert Holds(t.workers[i], g);
      }
    }
    hide HasTask;
  }

  lemma CallNextPlaces(s: State, w: nat, skip: bool)
    requires FlightInv(s) && Enabled(s, if skip then SkipWaiter(w) else CallNext(w))
    ensures PlacesAgree(CalledNext(s, w, skip)) && NobodyStranded(CalledNext(s, w, skip))
  {
    hide OnePlace, FlightsLive;
    var t := CalledNext(s, w, skip);
    var rest := s.workers[w].rest;
    forall id | id in t.place ensures PlaceServed(t, id) {
      assert PlaceServed(s, id);
      if id == rest[0].id {
        if t.place[id] == Called { assert t.calls[|s.calls|].id == id; }
      } else {
        OtherPlaceKept(s, t, w, skip, id);
      }
    }
  }

  lemma OtherPlaceKept(s: State, t: State, w: nat, skip: bool, id: nat)
    requires w < |s.workers| && s.workers[w].Calling? && s.workers[w].rest != [] && id != s.workers[w].rest[0].id
    requires t == CalledNext(s, w, skip) && id in s.place && PlaceServed(s, id)
    ensures id in t.place && PlaceServed(t, id)
  {
    var rest := s.workers[w].rest;
    match s.place[id]
    case Attached(_) =>
    case InCall(v) =>
      if v == w {
        var i :| 0 <= i < |rest| && rest[i].id == id;
        assert rest[1..][i - 1].id == id;
      }
    case Called =>
      var i :| 0 <= i < |s.calls| && s.calls[i].id == id;
      assert t.calls[i].id == id;
    case Dropped =>
  }

  // ---------------------------------------------------------------- resolving

  lemma PlaceUnderFreshId(s: State, t: State, id: nat)
    requires PlacesAgree(s) && id in s.place && PlaceServed(s, id)
    requires forall x :: x in s.place ==> x in t.place && t.place[x] == s.place[x]
    requires forall x :: x in s.tokenOf && x < s.nextWaiter ==> x in t.tokenOf && t.tokenOf[x] == s.tokenOf[x]
    requires t.workers == s.workers && t.calls == s.calls && t.cancelledTokens == s.cancelledTokens
    requires forall f, x :: Current(s, f) && f in s.waiters && InList(s.waiters[f], x) ==>
               Current(t, f) && f in t.waiters && InList(t.waiters[f], x)
    ensures PlaceServed(t, id)
  {
    hide InList, ListAt, Current;
  }

  lemma ListUnderFreshId(s: State, t: State, ws: seq<Waiter>, f: nat, p: Place)
    requires PlacesAgree(s) && ListAt(s, ws, f, p)
    requires forall x :: x in s.place ==> x in t.place && t.place[x] == s.place[x]
    requires forall x :: x in s.tokenOf && x < s.nextWaiter ==> x in t.tokenOf && t.tokenOf[x] == s.tokenOf[x]
    ensures ListAt(t, ws, f, p)
  {
    hide DistinctIds;
  }

  lemma InListSnoc(ws: seq<Waiter>, x: Waiter)
    ensures forall id :: InList(ws + [x], id) <==> InList(ws, id) || id == x.id
  {
    forall id ensures InList(ws + [x], id) <==> InList(ws, id) || id == x.id {
      if InList(ws, id) {
        var i :| 0 <= i < |ws| && ws[i].id == id;
        assert (ws + [x])[i].id == id;
      }
      if id == x.id { assert (ws + [x])[|ws|].id == id; }
    }
  }

  lemma ListSnoc(s: State, t: State, ws: seq<Waiter>, f: nat, token: nat)
    requires PlacesAgree(s) && ListAt(s, ws, f, Attached(f))
    requires t.place == s.place[s.nextWaiter := Attached(f)] && t.tokenOf == s.tokenOf[s.nextWaiter := token]
    ensures ListAt(t, ws + [Waiter(s.nextWaiter, token, f)], f, Attached(f))
  {
  }

  lemma JoinPlaces(s: State, key: string, token: nat)
    requires FlightInv(s) && key in s.flights && s.flights[key] in s.waiters
    ensures var t := Joined(s, s.flights[key], token);
            PlacesAgree(t) && NobodyStranded(t)
  {
    hide OnePlace, DistinctIds, ListAt, InList, Live;
    var f := s.flights[key];
    var x := Waiter(s.nextWaiter, token, f);
    var t := Joined(s, f, token);
    InListSnoc(s.waiters[f], x);
    ListSnoc(s, t, s.waiters[f], f, token);
    forall k | k in t.flights && t.flights[k] != f
      ensures ListAt(t, t.waiters[t.flights[k]], t.flights[k], Attached(t.flights[k]))
    {
      ListUnderFreshId(s, t, s.waiters[s.flights[k]], s.flights[k], Attached(s.flights[k]));
    }
    forall v | 0 <= v < |t.workers| && t.workers[v].Calling?
      ensures ListAt(t, t.workers[v].rest, t.workers[v].flight, InCall(v))
    {
      ListUnderFreshId(s, t, s.workers[v].rest, s.workers[v].flight, InCall(v));
    }
    forall id | id in t.place ensures PlaceServed(t, id) {
      if id != s.nextWaiter {
        assert PlaceServed(s, id);
        PlaceUnderFreshId(s, t, id);
      }
    }
  }

  lemma JoinFlights(s: State, key: string, token: nat)
    requires FlightInv(s) && key in s.flights && s.flights[key] in s.waiters
    requires |s.waiters[s.flights[key]]| < MAX_FLIGHT_WAITERS
    ensures var t := Joined(s, s.flights[key], token);
            OnePlace(t) && FlightsLive(t)
  {
    hide PlacesAgree, NobodyStranded, Inv, Queue;
    var f := s.flights[key];
    var t := Joined(s, f, token);
    forall g ensures HasTask(t, g) == HasTask(s, g) { }
    hide HasTask;
  }

  /** What submitting does to the queue, by membership. */
  lemma SubmissionQueue(s: State, seen: set<nat>)
    requires OnePlace(s)
    ensures var sub := Submission(s.pool, s.nextFlight, seen);
            && Inv(sub.pool)
            && (forall f :: f in Queue(sub.pool) ==> f in Queue(s.pool) || (sub.accepted && f == s.nextFlight))
            && (forall f :: f in Queue(s.pool) && f !in seen ==> f in Queue(sub.pool))
            && (sub.accepted ==> s.nextFlight in Queue(sub.pool))
  {
    hide Submission, Inv, Queue;
    SubmitMeaning(s.pool, s.nextFlight, seen);
  }

  lemma RefusedKeeps(s: State, seen: set<nat>)
    requires FlightInv(s) && seen <= s.cancelledFlights && !Submission(s.pool, s.nextFlight, seen).accepted
    ensures FlightInv(Refused(s, Submission(s.pool, s.nextFlight, seen).pool))
  {
    SubmissionQueue(s, seen);
    hide Submission, Inv, Queue, PlacesAgree, NobodyStranded;
    var mid := s.(pool := Submission(s.pool, s.nextFlight, seen).pool);
    var t := mid.(nextFlight := s.nextFlight + 1);
    PoolOnly(s, mid);
    NextFlightOnly(mid, t);
    forall f | f !in s.cancelledFlights && HasTask(s, f) ensures HasTask(t, f) { }
    hide HasTask;
  }

  lemma NextFlightOnly(s: State, t: State)
    requires PlacesAgree(s) && NobodyStranded(s) && t == s.(nextFlight := t.nextFlight)
    ensures PlacesAgree(t) && NobodyStranded(t)
  {
    hide DistinctIds, InList;
  }

  lemma StartOnePlace(s: State, key: string, token: nat, seen: set<nat>)
    requires OnePlace(s) && Submission(s.pool, s.nextFlight, seen).accepted
    ensures OnePlace(Started(s, key, token, Submission(s.pool, s.nextFlight, seen).pool))
  {
    SubmissionQueue(s, seen);
    hide Submission, Inv, Queue;
  }

  lemma StartTasks(s: State, key: string, token: nat, seen: set<nat>)
    requires OnePlace(s) && seen <= s.cancelledFlights && Submission(s.pool, s.nextFlight, seen).accepted
    ensures var t := Started(s, key, token, Submission(s.pool, s.nextFlight, seen).pool);
            HasTask(t, s.nextFlight) && forall f :: f !in s.cancelledFlights && HasTask(s, f) ==> HasTask(t, f)
  {
    SubmissionQueue(s, seen);
    assert forall g :: g in seen ==> g in s.cancelledFlights;
    hide Submission, Inv, Queue;
    var t := Started(s, key, token, Submission(s.pool, s.nextFlight, seen).pool);
    forall f | f !in s.cancelledFlights && HasTask(s, f) ensures HasTask(t, f) { }
  }

  lemma StartFlights(s: State, key: string, token: nat, seen: set<nat>)
    requires FlightInv(s) && seen <= s.cancelledFlights && key !in s.flights
    requires Submission(s.pool, s.nextFlight, seen).accepted
    ensures var t := Started(s, key, token, Submission(s.pool, s.nextFlight, seen).pool);
            OnePlace(t) && FlightsLive(t)
  {
    hide Submission, HasTask, OnePlace, PlacesAgree, NobodyStranded;
    StartOnePlace(s, key, token, seen);
    StartTasks(s, key, token, seen);
  }

  lemma FreshList(s: State, key: string, token: nat, pool: Pool)
    ensures var x := Waiter(s.nextWaiter, token, s.nextFlight);
            ListAt(Started(s, key, token, pool), [x], s.nextFlight, Attached(s.nextFlight)) && InList([x], x.id)
  {
    assert [Waiter(s.nextWaiter, token, s.nextFlight)][0].id == s.nextWaiter;
  }

  lemma StartLists(s: State, key: string, token: nat, pool: Pool)
    requires FlightInv(s) && key !in s.flights
    ensures PlacesAgree(Started(s, key, token, pool))
  {
    var t := Started(s, key, token, pool);
    FreshList(s, key, token, pool);
    LiveFlightsAreOld(s);
    hide OnePlace, FlightsLive, NobodyStranded, DistinctIds, ListAt, InList;
    forall k | k in t.flights && k != key
      ensures t.flights[k] in t.waiters && ListAt(t, t.waiters[t.flights[k]], t.flights[k], Attached(t.flights[k]))
    {
      ListUnderFreshId(s, t, s.waiters[s.flights[k]], s.flights[k], Attached(s.flights[k]));
    }
    forall v | 0 <= v < |t.workers| && t.workers[v].Calling?
      ensures ListAt(t, t.workers[v].rest, t.workers[v].flight, InCall(v))
    {
      ListUnderFreshId(s, t, s.workers[v].rest, s.workers[v].flight, InCall(v));
    }
  }

  lemma StartPlaces(s: State, key: string, token: nat, pool: Pool)
    requires FlightInv(s) && key !in s.flights
    ensures PlacesAgree(Started(s, key, token, pool)) && NobodyStranded(Started(s, key, token, pool))
  {
    var t := Started(s, key, token, pool);
    FreshList(s, key, token, pool);
    StartLists(s, key, token, pool);
    LiveFlightsAreOld(s);
    hide OnePlace, DistinctIds, ListAt, InList, Live;
    forall f, x | Current(s, f) && f in s.waiters && InList(s.waiters[f], x)
      ensures Current(t, f) && f in t.waiters && InList(t.waiters[f], x)
    {
    }
    forall id | id in t.place ensures PlaceServed(t, id) {
      if id != s.nextWaiter {
        assert PlaceServed(s, id);
        PlaceUnderFreshId(s, t, id);
      }
    }
  }

  lemma LiveFlightsAreOld(s: State)
    requires FlightsLive(s)
    ensures forall k :: k in s.flights ==> s.flights[k] < s.nextFlight
  {
  }

  lemma ResolveKeeps(s: State, key: string, token: nat, seen: set<nat>)
    requires FlightInv(s) && Enabled(s, Resolve(key, token, seen))
    ensures FlightInv(Apply(s, Resolve(key, token, seen)))
  {
    hide OnePlace, FlightsLive, PlacesAgree, NobodyStranded, Submission, Joined, Started, Refused;
    MappedHasWaiters(s);
    if key in s.flights {
      if |s.waiters[s.flights[key]]| < MAX_FLIGHT_WAITERS {
        JoinPlaces(s, key, token);
        JoinFlights(s, key, token);
      }
    } else if Submission(s.pool, s.nextFlight, seen).accepted {
      StartFlights(s, key, token, seen);
      StartPlaces(s, key, token, Submission(s.pool, s.nextFlight, seen).pool);
    } else {
      RefusedKeeps(s, seen);
    }
  }

  lemma ResolveSkippedKeeps(s: State, token: nat)
    requires FlightInv(s) && Enabled(s, ResolveSkipped(token))
    ensures FlightInv(Apply(s, ResolveSkipped(token)))
  {
    hide FlightInv;
  }

  lemma MappedHasWaiters(s: State)
    requires FlightsLive(s)
    ensures forall k :: k in s.flights ==> s.flights[k] in s.waiters
  {
  }

  // ---------------------------------------------------------------- cancelling

  lemma DetachStep(ws: seq<Waiter>, token: nat)
    requires ws != []
    ensures Detach(ws, token) ==
            if ws[0].token == token then Detach(ws[1..], token) else [ws[0]] + Detach(ws[1..], token)
  {
  }

  lemma {:induction false} DetachDistinct(ws: seq<Waiter>, token: nat)
    requires DistinctIds(ws)
    ensures DistinctIds(Detach(ws, token))
  {
    hide Detach;
    if ws != [] {
      DetachStep(ws, token);
      assert DistinctIds(ws[1..]);
      DetachDistinct(ws[1..], token);
      var rest := Detach(ws[1..], token);
      forall i | 0 <= i < |rest| ensures ws[0].id != rest[i].id {
        assert rest[i] in ws[1..];
      }
    } else {
      assert Detach(ws, token) == [];
    }
  }

  lemma DetachedListAt(s: State, t: State, ws: seq<Waiter>, f: nat, token: nat)
    requires ListAt(s, ws, f, Attached(f)) && t.tokenOf == s.tokenOf
    requires forall x :: x in s.place && x in s.tokenOf && s.tokenOf[x] != token ==>
               x in t.place && t.place[x] == s.place[x]
    ensures ListAt(t, Detach(ws, token), f, Attached(f))
  {
    DetachDistinct(ws, token);
    hide DistinctIds, Detach;
    var r := Detach(ws, token);
    forall i | 0 <= i < |r|
      ensures r[i].flight == f && r[i].id in t.place && t.place[r[i].id] == Attached(f)
      ensures r[i].id in t.tokenOf && t.tokenOf[r[i].id] == r[i].token
    {
      assert r[i] in ws;
    }
  }

  lemma DetachedInList(ws: seq<Waiter>, token: nat, id: nat)
    requires InList(ws, id) && forall i :: 0 <= i < |ws| && ws[i].id == id ==> ws[i].token != token
    ensures InList(Detach(ws, token), id) && Detach(ws, token) != []
  {
    hide Detach;
    var i :| 0 <= i < |ws| && ws[i].id == id;
    assert ws[i] in ws && ws[i] in Detach(ws, token);
    var j :| 0 <= j < |Detach(ws, token)| && Detach(ws, token)[j] == ws[i];
  }

  lemma ScanFlights(s: State, token: nat)
    requires FlightInv(s)
    ensures OnePlace(Scanned(s, token)) && FlightsLive(Scanned(s, token))
  {
    hide PlacesAgree, NobodyStranded, Inv, Queue, Detach;
    var t := Scanned(s, token);
    forall g ensures HasTask(t, g) == HasTask(s, g) { }
    hide HasTask;
    forall k | k in t.flights
      ensures Live(t, t.flights[k])
    {
      var f := s.flights[k];
      assert Live(s, f) && Current(s, f);
      assert t.waiters[f] == Detach(s.waiters[f], token);
    }
  }

  lemma ScanLists(s: State, token: nat)
    requires FlightInv(s)
    ensures PlacesAgree(Scanned(s, token))
  {
    hide OnePlace, NobodyStranded, DistinctIds, ListAt, Live, Detach;
    var t := Scanned(s, token);
    forall k | k in t.flights
      ensures t.flights[k] in t.waiters && ListAt(t, t.waiters[t.flights[k]], t.flights[k], Attached(t.flights[k]))
    {
      var f := s.flights[k];
      assert t.waiters[f] == Detach(s.waiters[f], token);
      DetachedListAt(s, t, s.waiters[f], f, token);
    }
    forall v | 0 <= v < |t.workers| && t.workers[v].Calling?
      ensures ListAt(t, t.workers[v].rest, t.workers[v].flight, InCall(v))
    {
      ListMoves(s, t, s.workers[v].rest, s.workers[v].flight, InCall(v), InCall(v));
    }
  }

  lemma TokensInList(s: State, ws: seq<Waiter>, f: nat, p: Place, id: nat, token: nat)
    requires ListAt(s, ws, f, p) && id in s.tokenOf && s.tokenOf[id] != token
    ensures forall i :: 0 <= i < |ws| && ws[i].id == id ==> ws[i].token != token
  {
    hide DistinctIds;
  }

  lemma ScanServed(s: State, token: nat, id: nat)
    requires FlightInv(s) && token in s.cancelledTokens && id in s.place
    ensures id in Scanned(s, token).place && PlaceServed(Scanned(s, token), id)
  {
    hide OnePlace, DistinctIds, ListAt, Live, Detach, InList;
    var t := Scanned(s, token);
    assert PlaceServed(s, id) && id in s.tokenOf;
    match s.place[id]
    case Attached(f) =>
      if s.tokenOf[id] != token {
        var k := s.keyOf[f];
        TokensInList(s, s.waiters[f], f, Attached(f), id, token);
        DetachedInList(s.waiters[f], token, id);
        assert k !in Emptied(s, token);
        assert t.waiters[f] == Detach(s.waiters[f], token);
      }
    case InCall(_) =>
    case Called =>
    case Dropped =>
  }

  lemma ScanKeeps(s: State, token: nat)
    requires FlightInv(s) && Enabled(s, CancelScan(token))
    ensures FlightInv(Apply(s, CancelScan(token)))
  {
    hide OnePlace, FlightsLive, PlacesAgree, PlaceServed;
    ScanFlights(s, token);
    ScanLists(s, token);
    var t := Scanned(s, token);
    forall id | id in t.place ensures PlaceServed(t, id) { ScanServed(s, token, id); }
  }

  // ---------------------------------------------------------------- runs

  lemma StepKeeps(s: State, a: Action)
    requires FlightInv(s) && Enabled(s, a)
    ensures FlightInv(Apply(s, a))
  {
    hide FlightInv, Enabled, Apply;
    match a
    case ResolveSkipped(token) => ResolveSkippedKeeps(s, token);
    case Resolve(key, token, seen) => ResolveKeeps(s, key, token, seen);
    case SetFlag(_) => FlagKeeps(s, a);
    case CancelScan(token) => ScanKeeps(s, token);
    case PruneCancelled(seen) => PruneKeeps(s, seen);
    case Take(w, seen) => TakeKeeps(s, w, seen);
    case SkipCancelled(_) => WorkerKeeps(s, a);
    case Start(_) => WorkerKeeps(s, a);
    case Complete(w) => CompleteKeeps(s, w);
    case SkipWaiter(w) => CallNextKeeps(s, w, true);
    case CallNext(w) => CallNextKeeps(s, w, false);
    case Finish(_) => WorkerKeeps(s, a);
    case StopPool => FlagKeeps(s, a);
  }

  predicate ValidRun(s: State, actions: seq<Action>)
    decreases |actions|
  {
    actions != [] ==> Enabled(s, actions[0]) && ValidRun(Apply(s, actions[0]), actions[1..])
  }

  function Run(s: State, actions: seq<Action>): State
    requires ValidRun(s, actions)
    decreases |actions|
  {
    if actions == [] then s else Run(Apply(s, actions[0]), actions[1..])
  }

  lemma {:induction false} RunKeeps(s: State, actions: seq<Action>)
    requires FlightInv(s) && ValidRun(s, actions)
    ensures FlightInv(Run(s, actions))
    decreases |actions|
  {
    hide FlightInv, Enabled, Apply;
    if actions != [] {
      StepKeeps(s, actions[0]);
      RunKeeps(Apply(s, actions[0]), actions[1..]);
    }
  }

  function TaskCount(s: State, f: nat): nat {
    |set i | 0 <= i < |s.workers| && Holds(s.workers[i], f)| + if f in Queue(s.pool) then 1 else 0
  }

  lemma ExactlyOneTask(s: State, f: nat)
    requires OnePlace(s) && HasTask(s, f)
    ensures TaskCount(s, f) == 1
  {
    hide Inv, Queue;
    var holders := set i | 0 <= i < |s.workers| && Holds(s.workers[i], f);
    if f in Queue(s.pool) {
      assert holders == {};
    } else {
      var i :| 0 <= i < |s.workers| && Holds(s.workers[i], f);
      forall j | j in holders ensures j == i { }
      assert holders == {i};
    }
  }

  /** Every flight a caller can join is uncancelled, has between one and 1024 waiters
      and exactly one task, queued, pending or held by a worker. */
  lemma MappedFlightsAreLive(actions: seq<Action>, key: string)
    requires ValidRun(INIT, actions) && key in Run(INIT, actions).flights
    ensures var s := Run(INIT, actions);
            var f := s.flights[key];
            && f !in s.cancelledFlights && f in s.waiters && 1 <= |s.waiters[f]| <= MAX_FLIGHT_WAITERS
            && TaskCount(s, f) == 1
  {
    hide Run, TaskCount, HasTask, PlacesAgree, NobodyStranded, OnePlace;
    InitFlightInv();
    RunKeeps(INIT, actions);
    var s := Run(INIT, actions);
    ExactlyOneTask(s, s.flights[key]);
  }

  /** Nobody is stranded: every accepted waiter has been called, or dropped after its
      own cancellation, or is about to be called by a worker, or waits on a mapped
      flight (which is live by the theorem above). */
  lemma NoWaiterIsStranded(actions: seq<Action>, id: nat)
    requires ValidRun(INIT, actions) && id in Run(INIT, actions).place
    ensures PlaceServed(Run(INIT, actions), id)
  {
    hide Run, PlaceServed;
    InitFlightInv();
    RunKeeps(INIT, actions);
  }

  /** Each waiter is called at most once. */
  lemma CalledAtMostOnce(actions: seq<Action>, i: nat, j: nat)
    requires ValidRun(INIT, actions) && i < j < |Run(INIT, actions).calls|
    ensures Run(INIT, actions).calls[i].id != Run(INIT, actions).calls[j].id
  {
    hide Run, ListAt;
    InitFlightInv();
    RunKeeps(INIT, actions);
  }

  lemma CallListsAreOwn(s: State, w: nat)
    requires PlacesAgree(s) && w < |s.workers| && s.workers[w].Calling?
    ensures forall i :: 0 <= i < |s.workers[w].rest| ==> s.workers[w].rest[i].flight == s.workers[w].flight
  {
    hide DistinctIds;
    assert ListAt(s, s.workers[w].rest, s.workers[w].flight, InCall(w));
  }

  /** A task only ever calls waiters that joined its own flight: an older task never
      completes a newer flight for the same key. */
  lemma TasksCallOwnWaiters(actions: seq<Action>, w: nat)
    requires ValidRun(INIT, actions)
    requires w < |Run(INIT, actions).workers| && Run(INIT, actions).workers[w].Calling?
    ensures var worker := Run(INIT, actions).workers[w];
            forall i :: 0 <= i < |worker.rest| ==> worker.rest[i].flight == worker.flight
  {
    hide Run, PlacesAgree;
    InitFlightInv();
    RunKeeps(INIT, actions);
    CallListsAreOwn(Run(INIT, actions), w);
  }

  lemma IdleMeansUnmapped(s: State)
    requires FlightsLive(s) && Queue(s.pool) == [] && forall i :: 0 <= i < |s.workers| ==> s.workers[i].Idle?
    ensures s.flights == map[]
  {
    hide Queue;
    assert forall k :: k in s.flights ==> HasTask(s, s.flights[k]);
    forall f ensures !HasTask(s, f) { }
  }

  /** When the pool has drained, every accepted waiter has been called exactly once or
      was dropped after its own cancellation. */
  lemma DrainedMeansAnswered(actions: seq<Action>, id: nat)
    requires ValidRun(INIT, actions) && id in Run(INIT, actions).place
    requires var s := Run(INIT, actions);
             Queue(s.pool) == [] && forall i :: 0 <= i < |s.workers| ==> s.workers[i].Idle?
    ensures var s := Run(INIT, actions);
            InList(s.calls, id) || (id in s.tokenOf && s.tokenOf[id] in s.cancelledTokens)
  {
    hide Run, Queue, InList, FlightsLive, OnePlace, PlacesAgree;
    InitFlightInv();
    RunKeeps(INIT, actions);
    IdleMeansUnmapped(Run(INIT, actions));
    NoWaiterIsStranded(actions, id);
  }
}
