/** What joining, cancelling and completing a shared resolution do to the people waiting,
    said through the lists of waiters alone. */
module DnsLaws {
  import opened DnsPool
  import opened DnsFlights

  // ---------------------------------------------------------------- joining

  /** Everybody already waiting or being called is left alone. */
  predicate OthersUndisturbed(s: State, t: State, key: string) {
    && t.workers == s.workers && t.calls == s.calls
    && t.cancelledFlights == s.cancelledFlights && t.cancelledTokens == s.cancelledTokens
    && (forall k :: k in s.flights ==> k in t.flights && t.flights[k] == s.flights[k])
    && (forall k :: k in t.flights ==> k in s.flights || k == key)
    && (forall k :: k in s.flights && k != key && s.flights[k] in s.waiters ==>
          s.flights[k] in t.waiters && t.waiters[s.flights[k]] == s.waiters[s.flights[k]])
  }

  /** Room for one more caller of `key`: on the flight of the key, or in the pool. */
  predicate HasRoom(s: State, key: string, seen: set<nat>) {
    if key in s.flights && s.flights[key] in s.waiters then |s.waiters[s.flights[key]]| < 1024
    else
      !s.pool.stopping &&
      |Prune(Queue(s.pool), seen)| < MAX_QUEUED_TASKS + MAX_PENDING_HOSTS
  }

  lemma RoomInPool(p: Pool, work: nat, seen: set<nat>)
    requires Inv(p)
    ensures Submission(p, work, seen).accepted <==>
            !p.stopping && |Prune(Queue(p), seen)| < MAX_QUEUED_TASKS + MAX_PENDING_HOSTS
  {
    hide Prune;
    TidyQueue(p, seen);
    TidyKeeps(p, seen);
  }

  /** A caller gets in exactly when there is room. It then stands last among the callers
      of its own key, under its own token; a key nobody was resolving gets a new flight
      with one task in the queue, and a key being resolved gets no second task. A refused
      caller leaves no trace among the callers. */
  lemma ResolveMeaning(s: State, key: string, token: nat, seen: set<nat>)
    requires FlightInv(s) && Enabled(s, Resolve(key, token, seen))
    ensures var t := Apply(s, Resolve(key, token, seen));
            && OthersUndisturbed(s, t, key)
            && (HasRoom(s, key, seen) ==>
                  && key in t.flights && t.flights[key] in t.waiters
                  && s.nextWaiter in t.place && t.place[s.nextWaiter] == Attached(t.flights[key])
                  && var before := if key in s.flights && s.flights[key] in s.waiters
                                   then s.waiters[s.flights[key]] else [];
                  t.waiters[t.flights[key]] == before + [Waiter(s.nextWaiter, token, t.flights[key])])
            && (HasRoom(s, key, seen) && key !in s.flights ==>
                  t.flights[key] == s.nextFlight && Queue(t.pool) == Prune(Queue(s.pool), seen) + [s.nextFlight])
            && (key in s.flights ==> t.pool == s.pool)
            && (!HasRoom(s, key, seen) ==>
                  t.flights == s.flights && t.waiters == s.waiters && t.place == s.place)
  {
    hide Inv, Queue, Prune, Submission, HasTask, PlacesAgree, NobodyStranded;
    MappedHasWaiters(s);
    RoomInPool(s.pool, s.nextFlight, seen);
    SubmitMeaning(s.pool, s.nextFlight, seen);
    LiveFlightsAreOld(s);
    KeysOfFlights(s);
  }

  lemma KeysOfFlights(s: State)
    requires FlightsLive(s)
    ensures forall k, l :: k in s.flights && l in s.flights && s.flights[k] == s.flights[l] ==> k == l
  {
    hide Live;
    forall k, l | k in s.flights && l in s.flights && s.flights[k] == s.flights[l] ensures k == l {
      assert s.keyOf[s.flights[k]] == k && s.keyOf[s.flights[l]] == l;
    }
  }

  // ---------------------------------------------------------------- cancelling

  /** The others of a list, in their order. */
  function Others(ws: seq<Waiter>, token: nat): seq<Waiter> {
    if ws == [] then []
    else if ws[|ws| - 1].token == token then Others(ws[..|ws| - 1], token)
    else Others(ws[..|ws| - 1], token) + [ws[|ws| - 1]]
  }

  lemma {:induction false} DetachAppend(a: seq<Waiter>, b: seq<Waiter>, token: nat)
    ensures Detach(a + b, token) == Detach(a, token) + Detach(b, token)
  {
    if a == [] {
      assert a + b == b;
    } else {
      assert (a + b)[1..] == a[1..] + b;
      DetachAppend(a[1..], b, token);
    }
  }

  lemma {:induction false} DetachIsOthers(ws: seq<Waiter>, token: nat)
    ensures Detach(ws, token) == Others(ws, token)
  {
    if ws != [] {
      var init, last := ws[..|ws| - 1], ws[|ws| - 1];
      assert ws == init + [last];
      DetachAppend(init, [last], token);
      DetachIsOthers(init, token);
      assert Detach([last], token) == if last.token == token then [] else [last];
    }
  }

  /** After a cancellation nobody with that token waits on a flight that can still be
      joined. The others wait on, in their order and on the same flight. A flight that
      nobody is left on is cancelled and its key is free; no other flight is cancelled.
      Callbacks under way and the queue are not touched. */
  lemma CancelDetaches(s: State, token: nat)
    requires FlightInv(s) && Enabled(s, CancelScan(token))
    ensures var t := Apply(s, CancelScan(token));
            && (forall k :: k in t.flights ==>
                  t.flights[k] in t.waiters && forall x :: x in t.waiters[t.flights[k]] ==> x.token != token)
            && (forall k :: k in s.flights ==> s.flights[k] in s.waiters)
            && (forall k :: k in s.flights ==>
                  var f, rest := s.flights[k], Others(s.waiters[s.flights[k]], token);
                  if rest == [] then k !in t.flights && f in t.cancelledFlights
                  else k in t.flights && t.flights[k] == f && f !in t.cancelledFlights &&
                       f in t.waiters && t.waiters[f] == rest)
            && (forall k :: k in t.flights ==> k in s.flights)
            && (forall f :: f in t.cancelledFlights && f !in s.cancelledFlights ==>
                  exists k :: k in s.flights && s.flights[k] == f && k !in t.flights)
            && t.workers == s.workers && t.calls == s.calls && t.pool == s.pool
            && t.cancelledTokens == s.cancelledTokens
  {
    hide OnePlace, PlacesAgree, NobodyStranded, HasTask, Detach, Others;
    var t := Apply(s, CancelScan(token));
    MappedHasWaiters(s);
    KeysOfFlights(s);
    forall k | k in s.flights
      ensures Detach(s.waiters[s.flights[k]], token) == Others(s.waiters[s.flights[k]], token)
      ensures Current(s, s.flights[k])
    {
      DetachIsOthers(s.waiters[s.flights[k]], token);
    }
  }

  // ---------------------------------------------------------------- completing

  /** A worker that finishes a flight that is still mapped takes over exactly its callers,
      in the order they came, and frees the key, so that the next caller starts afresh;
      other keys keep their callers. A worker whose flight was cancelled, or whose key was
      taken by a newer flight, calls nobody and frees nothing. */
  lemma CompleteHandsOver(s: State, w: nat)
    requires FlightInv(s) && Enabled(s, Complete(w))
    ensures var t, f := Apply(s, Complete(w)), s.workers[w].flight;
            && t.workers[w].Calling? && t.calls == s.calls && t.cancelledFlights == s.cancelledFlights
            && t.pool == s.pool && t.cancelledTokens == s.cancelledTokens
            && |t.workers| == |s.workers|
            && (forall v :: 0 <= v < |s.workers| && v != w ==> t.workers[v] == s.workers[v])
            && (forall k :: k in s.flights && s.flights[k] == f ==>
                  f in s.waiters && t.workers[w].rest == s.waiters[f] && k !in t.flights)
            && (forall k :: k in s.flights && s.flights[k] != f ==>
                  k in t.flights && t.flights[k] == s.flights[k] && s.flights[k] in s.waiters &&
                  s.flights[k] in t.waiters && t.waiters[s.flights[k]] == s.waiters[s.flights[k]])
            && ((forall k :: k in s.flights ==> s.flights[k] != f) ==>
                  t.workers[w].rest == [] && t.flights == s.flights)
            && (forall k :: k in t.flights ==> k in s.flights)
  {
    hide OnePlace, PlacesAgree, NobodyStranded, HasTask;
    MappedHasWaiters(s);
    KeysOfFlights(s);
  }

  // ---------------------------------------------------------------- calling

  /** The caller of a callback. */
  function CallsOf(actions: seq<Action>, s: State): seq<Waiter>
    requires ValidRun(s, actions)
    decreases |actions|
  {
    if actions == [] then []
    else
      var a := actions[0];
      (if a.CallNext? then [s.workers[a.w].rest[0]] else []) + CallsOf(actions[1..], Apply(s, a))
  }

  lemma LogStep(s: State, a: Action)
    requires Enabled(s, a)
    ensures Apply(s, a).calls == s.calls + if a.CallNext? then [s.workers[a.w].rest[0]] else []
  {
  }

  /** Nothing but a callback adds to the log, and each adds the waiter it calls. */
  lemma {:induction false} LogIsCalls(s: State, actions: seq<Action>)
    requires ValidRun(s, actions)
    ensures Run(s, actions).calls == s.calls + CallsOf(actions, s)
    decreases |actions|
  {
    if actions != [] {
      var t := Apply(s, actions[0]);
      LogIsCalls(t, actions[1..]);
      var one := if actions[0].CallNext? then [s.workers[actions[0].w].rest[0]] else [];
      LogStep(s, actions[0]);
      assert s.calls + (one + CallsOf(actions[1..], t)) == (s.calls + one) + CallsOf(actions[1..], t);
    } else {
      assert s.calls + CallsOf(actions, s) == s.calls;
    }
  }
}
