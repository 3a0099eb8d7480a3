/** Two-phase revalidation over whole runs of cache operations: what a 304 may touch
    when anything at all happened since the lookup that started the validation. */
module CacheRuns {
  import opened Text
  import opened Headers
  import opened CacheControl
  import opened CachePolicy
  import opened CacheEntries
  import opened Freshness
  import opened CacheCore
  import HttpDate

  datatype Op =
    | Store(request: CacheRequest, status: int, headers: HeaderList, body: Bytes, requestWall: Option<nat>, now: Now)
    | LookUp(request: CacheRequest)
    | InvalidateUrl(url: string)
    | InvalidateEntry(id: nat)
    | Clear
    | Merge304(rv: Revalidation)

  function Stored(config: Config, s: State, op: Op): Insertion
    requires op.Store?
  {
    var r := MakeCached(config, op.request, op.status, op.headers, op.body, op.requestWall, op.now, true);
    if r.None? then Insertion(s, None) else Insert(config, s, r.value)
  }

  function Step(config: Config, s: State, op: Op): State {
    match op
    case Store(_, _, _, _, _, _) => Stored(config, s, op).state
    case LookUp(request) => Looked(s, request)
    case InvalidateUrl(url) => Invalidated(s, url)
    case InvalidateEntry(id) => EntryInvalidated(s, id)
    case Clear => s.(entries := [])
    case Merge304(rv) => Merge(config, s, rv).state
  }

  function Run(config: Config, s: State, ops: seq<Op>): State
    decreases |ops|
  {
    if ops == [] then s else Run(config, Step(config, s, ops[0]), ops[1..])
  }

  /** `t` follows `s`: the invariant holds and no generation older than `s.nextId`
      changed a byte or came back. */
  predicate Follows(config: Config, s: State, t: State) {
    WellFormed(config, t) && t.nextId >= s.nextId &&
    forall e :: e in t.entries && e.entryId < s.nextId ==> e in s.entries
  }

  // ---------------------------------------------------------------- one merge

  lemma ChosenAreSelected(es: Entries, rv: Revalidation)
    ensures forall e :: e in Chosen(es, rv) ==> e in es && e.entryId in rv.Candidates() && rv.ValidatorMatches(e)
  {
    forall e | e in Chosen(es, rv)
      ensures e in es && e.entryId in rv.Candidates() && rv.ValidatorMatches(e)
    {
      assert rv.Selects()(e);
    }
  }

  /** A weak validator replaces at most one entry, the most recent that matches. */
  lemma WeakChoosesNewest(es: Entries, rv: Revalidation)
    requires rv.SelectsOne()
    ensures |Chosen(es, rv)| <= 1
    ensures forall c, e :: c in Chosen(es, rv) && e in es && rv.Selects()(e) ==> !MoreRecent(e, c)
    ensures Chosen(es, rv) == [] ==> forall e :: e in es ==> !rv.Selects()(e)
  {
    hide MoreRecent, Revalidation.ValidatorMatches, Revalidation.SelectsOne;
  }

  /** A strong validator, or none, replaces every selected entry. */
  lemma StrongChoosesAll(es: Entries, rv: Revalidation)
    requires !rv.SelectsOne()
    ensures forall e :: e in Chosen(es, rv) <==> e in es && rv.Selects()(e)
  {
    hide Revalidation.ValidatorMatches, Revalidation.SelectsOne;
  }

  lemma SurvivorsAreTheRest(config: Config, s: State, chosen: Entries)
    requires WellFormed(config, s) && forall e :: e in chosen ==> e in s.entries
    ensures forall e :: e in Survivors(s.entries, IdsOf(chosen)) <==> e in s.entries && e !in chosen
  {
    hide Fits, DistinctVariants, AllAdmissible;
    var ids := IdsOf(chosen);
    forall e | e in s.entries
      ensures e.entryId in ids <==> e in chosen
    {
      if e in chosen {
        var i :| 0 <= i < |chosen| && chosen[i] == e;
        assert ids[i] == e.entryId;
      }
      if e.entryId in ids {
        var i :| 0 <= i < |ids| && ids[i] == e.entryId;
        assert chosen[i] in s.entries;
        SameIdSameEntry(s.entries, e, chosen[i]);
      }
    }
  }

  lemma SameIdSameEntry(es: Entries, a: CachedResponse, b: CachedResponse)
    requires DistinctIds(es) && a in es && b in es && a.entryId == b.entryId
    ensures a == b
  {
  }

  lemma SurvivorsBetween(config: Config, s: State, chosen: Entries)
    requires WellFormed(config, s) && forall e :: e in chosen ==> e in s.entries
    ensures Between(config, s.(entries := Survivors(s.entries, IdsOf(chosen))), IdsOf(chosen))
  {
    var ids := IdsOf(chosen);
    FilterKeepsInvariant(config, s, NotRemoved(ids));
    forall id | id in ids
      ensures id < s.nextId
    {
      var i :| 0 <= i < |ids| && ids[i] == id;
      assert chosen[i] in s.entries;
      EntryIdBound(config, s, chosen[i]);
    }
    hide WellFormed;
  }

  lemma EntryIdBound(config: Config, s: State, e: CachedResponse)
    requires WellFormed(config, s) && e in s.entries
    ensures 1 <= e.entryId < s.nextId
  {
  }

  /** `e` is a refreshed copy of one of `chosen`. */
  ghost predicate RefreshedFrom(rv: Revalidation, chosen: Entries, firstId: nat, e: CachedResponse) {
    e.entryId >= firstId && exists i :: 0 <= i < |chosen| && RefreshOf(rv, chosen[i], e)
  }

  lemma RefreshedFromIntro(rv: Revalidation, chosen: Entries, cs: seq<Refresh>, firstId: nat, e: CachedResponse)
    requires IsRefreshOf(cs, firstId, e) && forall i :: 0 <= i < |cs| ==> RefreshesOne(rv, chosen, cs[i])
    ensures RefreshedFrom(rv, chosen, firstId, e)
  {
    hide RefreshOf;
    var i :| 0 <= i < |cs| && e == cs[i].response.(entryId := e.entryId);
    assert RefreshesOne(rv, chosen, cs[i]);
    var k :| 0 <= k < |chosen| && chosen[k].entryId == cs[i].replaced && RefreshOf(rv, chosen[k], cs[i].response);
    RefreshUnderNewId(rv, chosen[k], cs[i].response, e.entryId);
  }

  /** The whole effect of an accepted 304: the chosen entries leave, refreshed copies
      under new generation ids come to the front, and eviction cuts the tail. */
  lemma MergeShape(config: Config, s: State, rv: Revalidation) returns (inserted: Entries)
    requires WellFormed(config, s)
    ensures var m := UpdateEntries(config, s, rv).state;
            var chosen := Chosen(s.entries, rv);
            && WellFormed(config, m) && m.nextId >= s.nextId
            && m.entries == Evict(config, inserted + Survivors(s.entries, IdsOf(chosen)))
            && forall e :: e in inserted ==> RefreshedFrom(rv, chosen, s.nextId, e) && e.entryId < m.nextId
  {
    hide WellFormed, Between, Evict, Chosen, Survivors, RefreshesOne, IsRefreshOf, Refreshes, InsertRefreshes,
         IdsOf, AllRefreshesOk, RefreshedFrom;
    var chosen := Chosen(s.entries, rv);
    ChosenAreSelected(s.entries, rv);
    var removed := IdsOf(chosen);
    SurvivorsBetween(config, s, chosen);
    var base := s.(entries := Survivors(s.entries, removed));
    var cs := Refreshes(config, rv, chosen);
    RefreshesComeFromChosen(config, rv, chosen);
    inserted := InsertRefreshesShape(config, Merging(base, None), removed, rv.stored.entryId, cs);
    forall e | e in inserted ensures RefreshedFrom(rv, chosen, s.nextId, e) {
      RefreshedFromIntro(rv, chosen, cs, s.nextId, e);
    }
  }

  /** Refusals and delivery-only answers leave the cache alone; an accepted 304 does
      exactly the update above; what is delivered is always what the 304 makes of the
      stored response. */
  lemma MergeEffect(config: Config, s: State, rv: Revalidation)
    ensures var m := Merge(config, s, rv);
            && (m.result.None? ==> m.state == s)
            && (Judge(s.entries, rv) != Update ==> m.state == s)
            && (m.result.Some? && Judge(s.entries, rv) == Update ==> m.state == UpdateEntries(config, s, rv).state)
            && (m.result.Some? ==> RefreshOf(rv, rv.stored, m.result.value.delivery) && rv.Applicable())
  {
    hide UpdateEntries, Judge, Revalidation.Applicable, MakeCached, RefreshOf, Revalidation.Updated;
    RefreshIsRefreshOf(config, rv, rv.stored, false);
  }

  lemma MergeFollows(config: Config, s: State, rv: Revalidation)
    requires WellFormed(config, s)
    ensures Follows(config, s, Merge(config, s, rv).state)
  {
    hide WellFormed, Merge, UpdateEntries, Survivors, Evict, IdsOf, Judge;
    MergeEffect(config, s, rv);
    var inserted := MergeShape(config, s, rv);
    var chosen := Chosen(s.entries, rv);
    ChosenAreSelected(s.entries, rv);
    SurvivorsAreTheRest(config, s, chosen);
    var all := inserted + Survivors(s.entries, IdsOf(chosen));
    forall e | e in Evict(config, all) && e.entryId < s.nextId
      ensures e in s.entries
    {
      assert e in all;
    }
  }

  // ---------------------------------------------------------------- runs

  lemma InsertFollows(config: Config, s: State, r: CachedResponse)
    requires WellFormed(config, s)
    requires r.accountedBytes <= config.maxEntryBytes && r.accountedBytes == AccountedBytes(config, r)
    ensures Follows(config, s, Insert(config, s, r).state)
  {
    InsertKeepsInvariant(config, s, r);
    ReplacingWellFormed(config, s, r);
    hide WellFormed, Evict, Replacing, Outdated, AccountedBytes;
    if !Outdated(s.entries, r) {
      var all := [r.(entryId := s.nextId)] + Replacing(s.entries, r);
      forall e | e in Evict(config, all) && e.entryId < s.nextId ensures e in s.entries {
        assert e in all;
      }
    }
  }

  lemma StepFollows(config: Config, s: State, op: Op)
    requires WellFormed(config, s)
    ensures Follows(config, s, Step(config, s, op))
  {
    hide WellFormed, MakeCached, Merge, Insert, Looked, EntryInvalidated, AccountedBytes, Filter;
    match op
    case Store(_, _, _, _, _, _) =>
      var r := MakeCached(config, op.request, op.status, op.headers, op.body, op.requestWall, op.now, true);
      if r.Some? { InsertFollows(config, s, r.value); }
    case LookUp(request) =>
      LookedKeepsInvariant(config, s, request);
      LookedFollows(s, request);
    case InvalidateUrl(url) =>
      FilterKeepsInvariant(config, s, OtherUrl(url));
    case InvalidateEntry(id) =>
      EntryInvalidatedKeepsInvariant(config, s, id);
      EntryInvalidatedMembers(config, s, id);
      EntryInvalidatedNextId(s, id);
    case Clear =>
      ClearedIsWellFormed(config, s);
    case Merge304(rv) =>
      MergeFollows(config, s, rv);
  }

  lemma LookedFollows(s: State, request: CacheRequest)
    ensures Looked(s, request).nextId == s.nextId
    ensures forall e :: e in Looked(s, request).entries ==> e in s.entries
  {
    hide LookupAllowed;
  }

  lemma EntryInvalidatedNextId(s: State, id: nat)
    ensures EntryInvalidated(s, id).nextId == s.nextId
  {
  }

  lemma ClearedIsWellFormed(config: Config, s: State)
    requires WellFormed(config, s)
    ensures WellFormed(config, s.(entries := []))
  {
  }

  lemma FollowsTransitive(config: Config, s: State, t: State, u: State)
    requires Follows(config, s, t) && Follows(config, t, u)
    ensures Follows(config, s, u)
  {
    hide WellFormed;
  }

  /** Over every run the invariant holds and a stored generation is immutable: an
      entry either is byte-for-byte what it was or is gone for good. */
  lemma {:induction false} RunFollows(config: Config, s: State, ops: seq<Op>)
    requires WellFormed(config, s)
    ensures Follows(config, s, Run(config, s, ops))
    decreases |ops|
  {
    hide WellFormed, Step;
    if ops != [] {
      var t := Step(config, s, ops[0]);
      StepFollows(config, s, ops[0]);
      RunFollows(config, t, ops[1..]);
      FollowsTransitive(config, s, t, Run(config, t, ops[1..]));
    }
  }

  // ---------------------------------------------------------------- revalidation isolation

  /** Lookup serves an entry that no other matching entry is more recent than, moves
      exactly that entry to the front, and misses only when nothing matches. */
  lemma LookupServesNewest(s: State, request: CacheRequest, now: Now)
    requires LookupAllowed(request)
    ensures LookupIn(s, request, now).outcome == Miss <==>
            forall e :: e in s.entries ==> !Matches(e, request.url, request.headers)
    ensures LookupIn(s, request, now).outcome != Miss ==>
              var served := Looked(s, request).entries[0];
              && served in s.entries && Matches(served, request.url, request.headers)
              && LookupIn(s, request, now).response.Some?
              && LookupIn(s, request, now).response.value.(headers := served.headers) == served
              && (forall e :: e in s.entries && Matches(e, request.url, request.headers) ==> !MoreRecent(e, served))
  {
    hide LookupAllowed, Fresh, Matches, HeadersWithAge, CurrentAge, MoreRecent;
    var p := MatchesRequest(request);
    var b := Best(s.entries, |s.entries|, p);
    forall e | e in s.entries
      ensures p(e) == Matches(e, request.url, request.headers)
      ensures b == |s.entries| ==> !p(e)
    {
    }
    if b < |s.entries| {
      assert p(s.entries[b]) && s.entries[b] in s.entries;
    }
  }

  /** What was just stored is found: a lookup for the same request hits, and serves an
      entry the stored one is not more recent than. */
  lemma StoreThenLookup(config: Config, s: State, op: Op, now: Now)
    requires op.Store?
    ensures var t := Stored(config, s, op).state;
            Stored(config, s, op).id.Some? ==>
              && LookupAllowed(op.request) && LookupIn(t, op.request, now).outcome != Miss
              && t.entries != [] && t.entries[0].body == op.body
              && !MoreRecent(t.entries[0], Looked(t, op.request).entries[0])
  {
    hide MakeCached, Insert, LookupIn, Looked, Matches, MoreRecent, AccountedBytes, Bypassed, ParseCacheControl;
    var r := MakeCached(config, op.request, op.status, op.headers, op.body, op.requestWall, op.now, true);
    OwnRequestMatches(config, op.request, op.status, op.headers, op.body, op.requestWall, op.now, true);
    if Stored(config, s, op).id.Some? {
      StoredIsInFront(config, s, r.value);
      var t := Stored(config, s, op).state;
      SameMatches(r.value, t.entries[0].entryId, op.request);
      assert t.entries[0] in t.entries;
      LookupServesNewest(t, op.request, now);
    }
  }

  lemma SameMatches(r: CachedResponse, id: nat, request: CacheRequest)
    ensures Matches(r.(entryId := id), request.url, request.headers) == Matches(r, request.url, request.headers)
  {
  }

  /** Equal fields, Age aside. */
  ghost predicate SameBesidesAge(a: HeaderList, b: HeaderList) {
    forall name :: !IEquals(name, "age") ==> GetAll(a, name) == GetAll(b, name)
  }

  lemma AgedIsSame(headers: HeaderList, age: nat)
    ensures SameBesidesAge(HeadersWithAge(headers, age), headers)
  {
    hide IEquals, GetAll, HeadersWithAge;
    forall name | !IEquals(name, "age")
      ensures GetAll(HeadersWithAge(headers, age), name) == GetAll(headers, name)
    {
      FieldsWithAge(headers, age, name);
    }
  }

  /** The Age that lookup added plays no part in what the 304 makes of the response. */
  lemma AgePlaysNoPart(rv: Revalidation, looked: CachedResponse, e: CachedResponse, r: CachedResponse)
    requires looked.body == e.body && SameBesidesAge(looked.headers, e.headers) && RefreshOf(rv, looked, r)
    ensures RefreshOf(rv, e, r)
  {
    hide IEquals, GetAll, SelfDescribed, DatedBy, VariesBy, HttpDate.FormatHttpDate;
    forall name ensures FieldAfter(rv, looked.headers, name) == FieldAfter(rv, e.headers, name) {
      NamesApart(name);
    }
  }

  /** What lookup hands to the validation: the stored generation it returned and the
      ids of all entries that matched. */
  lemma LookupSnapshot(config: Config, s: State, request: CacheRequest, now: Now)
    requires WellFormed(config, s) && LookupIn(s, request, now).outcome == NeedsValidation
    ensures var look := LookupIn(s, request, now);
            && look.response.Some?
            && (exists e :: e in s.entries && Matches(e, request.url, request.headers) &&
                            e.entryId == look.response.value.entryId && e.body == look.response.value.body &&
                            SameBesidesAge(look.response.value.headers, e.headers))
            && (forall id :: id in look.candidates ==>
                  id < s.nextId &&
                  exists e :: e in s.entries && e.entryId == id && Matches(e, request.url, request.headers))
            && look.response.value.entryId in look.candidates
            && (forall e :: e in s.entries && Matches(e, request.url, request.headers) ==> e.entryId in look.candidates)
  {
    hide LookupAllowed, Fresh, WellFormed, Matches, HeadersWithAge, CurrentAge, SameBesidesAge;
    var look := LookupIn(s, request, now);
    var p := MatchesRequest(request);
    var e := s.entries[Best(s.entries, |s.entries|, p)];
    AgedIsSame(e.headers, CurrentAge(e, now.monotonic));
    assert p(e) && e in s.entries;
    var matching := Filter(s.entries, p);
    assert e in matching;
    var k :| 0 <= k < |matching| && matching[k] == e;
    assert look.candidates[k] == e.entryId;
    forall x | x in s.entries && Matches(x, request.url, request.headers)
      ensures x.entryId in look.candidates
    {
      assert p(x) && x in matching;
      var i :| 0 <= i < |matching| && matching[i] == x;
      assert look.candidates[i] == x.entryId;
    }
    forall id | id in look.candidates
      ensures id < s.nextId
      ensures exists x :: x in s.entries && x.entryId == id && Matches(x, request.url, request.headers)
    {
      var i :| 0 <= i < |look.candidates| && look.candidates[i] == id;
      assert matching[i] in s.entries && p(matching[i]);
      EntryIdBound(config, s, matching[i]);
    }
  }

  /** Isolation of two-phase revalidation. Between the lookup and the 304 any
      operations may run. The 304 then replaces only entries that were in the cache
      at lookup, byte-identical to then, matched the request, are in the snapshot and
      have the validators of the 304, each by a copy with exactly the fields the 304
      updates; everything stored later stays untouched unless eviction cuts it off; and
      what is delivered is the entry lookup saw, updated in the same way. */
  lemma RevalidationIsolation(config: Config, s0: State, now: Now, ops: seq<Op>, rv: Revalidation)
    returns (inserted: Entries)
    requires WellFormed(config, s0)
    requires LookupIn(s0, rv.request, now).outcome == NeedsValidation
    requires Some(rv.stored) == LookupIn(s0, rv.request, now).response
    requires rv.snapshot == LookupIn(s0, rv.request, now).candidates
    ensures var s := Run(config, Looked(s0, rv.request), ops);
            var m := Merge(config, s, rv);
            var chosen := Chosen(s.entries, rv);
            && WellFormed(config, s) && WellFormed(config, m.state)
            && (m.result.None? || Judge(s.entries, rv) != Update ==> m.state == s)
            && (m.result.Some? && Judge(s.entries, rv) == Update ==>
                m.state.entries == Evict(config, inserted + Survivors(s.entries, IdsOf(chosen))))
            && (forall e :: e in inserted ==> RefreshedFrom(rv, chosen, s.nextId, e))
            && (forall e :: e in Survivors(s.entries, IdsOf(chosen)) <==> e in s.entries && e !in chosen)
            && (forall e :: e in chosen ==>
                  e in s.entries && e in s0.entries && e.entryId in rv.snapshot && rv.ValidatorMatches(e) &&
                  Matches(e, rv.request.url, rv.request.headers))
            && (m.result.Some? ==>
                exists e :: e in s0.entries && e.entryId == rv.stored.entryId &&
                            RefreshOf(rv, e, m.result.value.delivery))
  {
    hide WellFormed, LookupIn, Looked, Judge, UpdateEntries, Merge, Survivors, Evict, IdsOf, Chosen, Matches,
         RefreshedFrom, Revalidation.ValidatorMatches, Run, RefreshOf, SameBesidesAge;
    LookupSnapshot(config, s0, rv.request, now);
    var s1 := Looked(s0, rv.request);
    LookedKeepsInvariant(config, s0, rv.request);
    LookedFollows(s0, rv.request);
    var s := Run(config, s1, ops);
    RunFollows(config, s1, ops);
    MergeEffect(config, s, rv);
    MergeFollows(config, s, rv);
    inserted := MergeShape(config, s, rv);
    var chosen := Chosen(s.entries, rv);
    ChosenAreSelected(s.entries, rv);
    SurvivorsAreTheRest(config, s, chosen);
    var m := Merge(config, s, rv);
    if m.result.Some? {
      var e :| e in s0.entries && e.entryId == rv.stored.entryId && e.body == rv.stored.body &&
               SameBesidesAge(rv.stored.headers, e.headers);
      AgePlaysNoPart(rv, rv.stored, e, m.result.value.delivery);
    }
    forall e | e in chosen
      ensures e in s0.entries && e.entryId in rv.snapshot && Matches(e, rv.request.url, rv.request.headers)
    {
      var x :| x in s0.entries && x.entryId == e.entryId && Matches(x, rv.request.url, rv.request.headers);
      assert e in s1.entries && e in s0.entries;
      WellFormedIds(config, s0);
      SameIdSameEntry(s0.entries, e, x);
    }
  }

  lemma WellFormedIds(config: Config, s: State)
    requires WellFormed(config, s)
    ensures DistinctIds(s.entries)
  {
  }

  /** Freshness is one-way over runs: whatever the cache does in between, an entry
      that was once not fresh for a request is never served as fresh to it again
      under the same generation. */
  lemma StaleGenerationStaysStale(
    config: Config, s: State, ops: seq<Op>, e: CachedResponse, e': CachedResponse, control: Control,
    now: Now, later: Now)
    requires WellFormed(config, s) && e in s.entries && e' in Run(config, s, ops).entries && e'.entryId == e.entryId
    requires Readable(now) && Readable(later) && now.monotonic <= later.monotonic && !Fresh(e, control, now)
    ensures e' == e && !Fresh(e', control, later)
  {
    hide WellFormed, Run, Fresh;
    RunFollows(config, s, ops);
    EntryIdBound(config, s, e);
    WellFormedIds(config, s);
    SameIdSameEntry(s.entries, e, e');
    StaleForever(e, control, now, later);
  }

  // ---------------------------------------------------------------- entries say what their headers say

  /** The entry says what its headers say and varies by the fields of some request. */
  ghost predicate Faithful(r: CachedResponse) {
    SelfDescribed(r) && exists answered :: VariesBy(r, answered)
  }

  ghost predicate AllFaithful(s: State) { forall e :: e in s.entries ==> Faithful(e) }

  lemma SelfDescribedUnderId(r: CachedResponse, id: nat)
    requires SelfDescribed(r)
    ensures SelfDescribed(r.(entryId := id))
  {
    hide Get, HasDirective, DirectivesOf, FirstMaxAge, FirstStaleIfError;
  }

  lemma FaithfulUnderId(r: CachedResponse, id: nat)
    requires Faithful(r)
    ensures Faithful(r.(entryId := id))
  {
    SelfDescribedUnderId(r, id);
    hide SelfDescribed, ListedIn, VaryMembers, GetAll;
    var answered :| VariesBy(r, answered);
    assert VariesBy(r.(entryId := id), answered);
  }

  lemma MadeIsFaithful(config: Config, request: CacheRequest, status: int, headers: HeaderList, body: Bytes,
                       requestWall: Option<nat>, now: Now)
    ensures var r := MakeCached(config, request, status, headers, body, requestWall, now, true);
            r.Some? ==> Faithful(r.value)
  {
    EntryMeaning(config, request, status, headers, body, requestWall, now, true);
    hide MakeCached, SelfDescribed, VariesBy, DatedBy;
  }

  lemma InsertFaithful(config: Config, s: State, r: CachedResponse)
    requires WellFormed(config, s) && AllFaithful(s) && Faithful(r)
    ensures AllFaithful(Insert(config, s, r).state)
  {
    ReplacingWellFormed(config, s, r);
    hide WellFormed, Evict, Replacing, Outdated, Faithful;
    FaithfulUnderId(r, s.nextId);
    if !Outdated(s.entries, r) {
      var all := [r.(entryId := s.nextId)] + Replacing(s.entries, r);
      forall e | e in Evict(config, all) ensures Faithful(e) { assert e in all; }
    }
  }

  lemma MergeFaithful(config: Config, s: State, rv: Revalidation)
    requires WellFormed(config, s) && AllFaithful(s)
    ensures AllFaithful(Merge(config, s, rv).state)
  {
    hide WellFormed, Merge, UpdateEntries, Survivors, Evict, IdsOf, Judge, Faithful, Chosen;
    MergeEffect(config, s, rv);
    var inserted := MergeShape(config, s, rv);
    var chosen := Chosen(s.entries, rv);
    ChosenAreSelected(s.entries, rv);
    SurvivorsAreTheRest(config, s, chosen);
    var all := inserted + Survivors(s.entries, IdsOf(chosen));
    forall e | e in Evict(config, all)
      ensures Faithful(e)
    {
      assert e in all;
      if e in inserted { RefreshedIsFaithful(rv, chosen, s.nextId, e); }
    }
  }

  lemma RefreshedIsFaithful(rv: Revalidation, chosen: Entries, firstId: nat, e: CachedResponse)
    requires RefreshedFrom(rv, chosen, firstId, e)
    ensures Faithful(e)
  {
    hide SelfDescribed, DatedBy, VariesBy, CarriesUpdate;
  }

  lemma StepFaithful(config: Config, s: State, op: Op)
    requires WellFormed(config, s) && AllFaithful(s)
    ensures AllFaithful(Step(config, s, op))
  {
    hide WellFormed, MakeCached, Merge, Insert, Looked, EntryInvalidated, AccountedBytes, Filter, Faithful;
    match op
    case Store(_, _, _, _, _, _) =>
      var r := MakeCached(config, op.request, op.status, op.headers, op.body, op.requestWall, op.now, true);
      if r.Some? {
        MadeIsFaithful(config, op.request, op.status, op.headers, op.body, op.requestWall, op.now);
        InsertFaithful(config, s, r.value);
      }
    case LookUp(request) => LookedFollows(s, request);
    case InvalidateUrl(url) =>
    case InvalidateEntry(id) => EntryInvalidatedMembers(config, s, id);
    case Clear =>
    case Merge304(rv) => MergeFaithful(config, s, rv);
  }

  lemma {:induction false} RunFaithful(config: Config, s: State, ops: seq<Op>)
    requires WellFormed(config, s) && AllFaithful(s)
    ensures WellFormed(config, Run(config, s, ops)) && AllFaithful(Run(config, s, ops))
    decreases |ops|
  {
    hide WellFormed, Step, AllFaithful;
    if ops != [] {
      StepFollows(config, s, ops[0]);
      StepFaithful(config, s, ops[0]);
      RunFaithful(config, Step(config, s, ops[0]), ops[1..]);
    }
  }

  const EMPTY := State([], 1)

  lemma EmptyIsSound(config: Config)
    ensures WellFormed(config, EMPTY) && AllFaithful(EMPTY)
  {
  }

  /** The limits hold after every run. */
  lemma LimitsHold(config: Config, ops: seq<Op>)
    ensures var s := Run(config, EMPTY, ops);
            && |s.entries| <= config.maxEntries && Sum(s.entries) <= config.maxBytes
            && forall e :: e in s.entries ==>
                 e.accountedBytes <= config.maxEntryBytes &&
                 e.accountedBytes == if TotalBytes(config, e) > config.sizeMax then config.sizeMax
                                     else TotalBytes(config, e)
  {
    EmptyIsSound(config);
    RunFaithful(config, EMPTY, ops);
    hide Run, AllFaithful, TotalBytes, DistinctIds, DistinctVariants, Sum;
  }

  // ---------------------------------------------------------------- when a hit is fresh

  /** An entry may be served without validation: neither side says no-cache, both clocks
      are readable, the age is below the lifetime, which is the max-age of the entry's own
      headers when they have one, and within the max-age of the request. */
  predicate MayServe(e: CachedResponse, request: CacheRequest, now: Now) {
    var own, asked := DirectivesOf(e.headers), DirectivesOf(request.headers);
    var age := CurrentAge(e, now.monotonic);
    && now.wall.Some? && now.monotonic != 0
    && !HasDirective(own, "no-cache") && !HasDirective(asked, "no-cache")
    && age < (if FirstMaxAge(own).Some? then FirstMaxAge(own).value else e.lifetime)
    && (FirstMaxAge(asked).Some? ==> age <= FirstMaxAge(asked).value)
  }

  lemma FreshIsMayServe(e: CachedResponse, request: CacheRequest, now: Now)
    requires SelfDescribed(e)
    ensures Fresh(e, ParseCacheControl(request.headers), now) <==> MayServe(e, request, now)
  {
    var asked := DirectivesOf(request.headers);
    FlagsMeaning(asked);
    FirstOnesCount(asked);
    ControlIs(request.headers);
    hide Get, HasDirective, DirectivesOf, FirstMaxAge, FirstStaleIfError, CurrentAge, ParseCacheControl, ApplyAll;
  }

  lemma FaithfulMatches(e: CachedResponse, url: string, requestHeaders: HeaderList)
    requires Faithful(e)
    ensures Matches(e, url, requestHeaders) <==> e.url == url && AgreesOnVary(e, requestHeaders)
    ensures SelfDescribed(e)
  {
    hide SelfDescribed, VariesBy, AgreesOnVary, Matches;
    var answered :| VariesBy(e, answered);
    MatchesByFields(e, answered, url, requestHeaders);
  }

  lemma LookupOutcome(s: State, request: CacheRequest, now: Now)
    requires forall e :: e in s.entries ==> SelfDescribed(e)
    ensures var look := LookupIn(s, request, now);
            var hit := PlainGet(request) && exists e :: e in s.entries && Matches(e, request.url, request.headers);
            && (look.outcome == Miss <==> !hit)
            && (hit ==>
                  var served := Looked(s, request).entries[0];
                  && served in s.entries && Matches(served, request.url, request.headers)
                  && (look.outcome == FreshHit <==> MayServe(served, request, now))
                  && look.response.Some? && look.response.value.(headers := served.headers) == served
                  && forall name :: GetAll(look.response.value.headers, name) ==
                                    if IEquals(name, "age") then [Decimal(CurrentAge(served, now.monotonic))]
                                    else GetAll(served.headers, name))
  {
    PlainGetExactly(request);
    hide WellFormed, Matches, MayServe, Fresh, SelfDescribed, PlainGet, HeadersWithAge, CurrentAge, Bypassed,
         ParseCacheControl, MoreRecent, GetAll, IEquals, Decimal;
    if LookupAllowed(request) {
      LookupServesNewest(s, request, now);
      var b := Best(s.entries, |s.entries|, MatchesRequest(request));
      if b < |s.entries| {
        var e := s.entries[b];
        FreshIsMayServe(e, request, now);
        forall name
          ensures GetAll(HeadersWithAge(e.headers, CurrentAge(e, now.monotonic)), name) ==
                  if IEquals(name, "age") then [Decimal(CurrentAge(e, now.monotonic))] else GetAll(e.headers, name)
        {
          FieldsWithAge(e.headers, CurrentAge(e, now.monotonic), name);
        }
      }
    }
  }

  /** The outcome of a lookup, exactly, after any run. It is a hit when the request is a
      plain GET and some entry of its URL answered a request that agrees with it on every
      field the entry's Vary lists. A hit is answered without validation if and only if the
      entry served may be served so, read off its headers and the request's; otherwise it is
      to be validated; and everything else is a miss. */
  lemma LookupOutcomeExactly(config: Config, ops: seq<Op>, request: CacheRequest, now: Now)
    ensures var s := Run(config, EMPTY, ops);
            var look := LookupIn(s, request, now);
            var hit := PlainGet(request) &&
                       exists e :: e in s.entries && e.url == request.url && AgreesOnVary(e, request.headers);
            && (look.outcome == Miss <==> !hit)
            && (hit ==>
                  var served := Looked(s, request).entries[0];
                  && served in s.entries && served.url == request.url && AgreesOnVary(served, request.headers)
                  && (look.outcome == FreshHit <==> MayServe(served, request, now))
                  && look.response.Some? && look.response.value.(headers := served.headers) == served
                  && forall name :: GetAll(look.response.value.headers, name) ==
                                    if IEquals(name, "age") then [Decimal(CurrentAge(served, now.monotonic))]
                                    else GetAll(served.headers, name))
  {
    EmptyIsSound(config);
    RunFaithful(config, EMPTY, ops);
    var s := Run(config, EMPTY, ops);
    hide Run, WellFormed, Faithful, Matches, MayServe, SelfDescribed, PlainGet, CurrentAge, GetAll, IEquals, Decimal,
         AgreesOnVary, LookupIn, Looked;
    forall e | e in s.entries
      ensures Matches(e, request.url, request.headers) <==> e.url == request.url && AgreesOnVary(e, request.headers)
      ensures SelfDescribed(e)
    {
      FaithfulMatches(e, request.url, request.headers);
    }
    LookupOutcome(s, request, now);
  }

  /** When a stored response may stand in for an error, read off its own headers: it allows
      it, is not marked must-revalidate or no-cache, and its lifetime has passed by no more
      than the seconds allowed. */
  lemma StaleIfErrorExactly(config: Config, ops: seq<Op>, e: CachedResponse, now: Now)
    requires e in Run(config, EMPTY, ops).entries
    ensures var ds := DirectivesOf(e.headers);
            var age := CurrentAge(e, now.monotonic);
            ServableOnError(e, now) <==>
            && FirstStaleIfError(ds).Some? && !HasDirective(ds, "must-revalidate") && !HasDirective(ds, "no-cache")
            && now.wall.Some? && e.lifetime <= age <= e.lifetime + FirstStaleIfError(ds).value
  {
    EmptyIsSound(config);
    RunFaithful(config, EMPTY, ops);
    hide Run, WellFormed, CurrentAge, HasDirective, FirstStaleIfError, FirstMaxAge, DirectivesOf, Get;
    assert SelfDescribed(e);
  }
}
