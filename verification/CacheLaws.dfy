/** Laws of the cache operations that do not go through their definitions: which entries
    stay and in which order, when a 304 is accepted, and what it may replace. */
module CacheLaws {
  import opened Text
  import opened Headers
  import opened CacheControl
  import opened CachePolicy
  import opened CacheEntries
  import opened Freshness
  import opened CacheCore

  // ---------------------------------------------------------------- order

  function OtherVariant(r: CachedResponse): CachedResponse -> bool { (e: CachedResponse) => !SameVariant(e, r) }

  function OtherId(id: nat): CachedResponse -> bool { (e: CachedResponse) => e.entryId != id }

  lemma {:induction false} FilterAll(es: Entries, keep: CachedResponse -> bool)
    requires forall i :: 0 <= i < |es| ==> keep(es[i])
    ensures Filter(es, keep) == es
  {
    hide Filter;
    if es == [] {
      FilterNothing(keep);
    } else {
      FilterStep(es, keep);
      assert forall i :: 0 <= i < |es| - 1 ==> es[1..][i] == es[i + 1];
      FilterAll(es[1..], keep);
    }
  }

  lemma FilterNothing(keep: CachedResponse -> bool)
    ensures Filter([], keep) == []
  {
  }

  /** Dropping the one entry that fails the test. */
  lemma {:induction false} FilterAllButOne(es: Entries, k: nat, keep: CachedResponse -> bool)
    requires k < |es| && !keep(es[k]) && forall i :: 0 <= i < |es| && i != k ==> keep(es[i])
    ensures Filter(es, keep) == RemoveAt(es, k)
  {
    hide Filter;
    FilterStep(es, keep);
    assert forall i :: 0 <= i < |es| - 1 ==> es[1..][i] == es[i + 1];
    if k == 0 {
      FilterAll(es[1..], keep);
    } else {
      FilterAllButOne(es[1..], k - 1, keep);
      assert [es[0]] + RemoveAt(es[1..], k - 1) == RemoveAt(es, k);
    }
  }

  lemma OnlyVariant(es: Entries, k: nat, r: CachedResponse)
    requires DistinctVariants(es) && k < |es| && SameVariant(es[k], r)
    ensures forall i :: 0 <= i < |es| && i != k ==> !SameVariant(es[i], r)
  {
    forall i | 0 <= i < |es| && i != k
      ensures !SameVariant(es[i], r)
    {
      if SameVariant(es[i], r) { SameVariantOnce(es, i, k); }
    }
  }

  /** Storing puts the new generation in front of everything else in its old order, without
      the older response of the same variant, and then evicts; it does nothing when that
      one is more recent. */
  lemma InsertShape(config: Config, s: State, r: CachedResponse)
    requires WellFormed(config, s)
    ensures var t := Insert(config, s, r);
            if exists e :: e in s.entries && SameVariant(e, r) && MoreRecent(e, r) then t.state == s && t.id.None?
            else
              && t.state.entries == Evict(config, [r.(entryId := s.nextId)] + Filter(s.entries, OtherVariant(r)))
              && t.state.nextId == s.nextId + 1
              && t.id == (if t.state.entries == [] then None else Some(s.nextId))
  {
    hide Fits, AllAdmissible, DistinctIds, Evict, Filter, SameVariant, MoreRecent;
    var k := FirstVariant(s.entries, r);
    if k < |s.entries| {
      assert s.entries[k] in s.entries;
      OnlyVariant(s.entries, k, r);
      FilterAllButOne(s.entries, k, OtherVariant(r));
      forall e | e in s.entries && SameVariant(e, r) ensures e == s.entries[k] { }
    } else {
      FilterAll(s.entries, OtherVariant(r));
    }
  }

  lemma TouchKeepsOrder(es: Entries, k: nat)
    requires DistinctIds(es) && k < |es|
    ensures Touch(es, k)[0] == es[k] && Touch(es, k)[1..] == Filter(es, OtherId(es[k].entryId))
  {
    hide Filter, Touch, RemoveAt, DistinctIds;
    OnlyId(es, k);
    FilterAllButOne(es, k, OtherId(es[k].entryId));
    TouchTail(es, k);
  }

  lemma OnlyId(es: Entries, k: nat)
    requires DistinctIds(es) && k < |es|
    ensures forall i :: 0 <= i < |es| && i != k ==> es[i].entryId != es[k].entryId
  {
  }

  lemma TouchTail(es: Entries, k: nat)
    requires k < |es|
    ensures |Touch(es, k)| >= 1 && Touch(es, k)[0] == es[k] && Touch(es, k)[1..] == RemoveAt(es, k)
  {
    var a, b := es[..k], es[k + 1..];
    assert [es[k]] + a + b == [es[k]] + (a + b);
  }

  /** A hit moves the entry it serves to the front and leaves all others in their order. */
  lemma LookupKeepsOrder(config: Config, s: State, request: CacheRequest, now: Now)
    requires WellFormed(config, s)
    ensures LookupIn(s, request, now).outcome != Miss ==>
              var t := Looked(s, request);
              t.entries != [] && t.entries[1..] == Filter(s.entries, OtherId(t.entries[0].entryId))
  {
    hide Fits, AllAdmissible, DistinctVariants, DistinctIds, Filter, Matches, Fresh, HeadersWithAge, CurrentAge, Touch,
         MoreRecent, LookupAllowed, Best, ParseCacheControl;
    var b := Best(s.entries, |s.entries|, MatchesRequest(request));
    if b < |s.entries| {
      TouchKeepsOrder(s.entries, b);
      TouchLength(s.entries, b);
    }
  }

  lemma TouchLength(es: Entries, k: nat)
    requires k < |es|
    ensures |Touch(es, k)| == |es|
  {
  }

  // ---------------------------------------------------------------- when a 304 is accepted

  /** The 304 answers for the response that was being validated: it repeats its validator,
      or it has none, and neither has that response, Last-Modified aside when the request
      asked with If-Modified-Since. */
  predicate AnswersFor(rv: Revalidation) {
    && rv.stored.url == rv.request.url && VaryMatches(rv.stored, rv.request.headers)
    && if Has(rv.headers, "etag") then rv.stored.etag.Some? && TagSelects(rv.stored.etag.value, Get(rv.headers, "etag"))
       else if Has(rv.headers, "last-modified") then rv.stored.lastModified == Some(Get(rv.headers, "last-modified"))
       else rv.stored.etag.None? && (rv.stored.lastModified.None? || rv.sentIms)
  }

  predicate HasValidator(rv: Revalidation) { Has(rv.headers, "etag") || Has(rv.headers, "last-modified") }

  /** The generation that was being validated is still there, as it was. */
  ghost predicate StillThere(es: Entries, rv: Revalidation) {
    exists e :: e in es && e.entryId == rv.stored.entryId && e.etag.None? && e.lastModified == rv.stored.lastModified
  }

  /** Nobody else can be meant by a 304 without validators. */
  ghost predicate Unambiguous(es: Entries, rv: Revalidation) {
    if rv.snapshot == [] then
      forall e :: e in es && e.entryId != rv.stored.entryId ==> !Matches(e, rv.request.url, rv.request.headers)
    else rv.snapshot == [rv.stored.entryId]
  }

  lemma DeliveryExactly(config: Config, rv: Revalidation)
    ensures rv.Delivery(config).Some? <==> PlainGet(rv.request) && rv.stored.status == 200
  {
    hide PlainGet, Bypassed, ParseCacheControl, EntryOf, Revalidation.Updated;
    PlainGetExactly(rv.request);
  }

  lemma IdIndex(es: Entries, id: nat)
    requires DistinctIds(es)
    ensures IndexOfId(es, id) < |es| <==> exists e :: e in es && e.entryId == id
    ensures forall e :: e in es && e.entryId == id ==> IndexOfId(es, id) < |es| && es[IndexOfId(es, id)] == e
  {
    hide IndexOfId;
    var k := IndexOfId(es, id);
    if k < |es| { assert es[k] in es; }
  }

  /** Without validators: refused unless the validated generation is still there as it was;
      with a Last-Modified of its own it is only delivered; otherwise it is updated if
      nobody else can be meant. */
  lemma JudgeWithoutValidator(config: Config, s: State, rv: Revalidation)
    requires WellFormed(config, s) && !HasValidator(rv) && AnswersFor(rv)
    ensures var known := rv.stored.entryId in rv.Candidates() && StillThere(s.entries, rv);
            Judge(s.entries, rv) ==
            if !known then Reject
            else if rv.stored.lastModified.Some? then DeliverOnly
            else if Unambiguous(s.entries, rv) then Update else Reject
  {
    hide Fits, AllAdmissible, DistinctVariants, Has, Matches, IndexOfId;
    var es := s.entries;
    IdIndex(es, rv.stored.entryId);
    var k := IndexOfId(es, rv.stored.entryId);
    if k < |es| { assert es[k] in es; }
    if rv.snapshot == [] {
      assert rv.Candidates() == [rv.stored.entryId];
      AmbiguityIs(es, rv);
    }
  }

  lemma AmbiguityIs(es: Entries, rv: Revalidation)
    requires rv.snapshot == []
    ensures Unambiguous(es, rv) <==>
            !exists i :: 0 <= i < |es| && es[i].entryId != rv.stored.entryId &&
                         Matches(es[i], rv.request.url, rv.request.headers)
  {
    hide Matches;
    forall i | 0 <= i < |es| ensures es[i] in es { }
  }

  /** Exactly when a 304 is accepted: the request is a plain GET, the 304 answers for the
      response validated, and, when it carries no validator, that generation is a candidate
      that is still there and, unless it is only delivered, the only one meant. */
  lemma MergeAcceptsExactly(config: Config, s: State, rv: Revalidation)
    requires WellFormed(config, s)
    ensures Merge(config, s, rv).result.Some? <==>
            && PlainGet(rv.request) && rv.stored.status == 200 && AnswersFor(rv)
            && (HasValidator(rv) ||
                (rv.stored.entryId in rv.Candidates() && StillThere(s.entries, rv) &&
                 (rv.stored.lastModified.Some? || Unambiguous(s.entries, rv))))
  {
    hide WellFormed, PlainGet, UpdateEntries, Revalidation.Delivery, Has, StillThere, Unambiguous, Judge, VaryMatches;
    DeliveryExactly(config, rv);
    if HasValidator(rv) { JudgeWithValidator(s.entries, rv); }
    if !HasValidator(rv) && AnswersFor(rv) { JudgeWithoutValidator(config, s, rv); }
  }

  lemma JudgeWithValidator(es: Entries, rv: Revalidation)
    requires HasValidator(rv)
    ensures Judge(es, rv) == Update
  {
  }

  // ---------------------------------------------------------------- what a 304 may replace

  /** A candidate of the lookup with the validator of the 304, or without any if it has
      none. */
  predicate Meant(rv: Revalidation, e: CachedResponse) {
    && e.entryId in (if rv.snapshot == [] then [rv.stored.entryId] else rv.snapshot)
    && if Has(rv.headers, "etag") then e.etag.Some? && TagSelects(e.etag.value, Get(rv.headers, "etag"))
       else if Has(rv.headers, "last-modified") then e.lastModified == Some(Get(rv.headers, "last-modified"))
       else e.etag.None? && e.lastModified.None?
  }

  /** The 304 identifies by a weak ETag, or by Last-Modified alone. */
  ghost predicate WeakValidator(rv: Revalidation) {
    if Has(rv.headers, "etag") then exists text :: WeakTag(Get(rv.headers, "etag"), text)
    else Has(rv.headers, "last-modified")
  }

  predicate WeakTag(value: string, text: string) { OpaqueTag(text) && value == TagText(true, text) }

  lemma MeantIsSelected(rv: Revalidation, e: CachedResponse)
    ensures rv.Selects()(e) <==> Meant(rv, e)
  {
    hide Has, TagSelects, Get;
  }

  /** A weak validator updates at most one entry, one that no entry meant is more recent
      than, and none only if none is meant. */
  lemma WeakUpdatesNewest(es: Entries, rv: Revalidation)
    requires WeakValidator(rv)
    ensures |Chosen(es, rv)| <= 1
    ensures forall c :: c in Chosen(es, rv) ==> c in es && Meant(rv, c)
    ensures forall e :: e in es && Meant(rv, e) ==> Chosen(es, rv) != [] && !MoreRecent(e, Chosen(es, rv)[0])
  {
    WeakSelectsOne(rv);
    forall e ensures rv.Selects()(e) <==> Meant(rv, e) { MeantIsSelected(rv, e); }
    hide Revalidation.SelectsOne, Revalidation.Selects, Meant, MoreRecent, WeakValidator;
  }

  lemma WeakSelectsOne(rv: Revalidation)
    requires WeakValidator(rv)
    ensures rv.SelectsOne()
  {
    hide Has, ParseEntityTag, TagText;
    if Has(rv.headers, "etag") {
      var text :| WeakTag(Get(rv.headers, "etag"), text);
      TagReadsBack(true, text);
    }
  }

  /** A strong ETag, or no validator at all, updates every entry meant. */
  lemma StrongUpdatesAll(es: Entries, rv: Revalidation, text: string)
    requires Has(rv.headers, "etag") ==> OpaqueTag(text) && Get(rv.headers, "etag") == TagText(false, text)
    requires !Has(rv.headers, "etag") ==> !Has(rv.headers, "last-modified")
    ensures forall e :: e in Chosen(es, rv) <==> e in es && Meant(rv, e)
  {
    if Has(rv.headers, "etag") { TagReadsBack(false, text); }
    assert !rv.SelectsOne();
    forall e ensures rv.Selects()(e) <==> Meant(rv, e) { MeantIsSelected(rv, e); }
    hide Revalidation.SelectsOne, Revalidation.Selects, Meant, TagText, OpaqueTag;
  }

  /** A 304 without validators for a response with Last-Modified changes nothing, and one
      for a response without validators replaces at most that response. */
  lemma WithoutValidatorOnlyItself(config: Config, s: State, rv: Revalidation)
    requires WellFormed(config, s) && !HasValidator(rv)
    ensures var m := Merge(config, s, rv);
            m.state != s ==>
              && rv.stored.etag.None? && rv.stored.lastModified.None?
              && forall e :: e in Chosen(s.entries, rv) ==> e.entryId == rv.stored.entryId
  {
    hide WellFormed, PlainGet, UpdateEntries, Revalidation.Delivery, Has, StillThere, Judge, VaryMatches, Chosen;
    if AnswersFor(rv) {
      JudgeWithoutValidator(config, s, rv);
      assert Unambiguous(s.entries, rv) ==> rv.Candidates() == [rv.stored.entryId];
      forall e | e in Chosen(s.entries, rv) ensures e.entryId in rv.Candidates() { assert rv.Selects()(e); }
    }
  }

  /** Every entry that is replaced and whose update may be stored is refreshed. */
  lemma {:induction false} AllUpdatesAreRefreshes(config: Config, rv: Revalidation, chosen: Entries, i: nat)
    requires i < |chosen| && rv.now.wall.Some? && rv.now.monotonic != 0
    ensures var r := MakeCached(config, rv.request, chosen[i].status, rv.Updated(chosen[i]), chosen[i].body,
                                rv.requestWall, rv.now, true);
            r.Some? ==> Refresh(chosen[i].entryId, r.value) in Refreshes(config, rv, chosen)
  {
    hide MakeCached, Revalidation.Updated;
    if i > 0 {
      assert chosen[1..][i - 1] == chosen[i];
      AllUpdatesAreRefreshes(config, rv, chosen[1..], i - 1);
    }
  }

  /** The copy reported as kept is the refreshed copy of the very response validated. */
  lemma {:induction false} KeptIsARefresh(config: Config, m: Merging, removed: seq<nat>, storedId: nat,
                                          cs: seq<Refresh>)
    ensures var t := InsertRefreshes(config, m, removed, storedId, cs);
            t.retained != m.retained ==>
              t.retained.Some? &&
              exists c :: c in cs && c.replaced == storedId &&
                          t.retained.value == c.response.(entryId := t.retained.value.entryId)
    decreases |cs|
  {
    hide Insert, Conflicts;
    if cs != [] {
      var n := InsertRefresh(config, m, removed, storedId, cs[0]);
      OneRefresh(config, m, removed, storedId, cs[0]);
      KeptIsARefresh(config, n, removed, storedId, cs[1..]);
      InsertRefreshesUnfold(config, m, removed, storedId, cs);
      assert cs[0] in cs && forall c :: c in cs[1..] ==> c in cs;
    }
  }

  lemma OneRefresh(config: Config, m: Merging, removed: seq<nat>, storedId: nat, c: Refresh)
    ensures var t := InsertRefresh(config, m, removed, storedId, c);
            t.retained != m.retained ==>
              t.retained.Some? && c.replaced == storedId &&
              t.retained.value == c.response.(entryId := t.retained.value.entryId)
  {
    hide Evict, Conflicts, Outdated, Replacing;
    StoredIsInFront(config, m.state, c.response);
  }

  /** A refreshed response is stored unless its variant has been taken meanwhile. */
  lemma RefreshGoesIn(config: Config, m: Merging, removed: seq<nat>, storedId: nat, c: Refresh)
    ensures var taken := exists e :: e in m.state.entries && e.entryId !in removed && SameVariant(e, c.response);
            InsertRefresh(config, m, removed, storedId, c).state ==
            if taken then m.state else Insert(config, m.state, c.response).state
  {
    hide Insert, SameVariant;
    forall i | 0 <= i < |m.state.entries| ensures m.state.entries[i] in m.state.entries { }
  }
}
