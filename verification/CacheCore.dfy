/** The response cache as a value: the recency list and its operations. */
module CacheCore {
  import opened Text
  import opened Headers
  import opened CacheControl
  import opened CachePolicy
  import opened CacheEntries
  import opened Freshness
  import HttpDate

  /** Front of `entries` = most recently used. */
  datatype State = State(entries: seq<CachedResponse>, nextId: nat)

  type Entries = seq<CachedResponse>

  function Sum(es: Entries): nat {
    if es == [] then 0 else es[0].accountedBytes + Sum(es[1..])
  }

  predicate Fits(config: Config, es: Entries) { |es| <= config.maxEntries && Sum(es) <= config.maxBytes }

  predicate DistinctIds(es: Entries) { forall i, j :: 0 <= i < j < |es| ==> es[i].entryId != es[j].entryId }

  predicate DistinctVariants(es: Entries) { forall i, j :: 0 <= i < j < |es| ==> !SameVariant(es[i], es[j]) }

  predicate Admissible(config: Config, nextId: nat, e: CachedResponse) {
    1 <= e.entryId < nextId && e.accountedBytes <= config.maxEntryBytes && e.accountedBytes == AccountedBytes(config, e)
  }

  predicate AllAdmissible(config: Config, nextId: nat, es: Entries) {
    forall i :: 0 <= i < |es| ==> Admissible(config, nextId, es[i])
  }

  /** The cache invariant. */
  predicate WellFormed(config: Config, s: State) {
    && Fits(config, s.entries) && DistinctIds(s.entries) && DistinctVariants(s.entries)
    && AllAdmissible(config, s.nextId, s.entries) && s.nextId >= 1
  }

  // ---------------------------------------------------------------- list operations

  function RemoveAt(es: Entries, k: nat): Entries
    requires k < |es|
  {
    es[..k] + es[k + 1..]
  }

  function Touch(es: Entries, k: nat): Entries
    requires k < |es|
  {
    [es[k]] + es[..k] + es[k + 1..]
  }

  function Filter(es: Entries, keep: CachedResponse -> bool): (r: Entries)
    ensures |r| <= |es|
    ensures forall e :: e in r <==> e in es && keep(e)
  {
    if es == [] then []
    else (if keep(es[0]) then [es[0]] else []) + Filter(es[1..], keep)
  }

  /** Pops least recently used entries until both limits hold. */
  function Evict(config: Config, es: Entries): (r: Entries)
    ensures |r| <= |es| && r == es[..|r|] && Fits(config, r)
    ensures |r| < |es| ==> !Fits(config, es[..|r| + 1])
    decreases |es|
  {
    if Fits(config, es) then es
    else
      var n := |es| - 1;
      var r := Evict(config, es[..n]);
      assert |r| < n ==> es[..n][..|r| + 1] == es[..|r| + 1];
      assert es[..|es|] == es;
      r
  }

  lemma {:induction false} SumAppend(a: Entries, b: Entries)
    ensures Sum(a + b) == Sum(a) + Sum(b)
  {
    if a == [] {
      assert a + b == b;
    } else {
      assert (a + b)[1..] == a[1..] + b;
      SumAppend(a[1..], b);
    }
  }

  lemma SumPrefix(es: Entries, k: nat)
    requires k <= |es|
    ensures Sum(es[..k]) <= Sum(es)
  {
    assert es == es[..k] + es[k..];
    SumAppend(es[..k], es[k..]);
  }

  lemma FitsPrefix(config: Config, es: Entries, k: nat)
    requires k <= |es| && Fits(config, es)
    ensures Fits(config, es[..k])
  {
    SumPrefix(es, k);
  }

  /** Eviction keeps exactly the longest prefix of the recency list that fits. */
  lemma EvictIsLongestPrefix(config: Config, es: Entries, k: nat)
    requires k <= |es|
    ensures Fits(config, es[..k]) <==> k <= |Evict(config, es)|
  {
    hide Fits, Evict;
    var r := Evict(config, es);
    if k <= |r| {
      assert r[..k] == es[..k];
      FitsPrefix(config, r, k);
    } else if Fits(config, es[..k]) {
      assert es[..k][..|r| + 1] == es[..|r| + 1];
      FitsPrefix(config, es[..k], |r| + 1);
    }
  }

  lemma EvictUnique(config: Config, es: Entries, k: nat)
    requires k <= |es| && Fits(config, es[..k]) && (k < |es| ==> !Fits(config, es[..k + 1]))
    ensures Evict(config, es) == es[..k]
  {
    hide Fits, Evict;
    EvictIsLongestPrefix(config, es, k);
    if k < |es| { EvictIsLongestPrefix(config, es, k + 1); }
  }

  lemma EvictBound(config: Config, a: Entries, b: Entries)
    ensures |Evict(config, a + b)| <= |a| + |Evict(config, b)|
  {
    hide Fits, Evict;
    var m := |Evict(config, b)|;
    if m < |b| {
      if Fits(config, a + b[..m + 1]) { SuffixFits(config, a, b[..m + 1]); }
      assert (a + b)[..|a| + m + 1] == a + b[..m + 1];
      EvictIsLongestPrefix(config, a + b, |a| + m + 1);
    }
  }

  /** Evicting the tail early changes nothing. */
  lemma EvictAppend(config: Config, a: Entries, b: Entries)
    ensures Evict(config, a + Evict(config, b)) == Evict(config, a + b)
  {
    hide Fits, Evict;
    var m := |Evict(config, b)|;
    var r := Evict(config, a + b);
    assert a + b[..m] == (a + b)[..|a| + m];
    EvictBound(config, a, b);
    var x := (a + b)[..|a| + m];
    assert x[..|r|] == r;
    if |r| < |x| { assert x[..|r| + 1] == (a + b)[..|r| + 1]; }
    EvictUnique(config, x, |r|);
  }

  lemma SuffixFits(config: Config, a: Entries, b: Entries)
    requires Fits(config, a + b)
    ensures Fits(config, b)
  {
    SumAppend(a, b);
  }

  // ---------------------------------------------------------------- insertion

  function FirstVariant(es: Entries, r: CachedResponse): (k: nat)
    ensures k <= |es|
    ensures k < |es| ==> SameVariant(es[k], r)
    ensures forall i :: 0 <= i < k ==> !SameVariant(es[i], r)
  {
    if es == [] || SameVariant(es[0], r) then 0 else 1 + FirstVariant(es[1..], r)
  }

  datatype Insertion = Insertion(state: State, id: Option<nat>)

  function Replacing(es: Entries, r: CachedResponse): Entries {
    var k := FirstVariant(es, r);
    if k < |es| then RemoveAt(es, k) else es
  }

  predicate Outdated(es: Entries, r: CachedResponse) {
    var k := FirstVariant(es, r);
    k < |es| && MoreRecent(es[k], r)
  }

  function Insert(config: Config, s: State, r: CachedResponse): Insertion {
    if Outdated(s.entries, r) then Insertion(s, None)
    else
      var kept := Evict(config, [r.(entryId := s.nextId)] + Replacing(s.entries, r));
      Insertion(State(kept, s.nextId + 1), if kept == [] then None else Some(s.nextId))
  }

  lemma IdDoesNotChangeSize(config: Config, r: CachedResponse, id: nat)
    ensures AccountedBytes(config, r.(entryId := id)) == AccountedBytes(config, r)
  {
  }

  lemma PrefixWellFormed(config: Config, es: Entries, k: nat, nextId: nat)
    requires k <= |es| && DistinctIds(es) && DistinctVariants(es) && AllAdmissible(config, nextId, es)
    ensures DistinctIds(es[..k]) && DistinctVariants(es[..k]) && AllAdmissible(config, nextId, es[..k])
  {
    hide SameVariant, Admissible;
  }

  lemma ReplacingWellFormed(config: Config, s: State, r: CachedResponse)
    requires WellFormed(config, s)
    ensures var rest := Replacing(s.entries, r);
            && DistinctIds(rest) && DistinctVariants(rest) && AllAdmissible(config, s.nextId, rest)
            && (forall i :: 0 <= i < |rest| ==> !SameVariant(rest[i], r))
            && (forall e :: e in rest ==> e in s.entries)
  {
    hide Admissible, Fits;
    var k := FirstVariant(s.entries, r);
    if k < |s.entries| {
      forall i | 0 <= i < |s.entries| && i != k
        ensures !SameVariant(s.entries[i], r)
      {
        if i > k { assert !SameVariant(s.entries[k], s.entries[i]); }
      }
      hide SameVariant;
    }
  }

  lemma ConsWellFormed(config: Config, r: CachedResponse, rest: Entries, nextId: nat)
    requires nextId >= 1 && DistinctIds(rest) && DistinctVariants(rest) && AllAdmissible(config, nextId, rest)
    requires forall i :: 0 <= i < |rest| ==> !SameVariant(rest[i], r)
    requires r.accountedBytes <= config.maxEntryBytes && r.accountedBytes == AccountedBytes(config, r)
    ensures var all := [r.(entryId := nextId)] + rest;
            DistinctIds(all) && DistinctVariants(all) && AllAdmissible(config, nextId + 1, all)
  {
    hide AccountedBytes;
    IdDoesNotChangeSize(config, r, nextId);
  }

  lemma InsertKeepsInvariant(config: Config, s: State, r: CachedResponse)
    requires WellFormed(config, s)
    requires r.accountedBytes <= config.maxEntryBytes && r.accountedBytes == AccountedBytes(config, r)
    ensures WellFormed(config, Insert(config, s, r).state)
  {
    hide Evict, Replacing, Outdated, AccountedBytes, DistinctIds, DistinctVariants, AllAdmissible, Fits;
    if !Outdated(s.entries, r) {
      var all := [r.(entryId := s.nextId)] + Replacing(s.entries, r);
      ReplacingWellFormed(config, s, r);
      ConsWellFormed(config, r, Replacing(s.entries, r), s.nextId);
      PrefixWellFormed(config, all, |Evict(config, all)|, s.nextId + 1);
    }
  }

  /** Storing never goes back in time: no variant is left with an entry that one it had
      before is more recent than. */
  lemma InsertNeverGoesBack(config: Config, s: State, r: CachedResponse, e: CachedResponse, e': CachedResponse)
    requires WellFormed(config, s) && e in s.entries && e' in Insert(config, s, r).state.entries
    requires SameVariant(e, e')
    ensures !MoreRecent(e, e')
  {
    hide Fits, AllAdmissible, Evict, AccountedBytes;
    var i :| 0 <= i < |s.entries| && s.entries[i] == e;
    if e' in s.entries {
      var j :| 0 <= j < |s.entries| && s.entries[j] == e';
      SameVariantOnce(s.entries, i, j);
    } else {
      var all := [r.(entryId := s.nextId)] + Replacing(s.entries, r);
      assert e' in all;
      assert e' == all[0];
      VariantIsFirst(config, s, r, i);
    }
  }

  lemma VariantIsFirst(config: Config, s: State, r: CachedResponse, i: nat)
    requires WellFormed(config, s) && i < |s.entries| && SameVariant(s.entries[i], r)
    ensures FirstVariant(s.entries, r) == i
  {
    hide Fits, AllAdmissible;
    SameVariantOnce(s.entries, FirstVariant(s.entries, r), i);
  }

  lemma SameVariantOnce(es: Entries, i: nat, j: nat)
    requires DistinctVariants(es) && i < |es| && j < |es| && SameVariant(es[i], es[j])
    ensures i == j
  {
    SameVariantSymmetric(es[i], es[j]);
    hide SameVariant;
  }

  /** A response reported as stored is the most recently used entry. */
  lemma StoredIsInFront(config: Config, s: State, r: CachedResponse)
    ensures var t := Insert(config, s, r);
            && (t.id.Some? ==> t.state.entries != [] && t.state.entries[0] == r.(entryId := t.id.value))
            && (t.id.None? ==> t.state == s || t.state.entries == [])
  {
    hide Evict, Replacing;
  }

  // ---------------------------------------------------------------- selection

  /** Index of the most recent entry that satisfies `p` among the first `n`, the
      frontmost on ties; `|es|` when there is none. */
  function Best(es: Entries, n: nat, p: CachedResponse -> bool): (b: nat)
    requires n <= |es|
    ensures b < n || b == |es|
    ensures b == |es| <==> forall i :: 0 <= i < n ==> !p(es[i])
    ensures b < |es| ==> p(es[b]) && forall i :: 0 <= i < n && p(es[i]) ==> !MoreRecent(es[i], es[b])
    ensures b < |es| ==> forall i :: 0 <= i < b && p(es[i]) ==> MoreRecent(es[b], es[i])
  {
    if n == 0 then |es|
    else
      var b := Best(es, n - 1, p);
      if p(es[n - 1]) && (b == |es| || MoreRecent(es[n - 1], es[b])) then n - 1 else b
  }

  function IdsOf(es: Entries): seq<nat> { seq(|es|, i requires 0 <= i < |es| => es[i].entryId) }

  // ---------------------------------------------------------------- lookup

  datatype Outcome = Miss | FreshHit | NeedsValidation

  datatype Lookup = Lookup(outcome: Outcome, response: Option<CachedResponse>, candidates: seq<nat>)

  function MatchesRequest(request: CacheRequest): CachedResponse -> bool {
    (e: CachedResponse) => Matches(e, request.url, request.headers)
  }

  function LookupResult(es: Entries, request: CacheRequest, now: Now): Lookup {
    var b := Best(es, |es|, MatchesRequest(request));
    if b == |es| then Lookup(Miss, None, [])
    else
      var control := ParseCacheControl(request.headers);
      var e := es[b];
      var delivered := e.(headers := HeadersWithAge(e.headers, CurrentAge(e, now.monotonic)));
      if Fresh(e, control, now) then Lookup(FreshHit, Some(delivered), [])
      else Lookup(NeedsValidation, Some(delivered), IdsOf(Filter(es, MatchesRequest(request))))
  }

  predicate LookupAllowed(request: CacheRequest) {
    var control := ParseCacheControl(request.headers);
    !Bypassed(request, control) && !control.invalid
  }

  function Looked(s: State, request: CacheRequest): State {
    var b := Best(s.entries, |s.entries|, MatchesRequest(request));
    if !LookupAllowed(request) || b == |s.entries| then s else s.(entries := Touch(s.entries, b))
  }

  function LookupIn(s: State, request: CacheRequest, now: Now): Lookup {
    if LookupAllowed(request) then LookupResult(s.entries, request, now) else Lookup(Miss, None, [])
  }

  lemma SumTouch(es: Entries, k: nat)
    requires k < |es|
    ensures Sum(Touch(es, k)) == Sum(es)
  {
    hide Sum;
    var a, x, b := es[..k], [es[k]], es[k + 1..];
    assert es == a + (x + b) && Touch(es, k) == x + (a + b);
    SumAppend(a, x + b);
    SumAppend(x, b);
    SumAppend(x, a + b);
    SumAppend(a, b);
  }

  lemma TouchPermutes(es: Entries, k: nat)
    requires k < |es|
    ensures multiset(Touch(es, k)) == multiset(es)
  {
    assert es == es[..k] + [es[k]] + es[k + 1..];
  }

  lemma LookedKeepsInvariant(config: Config, s: State, request: CacheRequest)
    requires WellFormed(config, s)
    ensures WellFormed(config, Looked(s, request))
    ensures multiset(Looked(s, request).entries) == multiset(s.entries)
  {
    hide Best, Admissible, SameVariant, LookupAllowed;
    var b := Best(s.entries, |s.entries|, MatchesRequest(request));
    if LookupAllowed(request) && b != |s.entries| {
      SumTouch(s.entries, b);
      TouchPermutes(s.entries, b);
      TouchWellFormed(config, s.entries, b, s.nextId);
    }
  }

  lemma SameVariantSymmetric(a: CachedResponse, b: CachedResponse)
    ensures SameVariant(a, b) == SameVariant(b, a)
  {
  }

  lemma TouchWellFormed(config: Config, es: Entries, k: nat, nextId: nat)
    requires k < |es| && DistinctIds(es) && DistinctVariants(es) && AllAdmissible(config, nextId, es)
    ensures DistinctIds(Touch(es, k)) && DistinctVariants(Touch(es, k)) && AllAdmissible(config, nextId, Touch(es, k))
  {
    hide Admissible, SameVariant;
    forall i | 0 <= i < |es| { SameVariantSymmetric(es[k], es[i]); }
  }

  // ---------------------------------------------------------------- removal

  lemma FilterStep(es: Entries, keep: CachedResponse -> bool)
    requires es != []
    ensures Filter(es, keep) == if keep(es[0]) then [es[0]] + Filter(es[1..], keep) else Filter(es[1..], keep)
  {
  }

  lemma {:induction false} FilterSum(es: Entries, keep: CachedResponse -> bool)
    ensures Sum(Filter(es, keep)) <= Sum(es)
  {
    if es != [] {
      FilterSum(es[1..], keep);
      FilterStep(es, keep);
    }
  }

  lemma {:induction false} FilterDistinctIds(es: Entries, keep: CachedResponse -> bool)
    requires DistinctIds(es)
    ensures DistinctIds(Filter(es, keep))
  {
    if es != [] {
      FilterDistinctIds(es[1..], keep);
      FilterStep(es, keep);
      forall e | e in es[1..] ensures e.entryId != es[0].entryId { }
    }
  }

  lemma {:induction false} FilterDistinctVariants(es: Entries, keep: CachedResponse -> bool)
    requires DistinctVariants(es)
    ensures DistinctVariants(Filter(es, keep))
  {
    hide SameVariant;
    if es != [] {
      FilterDistinctVariants(es[1..], keep);
      FilterStep(es, keep);
      forall e | e in es[1..] ensures !SameVariant(es[0], e) { }
    }
  }

  lemma FilterWellFormed(config: Config, es: Entries, keep: CachedResponse -> bool, nextId: nat)
    requires DistinctIds(es) && DistinctVariants(es) && AllAdmissible(config, nextId, es)
    ensures var r := Filter(es, keep);
            DistinctIds(r) && DistinctVariants(r) && AllAdmissible(config, nextId, r) && Sum(r) <= Sum(es)
  {
    FilterDistinctIds(es, keep);
    FilterDistinctVariants(es, keep);
    FilterSum(es, keep);
    hide Admissible, Filter;
    var r := Filter(es, keep);
    forall i | 0 <= i < |r| ensures Admissible(config, nextId, r[i]) { assert r[i] in es; }
  }

  lemma FilterKeepsInvariant(config: Config, s: State, keep: CachedResponse -> bool)
    requires WellFormed(config, s)
    ensures WellFormed(config, s.(entries := Filter(s.entries, keep)))
  {
    FilterWellFormed(config, s.entries, keep, s.nextId);
    hide Filter;
  }

  function IndexOfId(es: Entries, id: nat): (k: nat)
    ensures k <= |es|
    ensures k < |es| ==> es[k].entryId == id
    ensures forall i :: 0 <= i < k ==> es[i].entryId != id
  {
    if es == [] || es[0].entryId == id then 0 else 1 + IndexOfId(es[1..], id)
  }

  function OtherUrl(url: string): CachedResponse -> bool { (e: CachedResponse) => e.url != url }

  function Invalidated(s: State, url: string): State {
    s.(entries := Filter(s.entries, OtherUrl(url)))
  }

  function EntryInvalidated(s: State, id: nat): State {
    var k := IndexOfId(s.entries, id);
    if id == 0 || k == |s.entries| then s else s.(entries := RemoveAt(s.entries, k))
  }

  lemma SumRemoveAt(es: Entries, k: nat)
    requires k < |es|
    ensures Sum(RemoveAt(es, k)) + es[k].accountedBytes == Sum(es)
  {
    hide Sum;
    var a, x, b := es[..k], [es[k]], es[k + 1..];
    assert es == a + (x + b);
    SumAppend(a, x + b);
    SumAppend(x, b);
    SumAppend(a, b);
    SumOne(es[k]);
  }

  lemma SumOne(e: CachedResponse)
    ensures Sum([e]) == e.accountedBytes
  {
  }

  lemma EntryInvalidatedKeepsInvariant(config: Config, s: State, id: nat)
    requires WellFormed(config, s)
    ensures WellFormed(config, EntryInvalidated(s, id))
  {
    hide Admissible, SameVariant, IndexOfId;
    var k := IndexOfId(s.entries, id);
    if id != 0 && k < |s.entries| {
      SumRemoveAt(s.entries, k);
    }
  }

  /** Exactly the entry with that generation id goes. */
  lemma EntryInvalidatedMembers(config: Config, s: State, id: nat)
    requires WellFormed(config, s)
    ensures forall e :: e in EntryInvalidated(s, id).entries <==> e in s.entries && e.entryId != id
  {
    var k := IndexOfId(s.entries, id);
    ZeroIsNoId(config, s);
    if id != 0 && k < |s.entries| { RemovalMembers(s.entries, k); }
    hide WellFormed, RemoveAt, IndexOfId;
    if k == |s.entries| {
      forall e | e in s.entries ensures e.entryId != id {
        var i :| 0 <= i < |s.entries| && s.entries[i] == e;
      }
    }
  }

  lemma RemovalMembers(es: Entries, k: nat)
    requires k < |es| && DistinctIds(es)
    ensures forall e :: e in RemoveAt(es, k) <==> e in es && e.entryId != es[k].entryId
  {
    forall e | e in es && e.entryId != es[k].entryId
      ensures e in RemoveAt(es, k)
    {
      var i :| 0 <= i < |es| && es[i] == e;
      assert RemoveAt(es, k)[if i < k then i else i - 1] == e;
    }
  }

  lemma ZeroIsNoId(config: Config, s: State)
    requires WellFormed(config, s)
    ensures forall e :: e in s.entries ==> e.entryId != 0
  {
  }

  // ---------------------------------------------------------------- 304 handling

  /** Everything `merge_304` receives: the response that was being validated, the
      request, the fields of the 304, and the candidates recorded at lookup. */
  datatype Revalidation = Revalidation(
    stored: CachedResponse, request: CacheRequest, headers: HeaderList, requestWall: Option<nat>,
    snapshot: seq<nat>, sentIms: bool, now: Now)
  {
    predicate HasEtag() { Has(headers, "etag") }

    predicate HasLastModified() { Has(headers, "last-modified") }

    predicate DeliveryOnlyIms() {
      !HasEtag() && !HasLastModified() && sentIms && stored.etag.None? && stored.lastModified.Some?
    }

    function Candidates(): seq<nat> { if snapshot == [] then [stored.entryId] else snapshot }

    /** The validators of the 304 pick out `e`. */
    predicate ValidatorMatches(e: CachedResponse) {
      if HasEtag() then e.etag.Some? && TagSelects(e.etag.value, Get(headers, "etag"))
      else if HasLastModified() then e.lastModified.Some? && e.lastModified.value == Get(headers, "last-modified")
      else e.etag.None? && e.lastModified.None?
    }

    /** The 304 can be an answer about `stored` at all. */
    predicate Applicable() {
      && Matches(stored, request.url, request.headers)
      && (if HasEtag() || HasLastModified() then ValidatorMatches(stored)
          else (stored.etag.None? && stored.lastModified.None?) || DeliveryOnlyIms())
    }

    function ValidationHeaders(): HeaderList {
      if !Has(headers, "date") && now.wall.Some?
      then headers + [Header("date", HttpDate.FormatHttpDate(now.wall.value))] else headers
    }

    function Updated(e: CachedResponse): HeaderList {
      MergedHeaders(HeadersForRevalidation(e.headers), ValidationHeaders())
    }

    function Delivery(config: Config): (r: Option<CachedResponse>)
      ensures r.Some? ==> r.value.body == stored.body && r.value.url == request.url
      ensures r.Some? ==> r.value.headers == Updated(stored)
    {
      MakeCached(config, request, stored.status, Updated(stored), stored.body, requestWall, now, false)
    }

    function Refreshed(config: Config, e: CachedResponse): (r: Option<CachedResponse>)
      ensures r.Some? ==> r.value.body == e.body && r.value.url == request.url
      ensures r.Some? ==> r.value.accountedBytes <= config.maxEntryBytes
      ensures r.Some? ==> r.value.accountedBytes == AccountedBytes(config, r.value)
      ensures r.Some? ==> r.value.headers == Updated(e)
    {
      if now.wall.Some? && now.monotonic != 0
      then MakeCached(config, request, e.status, Updated(e), e.body, requestWall, now, true) else None
    }

    function Selects(): CachedResponse -> bool {
      (e: CachedResponse) => e.entryId in Candidates() && ValidatorMatches(e)
    }

    /** Weak validators identify only the newest match (section 4.3.4 of RFC 9111). */
    predicate SelectsOne() {
      var tag := ParseEntityTag(Get(headers, "etag"));
      if HasEtag() then tag.Some? && tag.value.weak else HasLastModified()
    }
  }

  /** Values of one field after a 304, given the stored fields (section 3.2 of RFC 9111): a
      field the 304 carries has the 304's values, Content-Length excepted; Age is gone; Date
      is the 304's or the time it arrived; every other field stays. */
  function FieldAfter(rv: Revalidation, stored: HeaderList, name: string): seq<string> {
    if IEquals(name, "content-length") then GetAll(stored, name)
    else if Has(rv.headers, name) then GetAll(rv.headers, name)
    else if IEquals(name, "age") then []
    else if IEquals(name, "date") then
      if rv.now.wall.Some? then [HttpDate.FormatHttpDate(rv.now.wall.value)] else []
    else GetAll(stored, name)
  }

  ghost predicate CarriesUpdate(rv: Revalidation, stored: HeaderList, result: HeaderList) {
    forall name :: GetAll(result, name) == FieldAfter(rv, stored, name)
  }

  lemma {:induction false} MentionsIsHas(headers: HeaderList, name: string)
    ensures Mentions(headers, name) <==> Has(headers, name)
  {
    hide IEquals;
    if !Mentions(headers, name) {
      UnmentionedIsAbsent(headers, name);
    } else {
      var i :| 0 <= i < |headers| && IEquals(name, headers[i].name);
      MentionedIsPresent(headers, name, i);
    }
  }

  lemma {:induction false} MentionedIsPresent(headers: HeaderList, name: string, i: nat)
    requires i < |headers| && IEquals(name, headers[i].name)
    ensures Has(headers, name)
  {
    hide IEquals;
    SameName(name, headers[i].name, name);
    if i > 0 {
      assert headers[1..][i - 1] == headers[i];
      MentionedIsPresent(headers[1..], name, i - 1);
    }
  }

  lemma NamesApart(name: string)
    ensures IEquals(name, "content-length") ==> !IEquals(name, "age") && !IEquals(name, "date")
    ensures IEquals(name, "age") ==> !IEquals(name, "date")
  {
  }

  lemma ValidationField(rv: Revalidation, name: string)
    ensures GetAll(rv.ValidationHeaders(), name) ==
            if IEquals(name, "date") && !Has(rv.headers, "date") && rv.now.wall.Some?
            then [HttpDate.FormatHttpDate(rv.now.wall.value)] else GetAll(rv.headers, name)
  {
    hide IEquals, HttpDate.FormatHttpDate, GetAll;
    if !Has(rv.headers, "date") && rv.now.wall.Some? {
      var date := Header("date", HttpDate.FormatHttpDate(rv.now.wall.value));
      GetAllAppend(rv.headers, [date], name);
      GetAllOne(date, name);
      SameNameBack(name);
      if IEquals(name, "date") { SameFields(rv.headers, name, "date"); }
    }
  }

  lemma {:induction false} SameFields(headers: HeaderList, a: string, b: string)
    requires IEquals(a, b)
    ensures GetAll(headers, a) == GetAll(headers, b)
  {
    hide IEquals;
    if headers != [] {
      SameName(a, b, headers[0].name);
      SameFields(headers[1..], a, b);
    }
  }

  lemma UpdatedField(rv: Revalidation, e: CachedResponse, name: string)
    ensures GetAll(rv.Updated(e), name) == FieldAfter(rv, e.headers, name)
  {
    hide IEquals, HttpDate.FormatHttpDate, GetAll, Without, MergedHeaders, Mentions, Revalidation.ValidationHeaders;
    var kept := HeadersForRevalidation(e.headers);
    MergedFieldValues(kept, rv.ValidationHeaders(), name);
    MentionsIsHas(rv.ValidationHeaders(), name);
    ValidationField(rv, name);
    GetAllWithout(Without(e.headers, "age"), "date", name);
    GetAllWithout(e.headers, "age", name);
    NamesApart(name);
    if IEquals(name, "date") { SameFields(rv.headers, name, "date"); }
  }

  /** The fields a 304 leaves behind, name by name. */
  lemma UpdatedCarries(rv: Revalidation, e: CachedResponse)
    ensures CarriesUpdate(rv, e.headers, rv.Updated(e))
  {
    hide FieldAfter, Revalidation.Updated, GetAll;
    forall name ensures GetAll(rv.Updated(e), name) == FieldAfter(rv, e.headers, name) { UpdatedField(rv, e, name); }
  }

  datatype Verdict = Reject | DeliverOnly | Update

  /** Without validators in the 304, only a unique initial candidate may be updated. */
  function Judge(es: Entries, rv: Revalidation): Verdict {
    if rv.HasEtag() || rv.HasLastModified() then Update
    else
      var k := IndexOfId(es, rv.stored.entryId);
      if k == |es| || rv.stored.entryId !in rv.Candidates() then Reject
      else if rv.DeliveryOnlyIms() then
        if es[k].etag.Some? || es[k].lastModified != rv.stored.lastModified then Reject else DeliverOnly
      else
        var ambiguous := rv.snapshot == [] &&
          exists i :: 0 <= i < |es| && es[i].entryId != rv.stored.entryId &&
                      Matches(es[i], rv.request.url, rv.request.headers);
        if |rv.Candidates()| != 1 || ambiguous || es[k].etag.Some? || es[k].lastModified.Some? then Reject
        else Update
  }

  /** The entries a 304 replaces. */
  function Chosen(es: Entries, rv: Revalidation): (r: Entries)
    ensures forall e :: e in r ==> e in es && rv.Selects()(e)
  {
    if rv.SelectsOne() then
      var b := Best(es, |es|, rv.Selects());
      if b == |es| then [] else [es[b]]
    else Filter(es, rv.Selects())
  }

  datatype Refresh = Refresh(replaced: nat, response: CachedResponse)

  function Refreshes(config: Config, rv: Revalidation, chosen: Entries): seq<Refresh> {
    if chosen == [] then []
    else
      var r := rv.Refreshed(config, chosen[0]);
      (if r.Some? then [Refresh(chosen[0].entryId, r.value)] else []) + Refreshes(config, rv, chosen[1..])
  }

  function NotRemoved(removed: seq<nat>): CachedResponse -> bool { (e: CachedResponse) => e.entryId !in removed }

  function Survivors(es: Entries, removed: seq<nat>): Entries { Filter(es, NotRemoved(removed)) }

  predicate Conflicts(es: Entries, removed: seq<nat>, r: CachedResponse) {
    exists i :: 0 <= i < |es| && es[i].entryId !in removed && SameVariant(es[i], r)
  }

  datatype Merging = Merging(state: State, retained: Option<CachedResponse>)

  /** One refreshed response goes back into the cache unless its variant is taken. */
  function InsertRefresh(config: Config, m: Merging, removed: seq<nat>, storedId: nat, c: Refresh): Merging {
    if Conflicts(m.state.entries, removed, c.response) then m
    else
      var ins := Insert(config, m.state, c.response);
      var k := if ins.id.Some? then IndexOfId(ins.state.entries, ins.id.value) else 0;
      if ins.id.Some? && c.replaced == storedId && k < |ins.state.entries|
      then Merging(ins.state, Some(ins.state.entries[k])) else Merging(ins.state, m.retained)
  }

  function InsertRefreshes(config: Config, m: Merging, removed: seq<nat>, storedId: nat, cs: seq<Refresh>): Merging
    decreases |cs|
  {
    if cs == [] then m
    else InsertRefreshes(config, InsertRefresh(config, m, removed, storedId, cs[0]), removed, storedId, cs[1..])
  }

  datatype MergeResult = MergeResult(delivery: CachedResponse, retained: Option<CachedResponse>)

  datatype Merged = Merged(state: State, result: Option<MergeResult>)

  function UpdateEntries(config: Config, s: State, rv: Revalidation): Merging {
    var chosen := Chosen(s.entries, rv);
    var removed := IdsOf(chosen);
    InsertRefreshes(config, Merging(s.(entries := Survivors(s.entries, removed)), None), removed,
                    rv.stored.entryId, Refreshes(config, rv, chosen))
  }

  function Merge(config: Config, s: State, rv: Revalidation): Merged {
    var delivery := rv.Delivery(config);
    if !rv.Applicable() || delivery.None? then Merged(s, None)
    else
      match Judge(s.entries, rv)
      case Reject => Merged(s, None)
      case DeliverOnly => Merged(s, Some(MergeResult(delivery.value, None)))
      case Update =>
        var m := UpdateEntries(config, s, rv);
        Merged(m.state, Some(MergeResult(delivery.value, m.retained)))
  }

  // ---------------------------------------------------------------- what a 304 does to the cache

  lemma NoVariantToReplace(es: Entries, removed: seq<nat>, r: CachedResponse)
    requires !Conflicts(es, removed, r)
    requires forall e :: e in es ==> e.entryId !in removed
    ensures FirstVariant(es, r) == |es|
  {
    hide SameVariant;
    forall i | 0 <= i < |es| ensures es[i].entryId !in removed { assert es[i] in es; }
  }

  /** State between two insertions of a merge: nothing that was removed is back. */
  predicate Between(config: Config, s: State, removed: seq<nat>) {
    WellFormed(config, s) && (forall e :: e in s.entries ==> e.entryId !in removed) &&
    (forall id :: id in removed ==> id < s.nextId)
  }

  lemma RefreshInserted(config: Config, s: State, removed: seq<nat>, c: Refresh)
    requires Between(config, s, removed) && !Conflicts(s.entries, removed, c.response)
    requires c.response.accountedBytes <= config.maxEntryBytes
    requires c.response.accountedBytes == AccountedBytes(config, c.response)
    ensures var t := Insert(config, s, c.response).state;
            && t.entries == Evict(config, [c.response.(entryId := s.nextId)] + s.entries)
            && t.nextId == s.nextId + 1 && Between(config, t, removed)
  {
    InsertKeepsInvariant(config, s, c.response);
    NoVariantToReplace(s.entries, removed, c.response);
    hide WellFormed, Evict, Conflicts, FirstVariant, AccountedBytes;
    var e := c.response.(entryId := s.nextId);
    var t := Insert(config, s, c.response).state;
    assert t.entries == ([e] + s.entries)[..|t.entries|];
    forall x | x in t.entries ensures x.entryId !in removed {
      assert x in [e] + s.entries;
    }
  }

  predicate AllRefreshesOk(config: Config, cs: seq<Refresh>) {
    forall i :: 0 <= i < |cs| ==>
      cs[i].response.accountedBytes <= config.maxEntryBytes &&
      cs[i].response.accountedBytes == AccountedBytes(config, cs[i].response)
  }

  /** `e` is one of the refreshed responses under a new generation id. */
  predicate IsRefreshOf(cs: seq<Refresh>, firstId: nat, e: CachedResponse) {
    e.entryId >= firstId && exists i :: 0 <= i < |cs| && e == cs[i].response.(entryId := e.entryId)
  }

  /** All insertions of a merge together: a list of refreshed entries in front of what
      was there, cut to the longest prefix that fits. */
  lemma {:induction false} InsertRefreshesShape(
    config: Config, m: Merging, removed: seq<nat>, storedId: nat, cs: seq<Refresh>) returns (inserted: Entries)
    requires Between(config, m.state, removed) && AllRefreshesOk(config, cs)
    ensures var t := InsertRefreshes(config, m, removed, storedId, cs).state;
            && WellFormed(config, t) && t.nextId >= m.state.nextId
            && t.entries == Evict(config, inserted + m.state.entries)
            && (forall e :: e in inserted ==> IsRefreshOf(cs, m.state.nextId, e) && e.entryId < t.nextId)
    decreases |cs|
  {
    hide Insert, Conflicts, WellFormed, Evict, AccountedBytes, IsRefreshOf, InsertRefreshes;
    InsertRefreshesUnfold(config, m, removed, storedId, cs);
    if cs == [] {
      inserted := [];
      assert [] + m.state.entries == m.state.entries;
      WellFormedFits(config, m.state);
    } else {
      var m' := InsertRefresh(config, m, removed, storedId, cs[0]);
      var rest := cs[1..];
      assert forall i :: 0 <= i < |rest| ==> rest[i] == cs[i + 1];
      if Conflicts(m.state.entries, removed, cs[0].response) {
        inserted := InsertRefreshesShape(config, m', removed, storedId, rest);
        LaterRefreshes(cs, inserted, m.state.nextId, m.state.nextId);
      } else {
        RefreshInserted(config, m.state, removed, cs[0]);
        var e := cs[0].response.(entryId := m.state.nextId);
        var later := InsertRefreshesShape(config, m', removed, storedId, rest);
        inserted := later + [e];
        EvictAppend(config, later, [e] + m.state.entries);
        assert later + ([e] + m.state.entries) == inserted + m.state.entries;
        LaterRefreshes(cs, later, m'.state.nextId, m.state.nextId);
        FirstRefresh(cs, m.state.nextId);
      }
    }
  }

  lemma InsertRefreshesUnfold(config: Config, m: Merging, removed: seq<nat>, storedId: nat, cs: seq<Refresh>)
    ensures InsertRefreshes(config, m, removed, storedId, cs) ==
            if cs == [] then m
            else InsertRefreshes(config, InsertRefresh(config, m, removed, storedId, cs[0]), removed, storedId, cs[1..])
  {
    hide InsertRefresh;
  }

  lemma FirstRefresh(cs: seq<Refresh>, firstId: nat)
    requires cs != []
    ensures IsRefreshOf(cs, firstId, cs[0].response.(entryId := firstId))
  {
  }

  lemma WellFormedFits(config: Config, s: State)
    requires WellFormed(config, s)
    ensures Evict(config, s.entries) == s.entries
  {
  }

  lemma LaterRefreshes(cs: seq<Refresh>, es: Entries, firstId: nat, lowId: nat)
    requires cs != [] && lowId <= firstId
    requires forall e :: e in es ==> IsRefreshOf(cs[1..], firstId, e)
    ensures forall e :: e in es ==> IsRefreshOf(cs, lowId, e)
  {
    forall e | e in es
      ensures IsRefreshOf(cs, lowId, e)
    {
      assert IsRefreshOf(cs[1..], firstId, e);
      var i :| 0 <= i < |cs[1..]| && e == cs[1..][i].response.(entryId := e.entryId);
      assert e == cs[i + 1].response.(entryId := e.entryId);
    }
  }

  /** `r` is what the 304 makes of `e`: the same body under the validated URL, the fields
      updated name by name, and metadata that say what those fields say. */
  ghost predicate RefreshOf(rv: Revalidation, e: CachedResponse, r: CachedResponse) {
    && r.url == rv.request.url && r.body == e.body && CarriesUpdate(rv, e.headers, r.headers)
    && r.storedAt == rv.now.monotonic
    && SelfDescribed(r) && DatedBy(r, rv.now.wall) && VariesBy(r, rv.request.headers)
  }

  lemma RefreshIsRefreshOf(config: Config, rv: Revalidation, e: CachedResponse, requireCacheable: bool)
    ensures var r := MakeCached(config, rv.request, e.status, rv.Updated(e), e.body, rv.requestWall, rv.now,
                                requireCacheable);
            r.Some? ==> RefreshOf(rv, e, r.value)
  {
    hide MakeCached, CarriesUpdate, SelfDescribed, DatedBy, VariesBy, Revalidation.Updated;
    UpdatedCarries(rv, e);
    EntryMeaning(config, rv.request, e.status, rv.Updated(e), e.body, rv.requestWall, rv.now, requireCacheable);
  }

  lemma RefreshUnderNewId(rv: Revalidation, e: CachedResponse, r: CachedResponse, id: nat)
    requires RefreshOf(rv, e, r)
    ensures RefreshOf(rv, e, r.(entryId := id))
  {
    hide CarriesUpdate, Get, HasDirective, DirectivesOf, ParsedDate, FirstMaxAge, FirstStaleIfError, ListedIn, GetAll;
    var t := r.(entryId := id);
    assert t.headers == r.headers && t.vary == r.vary;
  }

  /** `c` refreshes one of the `chosen` entries. */
  ghost predicate RefreshesOne(rv: Revalidation, chosen: Entries, c: Refresh) {
    exists i :: 0 <= i < |chosen| && chosen[i].entryId == c.replaced && RefreshOf(rv, chosen[i], c.response)
  }

  lemma RefreshOfFirst(config: Config, rv: Revalidation, chosen: Entries)
    requires chosen != []
    ensures var r := rv.Refreshed(config, chosen[0]);
            r.Some? ==>
              var c := Refresh(chosen[0].entryId, r.value);
              RefreshesOne(rv, chosen, c) && AllRefreshesOk(config, [c])
  {
    hide AccountedBytes, MakeCached, RefreshOf, Revalidation.Updated;
    RefreshIsRefreshOf(config, rv, chosen[0], true);
    var r := rv.Refreshed(config, chosen[0]);
    if r.Some? { assert RefreshOf(rv, chosen[0], r.value); }
  }

  lemma RefreshOfRest(rv: Revalidation, chosen: Entries, c: Refresh)
    requires chosen != [] && RefreshesOne(rv, chosen[1..], c)
    ensures RefreshesOne(rv, chosen, c)
  {
    hide RefreshOf;
    var i :| 0 <= i < |chosen[1..]| && chosen[1..][i].entryId == c.replaced &&
             RefreshOf(rv, chosen[1..][i], c.response);
    assert chosen[i + 1] == chosen[1..][i];
  }

  lemma {:induction false} RefreshesComeFromChosen(config: Config, rv: Revalidation, chosen: Entries)
    ensures var cs := Refreshes(config, rv, chosen);
            AllRefreshesOk(config, cs) && forall i :: 0 <= i < |cs| ==> RefreshesOne(rv, chosen, cs[i])
  {
    hide AccountedBytes, RefreshesOne, Revalidation.Refreshed;
    if chosen != [] {
      RefreshesComeFromChosen(config, rv, chosen[1..]);
      var cs, rest := Refreshes(config, rv, chosen), Refreshes(config, rv, chosen[1..]);
      var r := rv.Refreshed(config, chosen[0]);
      if r.Some? { RefreshOfFirst(config, rv, chosen); }
      var shift := if r.Some? then 1 else 0;
      assert |cs| == |rest| + shift && forall i :: shift <= i < |cs| ==> cs[i] == rest[i - shift];
      forall i | shift <= i < |cs|
        ensures RefreshesOne(rv, chosen, cs[i])
      {
        RefreshOfRest(rv, chosen, rest[i - shift]);
      }
    }
  }
}
