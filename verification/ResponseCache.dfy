/** The cache object: a recency list, a running byte total and a generation counter,
    all updated in place. */
module ResponseCache {
  import opened Text
  import opened Headers
  import opened CacheControl
  import opened CachePolicy
  import opened Freshness
  import opened CacheCore

  const DEFAULT_MAX_ENTRIES: nat := 128
  const DEFAULT_MAX_BYTES: nat := 32 * 1024 * 1024
  const DEFAULT_MAX_ENTRY_BYTES: nat := 4 * 1024 * 1024

  function Min(a: nat, b: nat): nat { if a <= b then a else b }

  function Normalized(c: Config): Config {
    Config(if c.maxEntries == 0 then DEFAULT_MAX_ENTRIES else c.maxEntries,
           if c.maxBytes == 0 then DEFAULT_MAX_BYTES else c.maxBytes,
           if c.maxEntryBytes == 0 then DEFAULT_MAX_ENTRY_BYTES else c.maxEntryBytes,
           c.entryOverhead, c.sizeMax)
  }

  // ---------------------------------------------------------------- steps of the loops

  lemma FirstVariantIs(es: Entries, r: CachedResponse, k: nat)
    requires k <= |es| && (k < |es| ==> SameVariant(es[k], r))
    requires forall i :: 0 <= i < k ==> !SameVariant(es[i], r)
    ensures FirstVariant(es, r) == k
  {
    hide SameVariant;
  }

  lemma IndexOfIdIs(es: Entries, id: nat, k: nat)
    requires k <= |es| && (k < |es| ==> es[k].entryId == id)
    requires forall i :: 0 <= i < k ==> es[i].entryId != id
    ensures IndexOfId(es, id) == k
  {
  }

  lemma EvictLast(config: Config, es: Entries)
    ensures Fits(config, es) ==> Evict(config, es) == es
    ensures !Fits(config, es) ==> es != [] && Evict(config, es) == Evict(config, es[..|es| - 1])
    ensures es != [] ==> Sum(es) == Sum(es[..|es| - 1]) + es[|es| - 1].accountedBytes
  {
    if es != [] {
      var n := |es| - 1;
      assert es == es[..n] + [es[n]];
      SumAppend(es[..n], [es[n]]);
    }
  }

  lemma FilterAt(es: Entries, k: nat, keep: CachedResponse -> bool)
    requires k < |es|
    ensures keep(es[k]) ==> es[..k] + Filter(es[k..], keep) == es[..k + 1] + Filter(es[k + 1..], keep)
    ensures !keep(es[k]) ==>
              var rest := RemoveAt(es, k);
              rest[..k] == es[..k] && rest[k..] == es[k + 1..] && Filter(es[k..], keep) == Filter(rest[k..], keep)
  {
    hide Filter;
    FilterDrop(es, k, keep);
    if keep(es[k]) {
      var a, x, t := es[..k], [es[k]], Filter(es[k + 1..], keep);
      assert es[..k + 1] == a + x;
      assert a + (x + t) == (a + x) + t;
    } else {
      RemoveAtTail(es, k);
    }
  }

  lemma FilterDrop(es: Entries, k: nat, keep: CachedResponse -> bool)
    requires k < |es|
    ensures Filter(es[k..], keep) ==
            if keep(es[k]) then [es[k]] + Filter(es[k + 1..], keep) else Filter(es[k + 1..], keep)
  {
    hide Filter;
    assert es[k..][0] == es[k] && es[k..][1..] == es[k + 1..];
    FilterStep(es[k..], keep);
  }

  lemma RemoveAtTail(es: Entries, k: nat)
    requires k < |es|
    ensures RemoveAt(es, k)[..k] == es[..k] && RemoveAt(es, k)[k..] == es[k + 1..]
  {
  }

  lemma BestStep(es: Entries, n: nat, p: CachedResponse -> bool)
    requires n < |es|
    ensures var b := Best(es, n, p);
            Best(es, n + 1, p) == if p(es[n]) && (b == |es| || MoreRecent(es[n], es[b])) then n else b
  {
  }

  lemma FilterPrefix(es: Entries, n: nat, p: CachedResponse -> bool)
    requires n < |es|
    ensures Filter(es[..n + 1], p) == Filter(es[..n], p) + if p(es[n]) then [es[n]] else []
  {
    FilterAppend(es[..n], [es[n]], p);
    assert es[..n + 1] == es[..n] + [es[n]];
    assert [es[n]][1..] == [];
  }

  lemma FilterNone(p: CachedResponse -> bool)
    ensures Filter([], p) == []
  {
  }

  lemma {:induction false} FilterAppend(a: Entries, b: Entries, p: CachedResponse -> bool)
    ensures Filter(a + b, p) == Filter(a, p) + Filter(b, p)
  {
    hide Filter;
    if a == [] {
      FilterNone(p);
      assert a + b == b;
    } else {
      assert (a + b)[1..] == a[1..] + b && (a + b)[0] == a[0];
      FilterAppend(a[1..], b, p);
      FilterStep(a, p);
      FilterStep(a + b, p);
      var x, y := Filter(a[1..], p), Filter(b, p);
      assert [a[0]] + (x + y) == ([a[0]] + x) + y;
    }
  }

  class Cache {
    const config: Config
    var entries: seq<CachedResponse>
    var totalBytes: nat
    var nextEntryId: nat

    ghost function Abstract(): State
      reads this
    {
      State(entries, nextEntryId)
    }

    /** The byte total is exact. The last conjunct keeps the size arithmetic of an
        insertion below the saturation point. */
    ghost predicate Valid()
      reads this
    {
      && WellFormed(config, Abstract())
      && totalBytes == Sum(entries)
      && config.maxBytes + config.maxEntryBytes <= config.sizeMax
    }

    constructor (limits: Config)
      requires Normalized(limits).maxBytes + Normalized(limits).maxEntryBytes <= limits.sizeMax
      ensures Valid() && Abstract() == State([], 1) && config == Normalized(limits)
    {
      config := Normalized(limits);
      entries := [];
      totalBytes := 0;
      nextEntryId := 1;
    }

    method EvictLocked(insertedId: nat) returns (retained: bool)
      requires totalBytes == Sum(entries) && DistinctIds(entries)
      requires entries != [] && entries[0].entryId == insertedId
      modifies this`entries, this`totalBytes
      ensures entries == Evict(config, old(entries)) && totalBytes == Sum(entries)
      ensures retained <==> entries != []
    {
      hide Fits, Sum, Evict;
      retained := true;
      ghost var all := entries;
      assert all[..|all|] == all;
      FitsIs(config, entries);
      while |entries| > config.maxEntries || totalBytes > config.maxBytes
        invariant |entries| <= |all| && entries == all[..|entries|]
        invariant totalBytes == Sum(entries)
        invariant Evict(config, entries) == Evict(config, all)
        invariant Fits(config, entries) <==> |entries| <= config.maxEntries && totalBytes <= config.maxBytes
        invariant retained <==> entries != []
        decreases |entries|
      {
        EvictLast(config, entries);
        var n := |entries| - 1;
        var last := entries[n];
        assert last == all[n];
        if last.entryId == insertedId { retained := false; }
        totalBytes := totalBytes - Min(totalBytes, last.accountedBytes);
        entries := entries[..n];
        FitsIs(config, entries);
      }
      EvictLast(config, entries);
    }

    /** Stores `response` as the newest generation of its variant, unless the variant
        already has a more recent one, then evicts from the back. */
    method InsertLocked(response: CachedResponse) returns (id: Option<nat>)
      requires Valid()
      requires response.accountedBytes <= config.maxEntryBytes
      requires response.accountedBytes == AccountedBytes(config, response)
      modifies this
      ensures Valid()
      ensures Abstract() == Insert(config, old(Abstract()), response).state
      ensures id == Insert(config, old(Abstract()), response).id
    {
      hide Fits, SameVariant, AllAdmissible, DistinctVariants, AccountedBytes, Sum, Evict;
      ghost var before := Abstract();
      InsertKeepsInvariant(config, before, response);
      ReplacingWellFormed(config, before, response);
      var k := 0;
      while k < |entries| && !SameVariant(entries[k], response)
        invariant 0 <= k <= |entries|
        invariant forall i :: 0 <= i < k ==> !SameVariant(entries[i], response)
      {
        k := k + 1;
      }
      FirstVariantIs(entries, response, k);
      if k < |entries| {
        if MoreRecent(entries[k], response) { return None; }
        SumRemoveAt(entries, k);
        totalBytes := totalBytes - Min(totalBytes, entries[k].accountedBytes);
        entries := entries[..k] + entries[k + 1..];
      }
      assert entries == Replacing(before.entries, response) && totalBytes == Sum(entries);
      if nextEntryId == 0 { nextEntryId := 1; }
      var insertedId := nextEntryId;
      nextEntryId := nextEntryId + 1;
      ReplacingSum(config, before, response);
      totalBytes := SaturatingAdd(totalBytes, response.accountedBytes, config.sizeMax);
      ConsWellFormed(config, response, entries, insertedId);
      SumCons(response.(entryId := insertedId), entries);
      entries := [response.(entryId := insertedId)] + entries;
      var retained := EvictLocked(insertedId);
      id := if retained then Some(insertedId) else None;
    }

    method Store(request: CacheRequest, status: int, headers: HeaderList, body: Bytes, requestWall: Option<nat>,
                 now: Now)
      returns (stored: bool)
      requires Valid()
      modifies this
      ensures Valid()
      ensures var r := MakeCached(config, request, status, headers, body, requestWall, now, true);
              && (r.None? ==> !stored && Abstract() == old(Abstract()))
              && (r.Some? ==> Abstract() == Insert(config, old(Abstract()), r.value).state &&
                              stored == Insert(config, old(Abstract()), r.value).id.Some?)
    {
      hide MakeCached, Insert, WellFormed, AccountedBytes;
      var r := MakeCached(config, request, status, headers, body, requestWall, now, true);
      if r.None? { return false; }
      var id := InsertLocked(r.value);
      stored := id.Some?;
    }

    /** The most recent entry that matches, and the ids of all that do. */
    method SelectBest(request: CacheRequest) returns (best: nat, candidates: seq<nat>)
      ensures best == Best(entries, |entries|, MatchesRequest(request))
      ensures candidates == IdsOf(Filter(entries, MatchesRequest(request)))
    {
      hide Matches, MoreRecent, Best, Filter, IdsOf;
      best, candidates := |entries|, [];
      ghost var p := MatchesRequest(request);
      IdsOfNone();
      FilterNone(p);
      BestOfNone(entries, p);
      assert entries[..0] == [];
      for i := 0 to |entries|
        invariant best == Best(entries, i, p)
        invariant candidates == IdsOf(Filter(entries[..i], p))
      {
        var e := entries[i];
        BestStep(entries, i, p);
        FilterPrefix(entries, i, p);
        assert p(e) == Matches(e, request.url, request.headers);
        if Matches(e, request.url, request.headers) {
          IdsOfSnoc(Filter(entries[..i], p), e);
          candidates := candidates + [e.entryId];
          if best == |entries| || MoreRecent(e, entries[best]) { best := i; }
        } else {
          assert Filter(entries[..i + 1], p) == Filter(entries[..i], p);
        }
      }
      assert entries[..|entries|] == entries;
    }

    /** Finds the most recent match and moves it to the front. */
    method Lookup(request: CacheRequest, now: Now) returns (look: Lookup)
      requires Valid()
      modifies this`entries
      ensures Valid()
      ensures Abstract() == Looked(old(Abstract()), request)
      ensures look == LookupIn(old(Abstract()), request, now)
    {
      hide WellFormed, Matches, Fresh, HeadersWithAge, CurrentAge, ParseCacheControl, Bypassed, MoreRecent, Sum,
           Best, Filter;
      var control := ParseCacheControl(request.headers);
      if Bypassed(request, control) || control.invalid { return CacheCore.Lookup(Miss, None, []); }
      LookedKeepsInvariant(config, Abstract(), request);
      var best, candidates := SelectBest(request);
      if best == |entries| { return CacheCore.Lookup(Miss, None, []); }
      var e := entries[best];
      SumTouch(entries, best);
      entries := [e] + entries[..best] + entries[best + 1..];
      var delivered := e.(headers := HeadersWithAge(e.headers, CurrentAge(e, now.monotonic)));
      if Fresh(e, control, now) {
        return CacheCore.Lookup(FreshHit, Some(delivered), []);
      }
      return CacheCore.Lookup(NeedsValidation, Some(delivered), candidates);
    }

    method Invalidate(url: string)
      requires Valid()
      modifies this`entries, this`totalBytes
      ensures Valid() && Abstract() == Invalidated(old(Abstract()), url)
    {
      hide WellFormed, Filter, Sum;
      ghost var keep := OtherUrl(url);
      ghost var es := entries;
      FilterKeepsInvariant(config, Abstract(), keep);
      var i := 0;
      assert es[0..] == es;
      while i < |entries|
        invariant 0 <= i <= |entries| && totalBytes == Sum(entries)
        invariant entries[..i] + Filter(entries[i..], keep) == Filter(es, keep)
        decreases |entries| - i
      {
        FilterAt(entries, i, keep);
        if entries[i].url == url {
          SumRemoveAt(entries, i);
          totalBytes := totalBytes - Min(totalBytes, entries[i].accountedBytes);
          entries := entries[..i] + entries[i + 1..];
        } else {
          i := i + 1;
        }
      }
      FilterNone(keep);
      assert entries[i..] == [] && entries[..i] + [] == entries;
    }

    method InvalidateEntry(id: nat) returns (removed: bool)
      requires Valid()
      modifies this`entries, this`totalBytes
      ensures Valid() && Abstract() == EntryInvalidated(old(Abstract()), id)
      ensures removed <==> exists e :: e in old(entries) && e.entryId == id
    {
      hide WellFormed, Sum, IndexOfId;
      ghost var before := Abstract();
      ZeroIsNoId(config, before);
      EntryInvalidatedKeepsInvariant(config, before, id);
      if id == 0 { return false; }
      var k := 0;
      while k < |entries| && entries[k].entryId != id
        invariant 0 <= k <= |entries|
        invariant forall i :: 0 <= i < k ==> entries[i].entryId != id
      {
        k := k + 1;
      }
      IndexOfIdIs(entries, id, k);
      if k == |entries| { return false; }
      SumRemoveAt(entries, k);
      assert entries[k] in old(entries);
      totalBytes := totalBytes - Min(totalBytes, entries[k].accountedBytes);
      entries := entries[..k] + entries[k + 1..];
      return true;
    }

    method Clear()
      requires Valid()
      modifies this`entries, this`totalBytes
      ensures Valid() && Abstract() == old(Abstract()).(entries := [])
    {
      entries := [];
      totalBytes := 0;
    }

    // -------------------------------------------------------------- the steps of merge_304

    /** The entry a weak validator singles out. */
    method FindNewest(rv: Revalidation) returns (newest: nat)
      ensures newest == Best(entries, |entries|, rv.Selects())
    {
      hide Best, Revalidation.ValidatorMatches, MoreRecent;
      ghost var p := rv.Selects();
      newest := |entries|;
      BestOfNone(entries, p);
      for i := 0 to |entries|
        invariant newest == Best(entries, i, p)
      {
        BestStep(entries, i, p);
        assert p(entries[i]) == (entries[i].entryId in rv.Candidates() && rv.ValidatorMatches(entries[i]));
        if entries[i].entryId in rv.Candidates() && rv.ValidatorMatches(entries[i]) {
          if newest == |entries| || MoreRecent(entries[i], entries[newest]) { newest := i; }
        }
      }
    }

    /** The entries the 304 replaces and what becomes of them. */
    method CollectRefreshes(rv: Revalidation) returns (removed: seq<nat>, refreshes: seq<Refresh>)
      ensures removed == IdsOf(Chosen(entries, rv))
      ensures refreshes == Refreshes(config, rv, Chosen(entries, rv))
    {
      hide MakeCached, Best, Filter, Refreshes, IdsOf, Revalidation.ValidatorMatches, Revalidation.SelectsOne,
           Revalidation.Refreshed;
      ghost var p := rv.Selects();
      var selectOne := rv.SelectsOne();
      var newest := |entries|;
      if selectOne { newest := FindNewest(rv); }
      removed, refreshes := [], [];
      ghost var chosen: Entries := [];
      FilterNone(p);
      RefreshesNone(config, rv);
      IdsOfNone();
      assert entries[..0] == [];
      for i := 0 to |entries|
        invariant chosen ==
                  if selectOne then (if newest < i then [entries[newest]] else []) else Filter(entries[..i], p)
        invariant removed == IdsOf(chosen) && refreshes == Refreshes(config, rv, chosen)
      {
        var e := entries[i];
        FilterPrefix(entries, i, p);
        assert p(e) == (e.entryId in rv.Candidates() && rv.ValidatorMatches(e));
        assert selectOne && newest == i ==> p(e);
        if e.entryId in rv.Candidates() && rv.ValidatorMatches(e) && (!selectOne || newest == i) {
          IdsOfSnoc(chosen, e);
          RefreshesSnoc(config, rv, chosen, e);
          removed := removed + [e.entryId];
          var r := rv.Refreshed(config, e);
          if r.Some? { refreshes := refreshes + [Refresh(e.entryId, r.value)]; }
          chosen := chosen + [e];
        } else if !selectOne {
          assert Filter(entries[..i + 1], p) == Filter(entries[..i], p);
        }
      }
      assert entries[..|entries|] == entries;
    }

    method EraseEntries(removed: seq<nat>)
      requires Valid()
      modifies this`entries, this`totalBytes
      ensures Valid() && Abstract() == old(Abstract()).(entries := Survivors(old(entries), removed))
    {
      hide WellFormed, Filter, Sum;
      ghost var keep := NotRemoved(removed);
      ghost var es := entries;
      FilterKeepsInvariant(config, Abstract(), keep);
      var i := 0;
      assert es[0..] == es;
      while i < |entries|
        invariant 0 <= i <= |entries| && totalBytes == Sum(entries)
        invariant entries[..i] + Filter(entries[i..], keep) == Filter(es, keep)
        decreases |entries| - i
      {
        FilterAt(entries, i, keep);
        if entries[i].entryId !in removed {
          i := i + 1;
        } else {
          SumRemoveAt(entries, i);
          totalBytes := totalBytes - Min(totalBytes, entries[i].accountedBytes);
          entries := entries[..i] + entries[i + 1..];
        }
      }
      FilterNone(keep);
      assert entries[i..] == [] && entries[..i] + [] == entries;
    }

    method ConflictsWithNew(removed: seq<nat>, r: CachedResponse) returns (conflict: bool)
      ensures conflict == Conflicts(entries, removed, r)
    {
      hide SameVariant;
      for i := 0 to |entries|
        invariant forall j :: 0 <= j < i ==> !(entries[j].entryId !in removed && SameVariant(entries[j], r))
      {
        if entries[i].entryId !in removed && SameVariant(entries[i], r) { return true; }
      }
      return false;
    }

    method FindEntry(id: nat) returns (k: nat)
      ensures k == IndexOfId(entries, id)
    {
      k := 0;
      while k < |entries| && entries[k].entryId != id
        invariant 0 <= k <= |entries|
        invariant forall i :: 0 <= i < k ==> entries[i].entryId != id
      {
        k := k + 1;
      }
      IndexOfIdIs(entries, id, k);
    }

    method InsertAll(removed: seq<nat>, storedId: nat, refreshes: seq<Refresh>)
      returns (retained: Option<CachedResponse>)
      requires Valid() && AllRefreshesOk(config, refreshes)
      modifies this
      ensures Valid()
      ensures Merging(Abstract(), retained) ==
              InsertRefreshes(config, Merging(old(Abstract()), None), removed, storedId, refreshes)
    {
      hide WellFormed, Insert, Conflicts, AccountedBytes, IndexOfId, Sum;
      retained := None;
      ghost var target := InsertRefreshes(config, Merging(Abstract(), None), removed, storedId, refreshes);
      assert refreshes[0..] == refreshes;
      for i := 0 to |refreshes|
        invariant Valid()
        invariant InsertRefreshes(config, Merging(Abstract(), retained), removed, storedId, refreshes[i..]) == target
      {
        var c := refreshes[i];
        assert refreshes[i..][0] == c && refreshes[i..][1..] == refreshes[i + 1..];
        var conflict := ConflictsWithNew(removed, c.response);
        if !conflict {
          var id := InsertLocked(c.response);
          if id.Some? && c.replaced == storedId {
            var k := FindEntry(id.value);
            if k < |entries| { retained := Some(entries[k]); }
          }
        }
      }
      assert refreshes[|refreshes|..] == [];
    }

    /** Applies a 304 to the cache and builds the response to deliver. */
    method Merge304(rv: Revalidation) returns (result: Option<MergeResult>)
      requires Valid()
      modifies this
      ensures Valid()
      ensures Abstract() == Merge(config, old(Abstract()), rv).state
      ensures result == Merge(config, old(Abstract()), rv).result
    {
      hide WellFormed, MakeCached, Revalidation.Applicable, Revalidation.Delivery, Judge, Refreshes, Chosen, IdsOf,
           Survivors, InsertRefreshes, AccountedBytes, Sum;
      if !rv.Applicable() { return None; }
      var delivery := rv.Delivery(config);
      if delivery.None? { return None; }
      match Judge(entries, rv) {
        case Reject => return None;
        case DeliverOnly => return Some(MergeResult(delivery.value, None));
        case Update =>
          RefreshesComeFromChosen(config, rv, Chosen(entries, rv));
          var removed, refreshes := CollectRefreshes(rv);
          EraseEntries(removed);
          var retained := InsertAll(removed, rv.stored.entryId, refreshes);
          return Some(MergeResult(delivery.value, retained));
      }
    }
  }

  lemma BestOfNone(es: Entries, p: CachedResponse -> bool)
    ensures Best(es, 0, p) == |es|
  {
  }

  lemma IdsOfNone()
    ensures IdsOf([]) == []
  {
  }

  lemma IdsOfSnoc(es: Entries, e: CachedResponse)
    ensures IdsOf(es + [e]) == IdsOf(es) + [e.entryId]
  {
  }

  lemma RefreshesNone(config: Config, rv: Revalidation)
    ensures Refreshes(config, rv, []) == []
  {
  }

  lemma {:induction false} RefreshesSnoc(config: Config, rv: Revalidation, chosen: Entries, e: CachedResponse)
    ensures Refreshes(config, rv, chosen + [e]) ==
            Refreshes(config, rv, chosen) +
            if rv.Refreshed(config, e).Some? then [Refresh(e.entryId, rv.Refreshed(config, e).value)] else []
  {
    hide MakeCached, Revalidation.Refreshed;
    if chosen == [] {
      assert chosen + [e] == [e] && [e][1..] == [];
    } else {
      assert (chosen + [e])[1..] == chosen[1..] + [e];
      RefreshesSnoc(config, rv, chosen[1..], e);
    }
  }

  lemma FitsIs(config: Config, es: Entries)
    ensures Fits(config, es) <==> |es| <= config.maxEntries && Sum(es) <= config.maxBytes
  {
  }

  lemma SumCons(e: CachedResponse, es: Entries)
    ensures Sum([e] + es) == e.accountedBytes + Sum(es)
  {
    assert ([e] + es)[1..] == es;
  }

  lemma ReplacingSum(config: Config, s: State, r: CachedResponse)
    requires WellFormed(config, s)
    ensures Sum(Replacing(s.entries, r)) <= config.maxBytes
  {
    hide DistinctIds, DistinctVariants, AllAdmissible, SameVariant;
    var k := FirstVariant(s.entries, r);
    if k < |s.entries| { SumRemoveAt(s.entries, k); }
  }

  /** Why construction asks for headroom: the byte total stays exact across one
      insertion if and only if the sum is representable. */
  lemma AccountingExactIff(config: Config, es: Entries, r: CachedResponse)
    requires Sum(es) <= config.sizeMax
    ensures SaturatingAdd(Sum(es), r.accountedBytes, config.sizeMax) == Sum([r] + es) <==>
            Sum(es) + r.accountedBytes <= config.sizeMax
  {
    SumCons(r, es);
  }
}
