/** What a cache entry says about the response it was made from, read off the headers
    themselves, and exactly which responses become entries. */
module CacheEntries {
  import opened Text
  import opened Headers
  import opened CacheControl
  import opened CachePolicy
  import HttpDate

  // ---------------------------------------------------------------- Vary

  /** The comma-separated members of all fields, in order. */
  function Members(fields: seq<string>): seq<string> {
    if fields == [] then [] else SplitList(Plain, fields[0]) + Members(fields[1..])
  }

  function VaryMembers(headers: HeaderList): seq<string> { Members(GetAll(headers, "vary")) }

  predicate NamesField(member: string) { TrimOws(member) != "*" && IsFieldName(TrimOws(member)) }

  lemma {:induction false} VaryNamesAppend(v: Vary, a: seq<string>, b: seq<string>)
    ensures AddVaryNames(v, a + b) == AddVaryNames(AddVaryNames(v, a), b)
    decreases |a|
  {
    hide AddVaryName;
    if a == [] {
      assert a + b == b;
    } else {
      assert (a + b)[1..] == a[1..] + b && (a + b)[0] == a[0];
      VaryNamesAppend(AddVaryName(v, a[0]), a[1..], b);
    }
  }

  lemma {:induction false} FieldsAreMembers(v: Vary, fields: seq<string>)
    ensures AddVaryFields(v, fields) == AddVaryNames(v, Members(fields))
    decreases |fields|
  {
    hide AddVaryName, SplitList, AddVaryNames;
    if fields == [] {
      NoNames(v);
    } else {
      var first := SplitList(Plain, fields[0]);
      VaryNamesAppend(v, first, Members(fields[1..]));
      FieldsAreMembers(AddVaryNames(v, first), fields[1..]);
    }
  }

  lemma NoNames(v: Vary)
    ensures AddVaryNames(v, []) == v
  {
  }

  lemma OneName(v: Vary, raw: string)
    ensures var r := AddVaryName(v, raw);
            && (r.star <==> v.star || TrimOws(raw) == "*")
            && (r.valid <==> v.valid && (TrimOws(raw) == "*" || IsFieldName(TrimOws(raw))))
            && (forall n :: n in r.names <==> n in v.names || (NamesField(raw) && n == LowerCase(TrimOws(raw))))
            && (Distinct(v.names) ==> Distinct(r.names))
  {
    hide TrimOws, LowerCase;
  }

  predicate Distinct(names: seq<string>) { forall i, j :: 0 <= i < j < |names| ==> names[i] != names[j] }

  /** Some member names the field `name`. */
  predicate ListedIn(raws: seq<string>, name: string) {
    exists i :: 0 <= i < |raws| && NamesField(raws[i]) && name == LowerCase(TrimOws(raws[i]))
  }

  predicate AllWellFormed(raws: seq<string>) {
    forall i :: 0 <= i < |raws| ==> TrimOws(raws[i]) == "*" || IsFieldName(TrimOws(raws[i]))
  }

  lemma ListedCons(raws: seq<string>, name: string)
    requires raws != []
    ensures ListedIn(raws, name) <==>
            (NamesField(raws[0]) && name == LowerCase(TrimOws(raws[0]))) || ListedIn(raws[1..], name)
  {
    hide NamesField, LowerCase, TrimOws;
    if ListedIn(raws[1..], name) {
      var i :| 0 <= i < |raws[1..]| && NamesField(raws[1..][i]) && name == LowerCase(TrimOws(raws[1..][i]));
      assert raws[i + 1] == raws[1..][i];
    }
    if ListedIn(raws, name) {
      var i :| 0 <= i < |raws| && NamesField(raws[i]) && name == LowerCase(TrimOws(raws[i]));
      assert i > 0 ==> raws[1..][i - 1] == raws[i];
    }
  }

  lemma WellFormedCons(raws: seq<string>)
    requires raws != []
    ensures AllWellFormed(raws) <==>
            (TrimOws(raws[0]) == "*" || IsFieldName(TrimOws(raws[0]))) && AllWellFormed(raws[1..])
  {
    hide TrimOws, IsFieldName;
    assert forall i :: 0 <= i < |raws| - 1 ==> raws[1..][i] == raws[i + 1];
    assert forall i :: 0 < i < |raws| ==> raws[i] == raws[1..][i - 1];
  }

  lemma {:induction false} NamesMeaning(v: Vary, raws: seq<string>, name: string)
    requires Distinct(v.names)
    ensures var r := AddVaryNames(v, raws);
            && (r.valid <==> v.valid && AllWellFormed(raws))
            && (name in r.names <==> name in v.names || ListedIn(raws, name))
            && Distinct(r.names)
    decreases |raws|
  {
    hide AddVaryName, NamesField, LowerCase, TrimOws, IsFieldName, ListedIn, AllWellFormed, Distinct;
    NothingListed(name);
    if raws != [] {
      OneName(v, raws[0]);
      ListedCons(raws, name);
      WellFormedCons(raws);
      NamesMeaning(AddVaryName(v, raws[0]), raws[1..], name);
    }
  }

  lemma NothingListed(name: string)
    ensures !ListedIn([], name) && AllWellFormed([])
  {
  }

  /** Vary, over all its fields: well-formed exactly when every member is "*" or a field
      name, a star exactly when some member is one, and otherwise the set of the field
      names in lower case, each once. */
  lemma VaryMeaning(headers: HeaderList, name: string)
    ensures var v := ParseVary(headers);
            var members := VaryMembers(headers);
            && (v.valid <==> AllWellFormed(members))
            && (v.star <==> exists i :: 0 <= i < |members| && TrimOws(members[i]) == "*")
            && (name in v.names <==> ListedIn(members, name))
            && Distinct(v.names)
  {
    hide AddVaryNames, AddVaryFields, Members, ListedIn, AllWellFormed, TrimOws, GetAll;
    var none := Vary(true, false, []);
    FieldsAreMembers(none, GetAll(headers, "vary"));
    NamesMeaning(none, VaryMembers(headers), name);
    NamesKeepStar(none, VaryMembers(headers));
  }

  lemma {:induction false} KeysAre(names: seq<string>, headers: HeaderList)
    ensures var keys := VaryKeys(names, headers);
            |keys| == |names| && forall i :: 0 <= i < |keys| ==> keys[i] == VaryKey(names[i], GetAll(headers, names[i]))
  {
    hide GetAll;
    if names != [] {
      KeysAre(names[1..], headers);
      var keys := VaryKeys(names, headers);
      assert forall i :: 0 < i < |keys| ==> keys[i] == VaryKeys(names[1..], headers)[i - 1];
    }
  }

  // ---------------------------------------------------------------- what an entry says of its response

  /** The entry's metadata is what its own headers say. */
  predicate SelfDescribed(r: CachedResponse) {
    var ds := DirectivesOf(r.headers);
    && r.status == 200
    && (r.requiresRevalidation <==> HasDirective(ds, "no-cache"))
    && (r.mustRevalidate <==> HasDirective(ds, "must-revalidate"))
    && r.staleIfError == FirstStaleIfError(ds)
    && (FirstMaxAge(ds).Some? ==> r.lifetime == FirstMaxAge(ds).value)
    && (FirstMaxAge(ds).None? && (Get(r.headers, "expires") == "" || Get(r.headers, "date") == "") ==>
          r.lifetime == 0)
    && r.etag == (if Get(r.headers, "etag") == "" then None else Some(Get(r.headers, "etag")))
    && r.lastModified ==
       (if Get(r.headers, "last-modified") == "" then None else Some(Get(r.headers, "last-modified")))
  }

  /** The dates of the response under the wall clock `wall`: without max-age the lifetime
      is what lies between them, and the date orders entries of one variant. */
  predicate DatedBy(r: CachedResponse, wall: Option<nat>) {
    var date, expires := ParsedDate(Get(r.headers, "date"), wall), ParsedDate(Get(r.headers, "expires"), wall);
    && (FirstMaxAge(DirectivesOf(r.headers)).None? ==>
          r.lifetime == if date.Some? && expires.Some? && expires.value > date.value
                        then expires.value - date.value else 0)
    && (date.Some? ==> r.selectionDate == date.value)
    && (date.None? && wall.Some? ==> r.selectionDate == if wall.value <= 0x7FFF_FFFF_FFFF_FFFF then wall.value
                                                        else 0x7FFF_FFFF_FFFF_FFFF)
  }

  /** The request fields an entry depends on are the ones its Vary names, with the values
      of the request it answered. */
  ghost predicate VariesBy(r: CachedResponse, requestHeaders: HeaderList) {
    && (forall i :: 0 <= i < |r.vary| ==> r.vary[i].requestValues == GetAll(requestHeaders, r.vary[i].name))
    && (forall i, j :: 0 <= i < j < |r.vary| ==> r.vary[i].name != r.vary[j].name)
    && (forall name ::
          ListedIn(VaryMembers(r.headers), name) <==> exists i :: 0 <= i < |r.vary| && r.vary[i].name == name)
  }

  lemma EntryParts(config: Config, request: CacheRequest, headers: HeaderList, body: Bytes,
                   requestWall: Option<nat>, now: Now)
    ensures var r := EntryOf(config, request, headers, body, requestWall, now);
            var control := ParseCacheControl(headers);
            var date := ParsedDate(Get(headers, "date"), now.wall);
            var expires := ParsedDate(Get(headers, "expires"), now.wall);
            var lifetime := Lifetime(control, date, expires);
            && r.status == 200 && r.headers == headers && r.storedAt == now.monotonic
            && r.vary == VaryKeys(ParseVary(headers).names, request.headers)
            && r.requiresRevalidation == control.noCache && r.mustRevalidate == control.mustRevalidate
            && r.staleIfError == control.staleIfError
            && r.lifetime == (if lifetime.Some? then lifetime.value else 0)
            && r.etag == NonEmpty(Get(headers, "etag")) && r.lastModified == NonEmpty(Get(headers, "last-modified"))
            && (date.Some? ==> r.selectionDate == date.value)
            && (date.None? && now.wall.Some? ==>
                  r.selectionDate ==
                  if now.wall.value <= HttpDate.INT64_MAX then now.wall.value else HttpDate.INT64_MAX)
            && r.initialAge == InitialAge(headers, requestWall, now.wall, date)
  {
    hide GetAll, ParseVary, VaryKeys, AccountedBytes, InitialAge, ParsedDate, Get, ParseCacheControl, Lifetime,
         NonEmpty;
  }

  lemma EntryDescribes(config: Config, request: CacheRequest, headers: HeaderList, body: Bytes,
                       requestWall: Option<nat>, now: Now)
    ensures var r := EntryOf(config, request, headers, body, requestWall, now);
            SelfDescribed(r) && DatedBy(r, now.wall)
  {
    var ds := DirectivesOf(headers);
    EntryParts(config, request, headers, body, requestWall, now);
    FlagsMeaning(ds);
    FirstOnesCount(ds);
    ControlIs(headers);
    NoDate(now.wall);
    hide GetAll, Directives, ApplyAll, ParseVary, VaryKeys, EntryOf, ParsedDate, Get, HasDirective, DirectivesOf,
         FirstMaxAge, FirstStaleIfError, ParseCacheControl;
  }

  lemma ControlIs(headers: HeaderList)
    ensures ParseCacheControl(headers) == ApplyAll(DirectivesOf(headers))
  {
  }

  lemma NoDate(wall: Option<nat>)
    ensures ParsedDate("", wall).None?
  {
  }

  lemma NamesVary(r: CachedResponse, names: seq<string>, requestHeaders: HeaderList)
    requires r.vary == VaryKeys(names, requestHeaders) && Distinct(names)
    requires forall name :: name in names <==> ListedIn(VaryMembers(r.headers), name)
    ensures VariesBy(r, requestHeaders)
  {
    hide GetAll, VaryKeys, ListedIn, VaryMembers;
    KeysAre(names, requestHeaders);
    forall name
      ensures name in names <==> exists i :: 0 <= i < |r.vary| && r.vary[i].name == name
    {
      if name in names {
        var i :| 0 <= i < |names| && names[i] == name;
        assert r.vary[i].name == name;
      }
    }
  }

  /** The request agrees with the one the entry answered on every field the entry's own
      Vary lists. */
  ghost predicate AgreesOnVary(r: CachedResponse, requestHeaders: HeaderList) {
    exists answered ::
      VariesBy(r, answered) &&
      forall name :: ListedIn(VaryMembers(r.headers), name) ==> GetAll(requestHeaders, name) == GetAll(answered, name)
  }

  /** Selection by Vary, in terms of the headers alone (section 4.1 of RFC 9111). */
  lemma MatchesByFields(r: CachedResponse, answered: HeaderList, url: string, requestHeaders: HeaderList)
    requires VariesBy(r, answered)
    ensures Matches(r, url, requestHeaders) <==> r.url == url && AgreesOnVary(r, requestHeaders)
  {
    hide ListedIn, VaryMembers, GetAll;
    if VaryMatches(r, requestHeaders) {
      forall name | ListedIn(VaryMembers(r.headers), name)
        ensures GetAll(requestHeaders, name) == GetAll(answered, name)
      {
      }
    }
    forall other |
      VariesBy(r, other) &&
      forall name :: ListedIn(VaryMembers(r.headers), name) ==> GetAll(requestHeaders, name) == GetAll(other, name)
      ensures VaryMatches(r, requestHeaders)
    {
      forall i | 0 <= i < |r.vary|
        ensures GetAll(requestHeaders, r.vary[i].name) == r.vary[i].requestValues
      {
        assert ListedIn(VaryMembers(r.headers), r.vary[i].name);
      }
    }
  }

  /** Entries of one variant answer the same requests. */
  lemma SameVariantSameRequests(a: CachedResponse, b: CachedResponse, url: string, requestHeaders: HeaderList)
    requires SameVariant(a, b)
    ensures Matches(a, url, requestHeaders) <==> Matches(b, url, requestHeaders)
  {
    hide GetAll;
  }

  /** The instant an entry counts as generated at: its Date, else when it was received. */
  function GeneratedAt(r: CachedResponse, wall: nat): int {
    var date := ParsedDate(Get(r.headers, "date"), Some(wall));
    if date.Some? then date.value else if wall <= 0x7FFF_FFFF_FFFF_FFFF then wall else 0x7FFF_FFFF_FFFF_FFFF
  }

  /** More recent means generated later, and of entries generated at the same second the one
      stored later. */
  lemma MoreRecentMeaning(a: CachedResponse, wallA: nat, b: CachedResponse, wallB: nat)
    requires DatedBy(a, Some(wallA)) && DatedBy(b, Some(wallB))
    ensures MoreRecent(a, b) <==>
            GeneratedAt(a, wallA) > GeneratedAt(b, wallB) ||
            (GeneratedAt(a, wallA) == GeneratedAt(b, wallB) && a.storedAt > b.storedAt)
  {
    hide ParsedDate, Get, FirstMaxAge, DirectivesOf;
  }

  lemma {:induction false} HeaderBytesSnoc(headers: HeaderList, h: Header)
    ensures HeaderBytes(headers + [h]) == HeaderBytes(headers) + |h.name| + |h.value|
  {
    if headers == [] {
      assert headers + [h] == [h];
    } else {
      assert (headers + [h])[1..] == headers[1..] + [h];
      HeaderBytesSnoc(headers[1..], h);
    }
  }

  /** The size of an entry counts every byte of its body, URL and headers once. */
  lemma EveryByteCounts(config: Config, r: CachedResponse, more: Bytes, h: Header)
    ensures TotalBytes(config, r) >= config.entryOverhead + |r.url| + |r.body|
    ensures TotalBytes(config, r.(body := r.body + more)) == TotalBytes(config, r) + |more|
    ensures TotalBytes(config, r.(headers := r.headers + [h])) == TotalBytes(config, r) + |h.name| + |h.value|
  {
    HeaderBytesSnoc(r.headers, h);
  }

  lemma EntryVaries(config: Config, request: CacheRequest, headers: HeaderList, body: Bytes,
                    requestWall: Option<nat>, now: Now)
    ensures VariesBy(EntryOf(config, request, headers, body, requestWall, now), request.headers)
  {
    hide EntryOf, GetAll, ParseVary, VaryKeys, ListedIn, VaryMembers, VariesBy, Distinct, ParseCacheControl, Get,
         ParsedDate, Lifetime, NonEmpty;
    EntryParts(config, request, headers, body, requestWall, now);
    var names := ParseVary(headers).names;
    VaryMeaning(headers, "");
    forall name ensures name in names <==> ListedIn(VaryMembers(headers), name) { VaryMeaning(headers, name); }
    NamesVary(EntryOf(config, request, headers, body, requestWall, now), names, request.headers);
  }

  /** What becomes an entry, whether to be stored or only delivered, says exactly what its
      headers say. */
  lemma EntryMeaning(config: Config, request: CacheRequest, status: int, headers: HeaderList, body: Bytes,
                     requestWall: Option<nat>, now: Now, requireCacheable: bool)
    ensures var r := MakeCached(config, request, status, headers, body, requestWall, now, requireCacheable);
            r.Some? ==>
              && r.value.url == request.url && r.value.headers == headers && r.value.body == body
              && r.value.storedAt == now.monotonic
              && r.value.initialAge == InitialAge(headers, requestWall, now.wall,
                                                  ParsedDate(Get(headers, "date"), now.wall))
              && SelfDescribed(r.value) && DatedBy(r.value, now.wall) && VariesBy(r.value, request.headers)
  {
    hide SelfDescribed, DatedBy, VariesBy, Cacheable, InitialAge, Get, ParsedDate, ParseVary, Lifetime, NonEmpty,
         VaryKeys, Bypassed, ParseCacheControl, EntryOf;
    EntryDescribes(config, request, headers, body, requestWall, now);
    EntryVaries(config, request, headers, body, requestWall, now);
    EntryParts(config, request, headers, body, requestWall, now);
  }

  // ---------------------------------------------------------------- exactly what is stored

  /** A request the cache may serve and whose answer it may keep. */
  predicate PlainGet(request: CacheRequest) {
    var ds := DirectivesOf(request.headers);
    && request.verb == "GET" && !request.streaming && !request.hasBody
    && !Has(request.headers, "authorization") && !Has(request.headers, "cookie") && !Has(request.headers, "range")
    && !Has(request.headers, "if-none-match") && !Has(request.headers, "if-modified-since")
    && !Has(request.headers, "if-match") && !Has(request.headers, "if-unmodified-since")
    && !Has(request.headers, "if-range")
    && !HasDirective(ds, "no-store") && forall i :: 0 <= i < |ds| ==> !Malformed(ds[i])
  }

  predicate AgreeingMaxAges(ds: seq<Directive>) {
    forall i, j :: 0 <= i < |ds| && 0 <= j < |ds| && ValidMaxAge(ds[i]) && ValidMaxAge(ds[j]) ==>
      Numeric(ds[i]) == Numeric(ds[j])
  }

  lemma PlainGetExactly(request: CacheRequest)
    ensures var control := ParseCacheControl(request.headers);
            PlainGet(request) <==> !Bypassed(request, control) && !control.invalid
  {
    var ds := DirectivesOf(request.headers);
    FlagsMeaning(ds);
    InvalidMeaning(ds);
    hide GetAll, Directives, ApplyAll, HasDirective, Malformed, Has;
  }

  lemma ConflictExactly(ds: seq<Directive>)
    ensures !ApplyAll(ds).conflictingMaxAge <==> AgreeingMaxAges(ds)
  {
    hide Numeric, ApplyAll, ValidMaxAge;
    MaxAgeMeaning(ds);
  }

  /** Headers that make a response worth keeping. */
  predicate KeepableHeaders(headers: HeaderList, wall: Option<nat>) {
    var ds := DirectivesOf(headers);
    var members := VaryMembers(headers);
    && !HasDirective(ds, "no-store") && AgreeingMaxAges(ds)
    && (forall i :: 0 <= i < |ds| ==> !Malformed(ds[i]))
    && (forall i :: 0 <= i < |members| ==> NamesField(members[i]))
    && (|| Get(headers, "etag") != "" || Get(headers, "last-modified") != ""
        || (!HasDirective(ds, "no-cache") &&
            (FirstMaxAge(ds).Some? ||
             (ParsedDate(Get(headers, "date"), wall).Some? && ParsedDate(Get(headers, "expires"), wall).Some?))))
  }

  lemma KeepableExactly(config: Config, headers: HeaderList, body: Bytes, now: Now)
    ensures Cacheable(config, ParseCacheControl(headers), headers, body, now) <==>
            KeepableHeaders(headers, now.wall) && |body| <= config.maxEntryBytes && now.wall.Some? && now.monotonic != 0
  {
    var ds := DirectivesOf(headers);
    FlagsMeaning(ds);
    InvalidMeaning(ds);
    ConflictExactly(ds);
    FirstOnesCount(ds);
    VaryMeaning(headers, "");
    hide GetAll, Directives, ApplyAll, HasDirective, Malformed, Get, ParseVary, VaryMembers, ParsedDate, FirstMaxAge,
         AgreeingMaxAges, TrimOws, IsFieldName;
  }

  /** Exactly which responses are stored: 200 answers to plain GETs with keepable headers,
      within the entry limit, on readable clocks. */
  lemma AdmissionExactly(config: Config, request: CacheRequest, status: int, headers: HeaderList, body: Bytes,
                         requestWall: Option<nat>, now: Now)
    ensures MakeCached(config, request, status, headers, body, requestWall, now, true).Some? <==>
            && PlainGet(request) && status == 200 && KeepableHeaders(headers, now.wall)
            && now.wall.Some? && now.monotonic != 0 && |body| <= config.maxEntryBytes
            && EntryOf(config, request, headers, body, requestWall, now).accountedBytes <= config.maxEntryBytes
  {
    hide PlainGet, KeepableHeaders, Cacheable, Bypassed, ParseCacheControl, EntryOf;
    PlainGetExactly(request);
    KeepableExactly(config, headers, body, now);
  }

  // ---------------------------------------------------------------- entity tags

  predicate OpaqueTag(text: string) { forall i :: 0 <= i < |text| ==> IsEtagChar(text[i]) }

  function TagText(weak: bool, text: string): string { (if weak then "W/" else "") + "\"" + text + "\"" }

  lemma TagReadsBack(weak: bool, text: string)
    requires OpaqueTag(text)
    ensures ParseEntityTag(TagText(weak, text)) == Some(EntityTag(weak, text))
  {
    hide TrimOws;
    var tag := TagText(weak, text);
    Trimmed(tag);
    var quoted := "\"" + text + "\"";
    if weak {
      assert tag == "W/" + quoted && tag[2..] == quoted;
    } else {
      assert tag == quoted;
    }
    assert quoted[1..|quoted| - 1] == text;
  }

  /** A tag in a 304 selects a stored tag exactly when their texts agree and a strong one
      meets a strong one (sections 8.8.3.2 of RFC 9110 and 4.3.4 of RFC 9111). */
  lemma TagsSelectExactly(storedWeak: bool, stored: string, receivedWeak: bool, received: string)
    requires OpaqueTag(stored) && OpaqueTag(received)
    ensures TagSelects(TagText(storedWeak, stored), TagText(receivedWeak, received)) <==>
            stored == received && (receivedWeak || !storedWeak)
  {
    hide ParseEntityTag, TagText;
    TagReadsBack(storedWeak, stored);
    TagReadsBack(receivedWeak, received);
  }
}
