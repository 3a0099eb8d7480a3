/** Which responses the cache may hold, what an entry records about them, and how
    its age and freshness are computed (sections 4.2 and 4.3 of RFC 9111). */
module CachePolicy {
  import opened Text
  import opened Headers
  import opened CacheControl
  import HttpDate

  type Bytes = seq<bv8>

  datatype VaryKey = VaryKey(name: string, requestValues: seq<string>)

  datatype CachedResponse = CachedResponse(
    url: string, status: int, headers: HeaderList, body: Bytes, vary: seq<VaryKey>,
    entryId: nat, selectionDate: int, storedAt: nat, initialAge: nat, lifetime: nat,
    etag: Option<string>, lastModified: Option<string>,
    requiresRevalidation: bool, mustRevalidate: bool, staleIfError: Option<nat>, accountedBytes: nat)

  datatype CacheRequest = CacheRequest(verb: string, url: string, headers: HeaderList, streaming: bool, hasBody: bool)

  /** `entryOverhead` stands for the size of the entry record itself, `sizeMax` for
      the largest value of the machine's size type. */
  datatype Config = Config(maxEntries: nat, maxBytes: nat, maxEntryBytes: nat, entryOverhead: nat, sizeMax: nat)

  /** Readings of the two clocks: wall seconds when available, monotonic
      nanoseconds with 0 for a failed reading. */
  datatype Now = Now(wall: Option<nat>, monotonic: nat)

  const NANOSECONDS_PER_SECOND: nat := 1_000_000_000

  function SaturatingAdd(a: nat, b: nat, max: nat): (r: nat)
    requires a <= max
  {
    if b > max - a then max else a + b
  }

  function Capped(n: nat, max: nat): nat { if n <= max then n else max }

  function Add64(a: nat, b: nat): nat { SaturatingAdd(Capped(a, UINT64_MAX), b, UINT64_MAX) }

  // ---------------------------------------------------------------- requests

  predicate Conditional(headers: HeaderList) {
    Has(headers, "if-none-match") || Has(headers, "if-modified-since") || Has(headers, "if-match") ||
    Has(headers, "if-unmodified-since") || Has(headers, "if-range")
  }

  predicate Bypassed(request: CacheRequest, control: Control) {
    || request.verb != "GET" || request.streaming || request.hasBody || control.noStore
    || Has(request.headers, "authorization") || Has(request.headers, "cookie")
    || Conditional(request.headers) || Has(request.headers, "range")
  }

  // ---------------------------------------------------------------- Vary

  predicate IsTokenChar(c: char) {
    IsAlpha(c) || IsDigit(c) || c in "!#$%&'*+-.^_`|~"
  }

  predicate IsFieldName(name: string) { name != [] && forall i :: 0 <= i < |name| ==> IsTokenChar(name[i]) }

  function LowerCase(s: string): string { seq(|s|, i requires 0 <= i < |s| => Lower(s[i])) }

  datatype Vary = Vary(valid: bool, star: bool, names: seq<string>)

  function AddVaryName(v: Vary, raw: string): Vary {
    var name := TrimOws(raw);
    if name == [] then v.(valid := false)
    else if name == "*" then v.(star := true)
    else if !IsFieldName(name) then v.(valid := false)
    else if LowerCase(name) in v.names then v
    else v.(names := v.names + [LowerCase(name)])
  }

  function AddVaryNames(v: Vary, raws: seq<string>): Vary
    decreases |raws|
  {
    if raws == [] then v else AddVaryNames(AddVaryName(v, raws[0]), raws[1..])
  }

  function AddVaryFields(v: Vary, fields: seq<string>): Vary
    decreases |fields|
  {
    if fields == [] then v else AddVaryFields(AddVaryNames(v, SplitList(Plain, fields[0])), fields[1..])
  }

  function ParseVary(headers: HeaderList): Vary { AddVaryFields(Vary(true, false, []), GetAll(headers, "vary")) }

  method ReadVary(headers: HeaderList) returns (vary: Vary)
    ensures vary == ParseVary(headers)
  {
    hide AddVaryNames, AddVaryFields, AddVaryName, SplitList, GetAll;
    vary := Vary(true, false, []);
    var fields := GetAll(headers, "vary");
    ghost var target := AddVaryFields(vary, fields);
    assert fields[0..] == fields;
    for i := 0 to |fields|
      invariant AddVaryFields(vary, fields[i..]) == target
    {
      var names := SplitDirectives(fields[i]);
      AddVaryFieldsStep(vary, fields, i);
      ghost var next := AddVaryNames(vary, names);
      assert names[0..] == names;
      for j := 0 to |names|
        invariant AddVaryNames(vary, names[j..]) == next
      {
        AddVaryNamesStep(vary, names, j);
        vary := AddVaryName(vary, names[j]);
      }
      AddVaryNamesStep(vary, names, |names|);
    }
    AddVaryFieldsStep(vary, fields, |fields|);
  }

  lemma AddVaryNamesStep(v: Vary, names: seq<string>, i: nat)
    requires i <= |names|
    ensures AddVaryNames(v, names[i..]) ==
            if i == |names| then v else AddVaryNames(AddVaryName(v, names[i]), names[i + 1..])
  {
    hide AddVaryName;
    if i < |names| { assert names[i..][1..] == names[i + 1..]; }
  }

  lemma AddVaryFieldsStep(v: Vary, fields: seq<string>, i: nat)
    requires i <= |fields|
    ensures AddVaryFields(v, fields[i..]) ==
            if i == |fields| then v
            else AddVaryFields(AddVaryNames(v, SplitList(Plain, fields[i])), fields[i + 1..])
  {
    hide AddVaryNames, SplitList;
    if i < |fields| { assert fields[i..][1..] == fields[i + 1..]; }
  }

  predicate VaryMatches(cached: CachedResponse, requestHeaders: HeaderList) {
    forall i :: 0 <= i < |cached.vary| ==>
      GetAll(requestHeaders, cached.vary[i].name) == cached.vary[i].requestValues
  }

  predicate Matches(entry: CachedResponse, url: string, requestHeaders: HeaderList) {
    entry.url == url && VaryMatches(entry, requestHeaders)
  }

  predicate SameVariant(a: CachedResponse, b: CachedResponse) { a.url == b.url && a.vary == b.vary }

  predicate MoreRecent(a: CachedResponse, b: CachedResponse) {
    if a.selectionDate != b.selectionDate then a.selectionDate > b.selectionDate else a.storedAt > b.storedAt
  }

  // ---------------------------------------------------------------- entity tags

  datatype EntityTag = EntityTag(weak: bool, text: string)

  predicate IsEtagChar(c: char) { c >= '!' && c != '"' && c != '\U{7F}' }

  function ParseEntityTag(raw: string): Option<EntityTag> {
    var trimmed := TrimOws(raw);
    var weak := |trimmed| >= 2 && trimmed[0] == 'W' && trimmed[1] == '/';
    var value := if weak then trimmed[2..] else trimmed;
    if |value| < 2 || value[0] != '"' || value[|value| - 1] != '"' then None
    else
      var text := value[1..|value| - 1];
      if forall i :: 0 <= i < |text| ==> IsEtagChar(text[i]) then Some(EntityTag(weak, text)) else None
  }

  /** May a 304 that carries `received` update a response stored with `stored`? */
  predicate TagSelects(stored: string, received: string) {
    var s, r := ParseEntityTag(stored), ParseEntityTag(received);
    s.Some? && r.Some? && s.value.text == r.value.text && (r.value.weak || !s.value.weak)
  }

  // ---------------------------------------------------------------- sizes

  function SumLengths(values: seq<string>): nat {
    if values == [] then 0 else |values[0]| + SumLengths(values[1..])
  }

  function HeaderBytes(headers: HeaderList): nat {
    if headers == [] then 0 else |headers[0].name| + |headers[0].value| + HeaderBytes(headers[1..])
  }

  function VaryBytes(vary: seq<VaryKey>): nat {
    if vary == [] then 0 else |vary[0].name| + SumLengths(vary[0].requestValues) + VaryBytes(vary[1..])
  }

  function OptionBytes(s: Option<string>): nat { if s.Some? then |s.value| else 0 }

  function TotalBytes(config: Config, r: CachedResponse): nat {
    config.entryOverhead + |r.url| + |r.body| + HeaderBytes(r.headers) + VaryBytes(r.vary) +
    OptionBytes(r.etag) + OptionBytes(r.lastModified)
  }

  function AccountedBytes(config: Config, r: CachedResponse): nat { Capped(TotalBytes(config, r), config.sizeMax) }

  /** Adding lengths one at a time with a saturating sum. */
  method AddLengths(total: nat, values: seq<string>, sizeMax: nat) returns (r: nat)
    requires total <= sizeMax
    ensures r == Capped(total + SumLengths(values), sizeMax)
  {
    hide SumLengths;
    r := total;
    ghost var all := total + SumLengths(values);
    assert values[0..] == values;
    for i := 0 to |values|
      invariant r <= sizeMax
      invariant Capped(r + SumLengths(values[i..]), sizeMax) == Capped(all, sizeMax)
    {
      SumLengthsStep(values, i);
      r := SaturatingAdd(r, |values[i]|, sizeMax);
    }
    SumLengthsStep(values, |values|);
  }

  lemma SumLengthsStep(values: seq<string>, i: nat)
    requires i <= |values|
    ensures SumLengths(values[i..]) == if i == |values| then 0 else |values[i]| + SumLengths(values[i + 1..])
  {
  }

  lemma HeaderBytesStep(headers: HeaderList, i: nat)
    requires i <= |headers|
    ensures HeaderBytes(headers[i..]) ==
            if i == |headers| then 0 else |headers[i].name| + |headers[i].value| + HeaderBytes(headers[i + 1..])
  {
  }

  lemma VaryBytesStep(vary: seq<VaryKey>, i: nat)
    requires i <= |vary|
    ensures VaryBytes(vary[i..]) ==
            if i == |vary| then 0
            else |vary[i].name| + SumLengths(vary[i].requestValues) + VaryBytes(vary[i + 1..])
  {
  }

  /** The running saturating total comes to the true size, cut off at the largest
      representable one. */
  method CountBytes(config: Config, r: CachedResponse) returns (total: nat)
    requires config.entryOverhead <= config.sizeMax
    ensures total == AccountedBytes(config, r)
  {
    hide SumLengths, HeaderBytes, VaryBytes;
    var max := config.sizeMax;
    total := SaturatingAdd(config.entryOverhead, |r.url|, max);
    total := SaturatingAdd(total, |r.body|, max);
    ghost var start := config.entryOverhead + |r.url| + |r.body|;
    assert r.headers[0..] == r.headers && r.vary[0..] == r.vary;
    for i := 0 to |r.headers|
      invariant total <= max
      invariant Capped(total + HeaderBytes(r.headers[i..]), max) == Capped(start + HeaderBytes(r.headers), max)
    {
      HeaderBytesStep(r.headers, i);
      total := SaturatingAdd(total, |r.headers[i].name|, max);
      total := SaturatingAdd(total, |r.headers[i].value|, max);
    }
    HeaderBytesStep(r.headers, |r.headers|);
    start := start + HeaderBytes(r.headers);
    for i := 0 to |r.vary|
      invariant total <= max
      invariant Capped(total + VaryBytes(r.vary[i..]), max) == Capped(start + VaryBytes(r.vary), max)
    {
      VaryBytesStep(r.vary, i);
      total := SaturatingAdd(total, |r.vary[i].name|, max);
      total := AddLengths(total, r.vary[i].requestValues, max);
    }
    VaryBytesStep(r.vary, |r.vary|);
    if r.etag.Some? { total := SaturatingAdd(total, |r.etag.value|, max); }
    if r.lastModified.Some? { total := SaturatingAdd(total, |r.lastModified.value|, max); }
  }

  // ---------------------------------------------------------------- header rewriting

  function Without(headers: HeaderList, name: string): HeaderList {
    if headers == [] then []
    else (if IEquals(headers[0].name, name) then [] else [headers[0]]) + Without(headers[1..], name)
  }

  function HeadersWithAge(headers: HeaderList, age: nat): HeaderList {
    Without(headers, "age") + [Header("age", Decimal(age))]
  }

  function HeadersForRevalidation(headers: HeaderList): HeaderList { Without(Without(headers, "age"), "date") }

  method DeliveryHeaders(headers: HeaderList, age: nat) returns (out: HeaderList)
    ensures out == HeadersWithAge(headers, age)
  {
    hide IEquals, Without, Decimal;
    out := [];
    assert headers[0..] == headers;
    for i := 0 to |headers|
      invariant Without(headers, "age") == out + Without(headers[i..], "age")
    {
      WithoutStep(headers, "age", i);
      if !IEquals(headers[i].name, "age") { out := out + [headers[i]]; }
    }
    WithoutStep(headers, "age", |headers|);
    out := out + [Header("age", Decimal(age))];
  }

  predicate Mentions(headers: HeaderList, name: string) {
    exists i :: 0 <= i < |headers| && IEquals(name, headers[i].name)
  }

  /** Stored fields that a validation response leaves in place. */
  function Kept(stored: HeaderList, updated: HeaderList): HeaderList {
    if stored == [] then []
    else
      (if IEquals(stored[0].name, "content-length") || !Mentions(updated, stored[0].name) then [stored[0]] else []) +
      Kept(stored[1..], updated)
  }

  function MergedHeaders(stored: HeaderList, updated: HeaderList): HeaderList {
    Kept(stored, updated) + Without(updated, "content-length")
  }

  method Replaced(name: string, updated: HeaderList) returns (replaced: bool)
    ensures replaced == Mentions(updated, name)
  {
    hide IEquals;
    replaced := false;
    for j := 0 to |updated|
      invariant !replaced && forall k :: 0 <= k < j ==> !IEquals(name, updated[k].name)
    {
      if IEquals(name, updated[j].name) { return true; }
    }
  }

  lemma KeptStep(stored: HeaderList, updated: HeaderList, i: nat)
    requires i <= |stored|
    ensures i == |stored| ==> Kept(stored[i..], updated) == []
    ensures i < |stored| ==>
              Kept(stored[i..], updated) ==
              (if IEquals(stored[i].name, "content-length") || !Mentions(updated, stored[i].name) then [stored[i]]
               else []) + Kept(stored[i + 1..], updated)
  {
    if i < |stored| { assert stored[i..][1..] == stored[i + 1..]; }
  }

  lemma WithoutStep(headers: HeaderList, name: string, i: nat)
    requires i <= |headers|
    ensures i == |headers| ==> Without(headers[i..], name) == []
    ensures i < |headers| ==>
              Without(headers[i..], name) ==
              (if IEquals(headers[i].name, name) then [] else [headers[i]]) + Without(headers[i + 1..], name)
  {
    if i < |headers| { assert headers[i..][1..] == headers[i + 1..]; }
  }

  method MergeHeaders(stored: HeaderList, updated: HeaderList) returns (out: HeaderList)
    ensures out == MergedHeaders(stored, updated)
  {
    hide IEquals, Mentions, Kept, Without;
    out := [];
    assert stored[0..] == stored && updated[0..] == updated;
    for i := 0 to |stored|
      invariant Kept(stored, updated) == out + Kept(stored[i..], updated)
    {
      var h := stored[i];
      KeptStep(stored, updated, i);
      if IEquals(h.name, "content-length") {
        out := out + [h];
      } else {
        var replaced := Replaced(h.name, updated);
        if !replaced { out := out + [h]; }
      }
    }
    KeptStep(stored, updated, |stored|);
    assert out == Kept(stored, updated);
    for i := 0 to |updated|
      invariant MergedHeaders(stored, updated) == out + Without(updated[i..], "content-length")
    {
      WithoutStep(updated, "content-length", i);
      if !IEquals(updated[i].name, "content-length") { out := out + [updated[i]]; }
    }
    WithoutStep(updated, "content-length", |updated|);
  }

  lemma SameName(a: string, b: string, c: string)
    requires IEquals(a, b)
    ensures IEquals(b, a) && (IEquals(a, c) <==> IEquals(b, c)) && (IEquals(c, a) <==> IEquals(c, b))
  {
  }

  lemma MentionsSameName(headers: HeaderList, a: string, b: string)
    requires IEquals(a, b)
    ensures Mentions(headers, a) <==> Mentions(headers, b)
  {
    hide IEquals;
    forall i | 0 <= i < |headers|
      ensures IEquals(a, headers[i].name) <==> IEquals(b, headers[i].name)
    {
      SameName(a, b, headers[i].name);
    }
  }

  lemma {:induction false} GetAllWithout(headers: HeaderList, dropped: string, name: string)
    ensures GetAll(Without(headers, dropped), name) == if IEquals(name, dropped) then [] else GetAll(headers, name)
  {
    hide IEquals;
    if headers != [] {
      var h, rest := headers[0], Without(headers[1..], dropped);
      GetAllWithout(headers[1..], dropped, name);
      if IEquals(h.name, dropped) {
        SameName(h.name, dropped, name);
        if IEquals(h.name, name) { SameName(dropped, name, dropped); }
        assert [] + rest == rest;
      } else {
        if IEquals(h.name, name) { SameName(h.name, name, dropped); }
        GetAllCons(h, rest, name);
      }
    }
  }

  lemma GetAllCons(h: Header, rest: HeaderList, name: string)
    ensures GetAll([h] + rest, name) == (if IEquals(h.name, name) then [h.value] else []) + GetAll(rest, name)
  {
    assert ([h] + rest)[1..] == rest;
  }

  /** Delivered fields: one Age, everything else as stored. */
  lemma FieldsWithAge(headers: HeaderList, age: nat, name: string)
    ensures GetAll(HeadersWithAge(headers, age), name) ==
            if IEquals(name, "age") then [Decimal(age)] else GetAll(headers, name)
  {
    hide IEquals, Decimal, Without, GetAll;
    var field := Header("age", Decimal(age));
    GetAllAppend(Without(headers, "age"), [field], name);
    GetAllWithout(headers, "age", name);
    GetAllOne(field, name);
    if IEquals(name, "age") || IEquals("age", name) { SameNameBack(name); }
  }

  lemma GetAllOne(h: Header, name: string)
    ensures GetAll([h], name) == if IEquals(h.name, name) then [h.value] else []
  {
    assert [h][1..] == [];
  }

  lemma SameNameBack(name: string)
    ensures IEquals("age", name) <==> IEquals(name, "age")
    ensures IEquals("date", name) <==> IEquals(name, "date")
  {
  }

  lemma {:induction false} GetAllKept(stored: HeaderList, updated: HeaderList, name: string)
    ensures GetAll(Kept(stored, updated), name) ==
            if IEquals(name, "content-length") || !Mentions(updated, name) then GetAll(stored, name) else []
  {
    hide IEquals, Mentions;
    if stored != [] {
      var h := stored[0];
      GetAllKept(stored[1..], updated, name);
      if IEquals(h.name, name) {
        SameName(h.name, name, "content-length");
        MentionsSameName(updated, h.name, name);
      }
      var rest := Kept(stored[1..], updated);
      GetAllCons(h, rest, name);
      assert [] + rest == rest;
    }
  }

  /** Section 3.2 of RFC 9111: after a 304, each field the response carried has
      exactly the response's values and every other field the stored ones; the
      stored Content-Length always stays. */
  lemma MergedFieldValues(stored: HeaderList, updated: HeaderList, name: string)
    ensures GetAll(MergedHeaders(stored, updated), name) ==
            if IEquals(name, "content-length") || !Mentions(updated, name) then GetAll(stored, name)
            else GetAll(updated, name)
  {
    hide IEquals, Mentions;
    GetAllAppend(Kept(stored, updated), Without(updated, "content-length"), name);
    GetAllKept(stored, updated, name);
    GetAllWithout(updated, "content-length", name);
    if !Mentions(updated, name) { UnmentionedIsAbsent(updated, name); }
  }

  lemma {:induction false} UnmentionedIsAbsent(headers: HeaderList, name: string)
    requires !Mentions(headers, name)
    ensures GetAll(headers, name) == []
  {
    if headers != [] {
      if IEquals(headers[0].name, name) {
        SameName(headers[0].name, name, name);
        assert false;
      }
      assert forall i :: 0 <= i < |headers| - 1 ==> headers[1..][i] == headers[i + 1];
      UnmentionedIsAbsent(headers[1..], name);
    }
  }

  // ---------------------------------------------------------------- entries

  function MaxAgeOf(values: seq<string>): Option<nat> {
    if values == [] then Some(0)
    else
      var first, rest := DeltaSeconds(values[0]), MaxAgeOf(values[1..]);
      if first.None? || rest.None? then None
      else Some(if first.value > rest.value then first.value else rest.value)
  }

  /** Lifetime from max-age, else from Expires minus Date (section 4.2.1 of RFC 9111). */
  function Lifetime(control: Control, date: Option<int>, expires: Option<int>): Option<nat> {
    if control.maxAge.Some? then control.maxAge
    else if expires.Some? && date.Some? then
      Some(if expires.value > date.value then expires.value - date.value else 0)
    else None
  }

  function ApparentAge(wall: Option<nat>, date: Option<int>): nat {
    if wall.None? || date.None? then 0
    else if date.value <= 0 then Add64(wall.value, -date.value)
    else if date.value < wall.value then wall.value - date.value
    else 0
  }

  /** Age at the time of storing (section 4.2.3 of RFC 9111). */
  function InitialAge(headers: HeaderList, requestWall: Option<nat>, wall: Option<nat>, date: Option<int>): nat {
    var age := MaxAgeOf(GetAll(headers, "age"));
    var delay := if wall.Some? && requestWall.Some? && wall.value >= requestWall.value
                 then wall.value - requestWall.value else 0;
    var corrected := Add64(if age.Some? then age.value else UINT64_MAX, delay);
    var apparent := ApparentAge(wall, date);
    if apparent > corrected then apparent else corrected
  }

  function ParsedDate(value: string, wall: Option<nat>): Option<int> {
    if value == "" then None else HttpDate.ParseHttpDate(value, wall)
  }

  function NonEmpty(value: string): Option<string> { if value == "" then None else Some(value) }

  function VaryKeys(names: seq<string>, headers: HeaderList): seq<VaryKey> {
    if names == [] then [] else [VaryKey(names[0], GetAll(headers, names[0]))] + VaryKeys(names[1..], headers)
  }

  /** The checks that only storing, not delivering, demands. */
  predicate Cacheable(config: Config, control: Control, headers: HeaderList, body: Bytes, now: Now)
  {
    var vary := ParseVary(headers);
    var date, expires := ParsedDate(Get(headers, "date"), now.wall), ParsedDate(Get(headers, "expires"), now.wall);
    var hasValidator := Get(headers, "etag") != "" || Get(headers, "last-modified") != "";
    && |body| <= config.maxEntryBytes && now.monotonic != 0
    && !control.noStore && !control.invalid && !control.conflictingMaxAge
    && vary.valid && !vary.star
    && !(control.noCache && !hasValidator)
    && !(Lifetime(control, date, expires).None? && !control.noCache && !hasValidator)
    && !(Get(headers, "expires") != "" && expires.None? && control.maxAge.None? && !control.noCache && !hasValidator)
    && now.wall.Some?
  }

  function EntryOf(
    config: Config, request: CacheRequest, headers: HeaderList, body: Bytes, requestWall: Option<nat>, now: Now)
    : (r: CachedResponse)
    ensures r.url == request.url && r.body == body && r.status == 200 && r.headers == headers
  {
    var control := ParseCacheControl(headers);
    var date, expires := ParsedDate(Get(headers, "date"), now.wall), ParsedDate(Get(headers, "expires"), now.wall);
    var lifetime := Lifetime(control, date, expires);
    var selection :=
      if date.Some? then date.value
      else if now.wall.Some? then (if now.wall.value <= HttpDate.INT64_MAX then now.wall.value else HttpDate.INT64_MAX)
      else 0;
    var r := CachedResponse(
      request.url, 200, headers, body, VaryKeys(ParseVary(headers).names, request.headers),
      0, selection, now.monotonic, InitialAge(headers, requestWall, now.wall, date),
      if lifetime.Some? then lifetime.value else 0,
      NonEmpty(Get(headers, "etag")), NonEmpty(Get(headers, "last-modified")),
      control.noCache, control.mustRevalidate, control.staleIfError, 0);
    r.(accountedBytes := AccountedBytes(config, r))
  }

  /** The entry a 200 response becomes, or nothing when the request or the response
      keeps it out of the cache. Delivery after a 304 skips the storing checks. */
  function MakeCached(
    config: Config, request: CacheRequest, status: int, headers: HeaderList, body: Bytes,
    requestWall: Option<nat>, now: Now, requireCacheable: bool)
    : (r: Option<CachedResponse>)
    ensures r.Some? ==> r.value.url == request.url && r.value.body == body && r.value.status == 200
    ensures r.Some? && requireCacheable ==> r.value.accountedBytes <= config.maxEntryBytes
    ensures r.Some? ==> r.value.accountedBytes == AccountedBytes(config, r.value)
    ensures r.Some? ==> r.value.headers == headers
  {
    var requestControl := ParseCacheControl(request.headers);
    if Bypassed(request, requestControl) || requestControl.invalid || status != 200 then None
    else if requireCacheable && !Cacheable(config, ParseCacheControl(headers), headers, body, now) then None
    else
      var r := EntryOf(config, request, headers, body, requestWall, now);
      if requireCacheable && r.accountedBytes > config.maxEntryBytes then None else Some(r)
  }

  /** Admission hint before the body arrives. */
  predicate ShouldCapture(request: CacheRequest, status: int, headers: HeaderList)
    ensures ShouldCapture(request, status, headers) ==> status == 200 && request.verb == "GET"
  {
    var requestControl, control := ParseCacheControl(request.headers), ParseCacheControl(headers);
    var vary := ParseVary(headers);
    var hasFreshness := control.maxAge.Some? || (Get(headers, "expires") != "" && Get(headers, "date") != "");
    var hasValidator := Get(headers, "etag") != "" || Get(headers, "last-modified") != "";
    && !Bypassed(request, requestControl) && !requestControl.invalid && status == 200
    && !control.noStore && !control.invalid && !control.conflictingMaxAge
    && vary.valid && !vary.star
    && !(control.noCache && !hasValidator)
    && (hasFreshness || (control.noCache && hasValidator))
  }

  // ---------------------------------------------------------------- what admission promises

  lemma {:induction false} MaxAgeOfBounds(values: seq<string>, i: nat)
    requires i < |values| && MaxAgeOf(values).Some?
    ensures DeltaSeconds(values[i]).Some? && DeltaSeconds(values[i]).value <= MaxAgeOf(values).value
  {
    hide DeltaSeconds;
    if i > 0 {
      assert values[1..][i - 1] == values[i];
      MaxAgeOfBounds(values[1..], i - 1);
    }
  }

  /** The initial age is conservative: at least every Age value plus the response delay,
      and at least the time since the response's own date; with neither it is the delay.
      An unreadable Age field counts as the largest age. */
  lemma InitialAgeIsConservative(headers: HeaderList, requestWall: Option<nat>, wall: nat, date: Option<int>, i: nat)
    requires wall <= UINT64_MAX && (requestWall.Some? ==> requestWall.value <= wall)
    ensures var age := InitialAge(headers, requestWall, Some(wall), date);
            var delay := if requestWall.Some? then wall - requestWall.value else 0;
            var values := GetAll(headers, "age");
            && (i < |values| && DeltaSeconds(values[i]).Some? ==>
                  age >= Capped(DeltaSeconds(values[i]).value + delay, UINT64_MAX))
            && (i < |values| && DeltaSeconds(values[i]).None? ==> age >= UINT64_MAX)
            && (date.Some? && 0 < date.value <= wall ==> age >= wall - date.value)
            && (values == [] && (date.None? || date.value >= wall > 0) ==> age == delay)
  {
    hide DeltaSeconds, GetAll;
    var values := GetAll(headers, "age");
    if i < |values| && MaxAgeOf(values).Some? { MaxAgeOfBounds(values, i); }
  }

  lemma {:induction false} MaxAgeOfIsOne(values: seq<string>)
    requires values != [] && MaxAgeOf(values).Some?
    ensures exists i :: 0 <= i < |values| && DeltaSeconds(values[i]) == MaxAgeOf(values)
  {
    hide DeltaSeconds;
    if |values| > 1 {
      MaxAgeOfIsOne(values[1..]);
      var i :| 0 <= i < |values[1..]| && DeltaSeconds(values[1..][i]) == MaxAgeOf(values[1..]);
      assert values[i + 1] == values[1..][i];
      assert DeltaSeconds(values[0]) == MaxAgeOf(values) || DeltaSeconds(values[i + 1]) == MaxAgeOf(values);
    } else {
      assert values[1..] == [];
      assert DeltaSeconds(values[0]) == MaxAgeOf(values);
    }
  }

  /** And it is no larger than that: it is one of those lower bounds. */
  lemma InitialAgeIsAttained(headers: HeaderList, requestWall: Option<nat>, wall: nat, date: Option<int>)
    requires wall <= UINT64_MAX && (requestWall.Some? ==> requestWall.value <= wall)
    ensures var age := InitialAge(headers, requestWall, Some(wall), date);
            var delay := if requestWall.Some? then wall - requestWall.value else 0;
            var values := GetAll(headers, "age");
            || (values == [] && age == delay)
            || (exists i :: 0 <= i < |values| && DeltaSeconds(values[i]).Some? &&
                            age == Capped(DeltaSeconds(values[i]).value + delay, UINT64_MAX))
            || (age == UINT64_MAX && MaxAgeOf(values).None?)
            || (date.Some? && 0 < date.value < wall && age == wall - date.value)
            || (date.Some? && date.value <= 0 && age == Capped(wall - date.value, UINT64_MAX))
  {
    hide DeltaSeconds, GetAll;
    var values := GetAll(headers, "age");
    if values != [] && MaxAgeOf(values).Some? {
      MaxAgeOfIsOne(values);
      var i :| 0 <= i < |values| && DeltaSeconds(values[i]) == MaxAgeOf(values);
      assert DeltaSeconds(values[i]).value == MaxAgeOf(values).value;
    }
  }

  lemma {:induction false} VaryKeysMatch(names: seq<string>, headers: HeaderList)
    ensures var keys := VaryKeys(names, headers);
            forall i :: 0 <= i < |keys| ==> GetAll(headers, keys[i].name) == keys[i].requestValues
  {
    hide GetAll;
    if names != [] {
      VaryKeysMatch(names[1..], headers);
      var keys := VaryKeys(names, headers);
      assert forall i :: 0 < i < |keys| ==> keys[i] == VaryKeys(names[1..], headers)[i - 1];
    }
  }

  lemma EntryMatches(config: Config, request: CacheRequest, headers: HeaderList, body: Bytes,
                     requestWall: Option<nat>, now: Now)
    ensures VaryMatches(EntryOf(config, request, headers, body, requestWall, now), request.headers)
  {
    hide GetAll, VaryKeys, ParseVary, ParseCacheControl, AccountedBytes, InitialAge, Lifetime, ParsedDate, NonEmpty;
    var r := EntryOf(config, request, headers, body, requestWall, now);
    KeysDecideMatch(r, ParseVary(headers).names, request.headers);
  }

  lemma KeysDecideMatch(r: CachedResponse, names: seq<string>, headers: HeaderList)
    requires r.vary == VaryKeys(names, headers)
    ensures VaryMatches(r, headers)
  {
    hide GetAll, VaryKeys;
    VaryKeysMatch(names, headers);
  }

  /** An entry matches the request it was stored for. */
  lemma OwnRequestMatches(config: Config, request: CacheRequest, status: int, headers: HeaderList, body: Bytes,
                          requestWall: Option<nat>, now: Now, requireCacheable: bool)
    ensures var r := MakeCached(config, request, status, headers, body, requestWall, now, requireCacheable);
            r.Some? ==> Matches(r.value, request.url, request.headers) &&
                        !Bypassed(request, ParseCacheControl(request.headers)) &&
                        !ParseCacheControl(request.headers).invalid
  {
    hide GetAll, ParseCacheControl, Cacheable, EntryOf, Bypassed;
    EntryMatches(config, request, headers, body, requestWall, now);
  }

  lemma {:induction false} NamesKeepStar(v: Vary, raws: seq<string>)
    ensures AddVaryNames(v, raws).star <==> v.star || exists i :: 0 <= i < |raws| && TrimOws(raws[i]) == "*"
    decreases |raws|
  {
    hide TrimOws, IsFieldName, LowerCase;
    if raws != [] {
      NamesKeepStar(AddVaryName(v, raws[0]), raws[1..]);
      assert forall i :: 0 <= i < |raws| - 1 ==> raws[1..][i] == raws[i + 1];
      if exists i :: 0 <= i < |raws| && TrimOws(raws[i]) == "*" {
        var i :| 0 <= i < |raws| && TrimOws(raws[i]) == "*";
        assert i > 0 ==> TrimOws(raws[1..][i - 1]) == "*";
      }
    }
  }

  predicate StarIn(field: string) {
    var names := SplitList(Plain, field);
    exists i :: 0 <= i < |names| && TrimOws(names[i]) == "*"
  }

  lemma {:induction false} FieldsKeepStar(v: Vary, fields: seq<string>)
    ensures AddVaryFields(v, fields).star <==> v.star || exists i :: 0 <= i < |fields| && StarIn(fields[i])
    decreases |fields|
  {
    hide TrimOws, AddVaryNames, SplitList, StarIn;
    if fields != [] {
      OneFieldKeepsStar(v, fields[0]);
      FieldsKeepStar(AddVaryNames(v, SplitList(Plain, fields[0])), fields[1..]);
      assert forall i :: 0 <= i < |fields| - 1 ==> fields[1..][i] == fields[i + 1];
      if exists i :: 0 <= i < |fields| && StarIn(fields[i]) {
        var i :| 0 <= i < |fields| && StarIn(fields[i]);
        assert i > 0 ==> StarIn(fields[1..][i - 1]);
      }
    }
  }

  lemma OneFieldKeepsStar(v: Vary, field: string)
    ensures AddVaryNames(v, SplitList(Plain, field)).star <==> v.star || StarIn(field)
  {
    hide AddVaryNames, SplitList, TrimOws;
    NamesKeepStar(v, SplitList(Plain, field));
  }

  function DirectivesOf(headers: HeaderList): seq<Directive> { Directives(GetAll(headers, "cache-control")) }

  /** What is stored is fit to be stored, read off the headers themselves: the answer 200
      to a GET without credentials, conditions or range; no-store and malformed seconds on
      neither side; no "*" in any Vary field; within the entry limit; with a lifetime, a
      validator or both; and held as received. */
  lemma OnlyCacheableIsStored(config: Config, request: CacheRequest, status: int, headers: HeaderList, body: Bytes,
                              requestWall: Option<nat>, now: Now)
    ensures var r := MakeCached(config, request, status, headers, body, requestWall, now, true);
            r.Some? ==>
              && status == 200 && request.verb == "GET" && r.value.headers == headers && r.value.body == body
              && !Has(request.headers, "authorization") && !Has(request.headers, "cookie")
              && !Has(request.headers, "range") && !Conditional(request.headers)
              && !HasDirective(DirectivesOf(request.headers), "no-store")
              && !HasDirective(DirectivesOf(headers), "no-store")
              && (forall d :: d in DirectivesOf(request.headers) || d in DirectivesOf(headers) ==> !Malformed(d))
              && (forall field :: field in GetAll(headers, "vary") ==> !StarIn(field))
              && r.value.accountedBytes == AccountedBytes(config, r.value) <= config.maxEntryBytes
              && (Get(headers, "etag") != "" || Get(headers, "last-modified") != "" ||
                  Lifetime(ParseCacheControl(headers), ParsedDate(Get(headers, "date"), now.wall),
                           ParsedDate(Get(headers, "expires"), now.wall)).Some?)
  {
    hide GetAll, Directives, ApplyAll, AddVaryFields, Lifetime, ParsedDate, Get, HasDirective, Malformed, StarIn,
         AccountedBytes, Conditional, EntryOf;
    FlagsMeaning(DirectivesOf(request.headers));
    FlagsMeaning(DirectivesOf(headers));
    InvalidMeaning(DirectivesOf(request.headers));
    InvalidMeaning(DirectivesOf(headers));
    FieldsKeepStar(Vary(true, false, []), GetAll(headers, "vary"));
  }

  /** The admission hint is stricter than admission: of the responses that could be
      stored, exactly those with a validator but neither max-age, nor Expires with Date,
      nor no-cache are not captured. */
  lemma CaptureMissesExactly(config: Config, request: CacheRequest, status: int, headers: HeaderList, body: Bytes,
                             requestWall: Option<nat>, now: Now)
    ensures var control := ParseCacheControl(headers);
            MakeCached(config, request, status, headers, body, requestWall, now, true).Some? ==>
              (!ShouldCapture(request, status, headers) <==>
               control.maxAge.None? && !control.noCache &&
               (Get(headers, "expires") == "" || Get(headers, "date") == ""))
  {
    hide ParseVary, ParseCacheControl, EntryOf, ParsedDate, Bypassed, Get, Lifetime;
  }
}
