# KatHttp3: a verified model of the client's stateful policy

KatHttp3 is an HTTP/3 client. QUIC, HTTP/3 framing and TLS come from libraries; the
repository owns the policy around them. This project models that policy in Dafny and
proves what it promises. `dafny verify dfyconfig.toml` checks everything.

| files | what they model |
|---|---|
| `Text`, `Headers` | byte strings, numerals, header lists |
| `Calendar`, `HttpDate`, `ObsoleteDates`, `DateLaws` | HTTP-date: calendar arithmetic, printer, three-format parser and exactly what it accepts |
| `CacheControl`, `CachePolicy`, `CacheEntries`, `Freshness` | Cache-Control, admission and construction of entries and what they mean, age and freshness |
| `CacheCore`, `CacheLaws`, `CacheRuns`, `ResponseCache` | the LRU response cache as a value, what its operations mean, its runs, and the object that refines it |
| `EngineProtocol`, `JobDelivery`, `CachedDispatcher` | requests in the engine: terminal events, one job's responses, the cached-job queue |
| `DnsPool`, `DnsFlights`, `DnsLaws` | the resolver pool and shared resolutions |
| `RequestScheduler`, `StreamBudget` | the Kotlin admission scheduler and streaming byte budget |
| `DotSegments`, `Url`, `UrlLaws`, `Redirect`, `RedirectLaws` | URL parsing and printing, reference resolution, redirect chains |
| `RequestBody`, `ReceiveCredit`, `UdpQueue` | upload reader, receive-window credit, UDP send queue |

Code that works in place is modelled by classes and loops proved against specification
functions; code shared between threads by transition systems whose actions are single
critical sections, system calls or callbacks, with theorems over every interleaving.
Specification functions are in turn pinned by laws that do not name them: which fields,
events, paths or waiters result, in terms of headers, actions and text alone.
Clocks, system call outcomes, `inet_pton`, the redirect policy's answer to a job and the
order in which a hash map is walked are parameters.

## What the proofs found

- A relative `Location` merged with an empty base path (redirect.cc:117-119 does not
  insert the slash of section 5.2.3 of RFC 3986) glues the path to the printed authority.
  If the result parses, it names another host or port than the one the cross-origin
  decision was made for, unless the glued text writes out the default port ("./:443").
  `Redirect.CrossOriginExactly` gives the exact condition, `Redirect.EmptyBasePathGlues`
  an input. The URL of an unaffected redirect always has a path, so the case can only
  start at a first URL without one.
- `on_job_body` (engine.cc:734-748) does not look at `redirected`, so body chunks of a
  followed redirect response reach the application. `JobDelivery.NoMixedResponses` states
  exactly what is seen.
- The byte total of the cache is exact only while the saturating addition at
  response_cache.cc:472 does not saturate (`ResponseCache.AccountingExactIff`).
- EOF of a streaming upload does not imply that the declared length was reached: a body
  shorter than declared ends well if and only if bytes were still buffered when the
  producer finished (`RequestBody.ReadToEnd`; `RequestBody.ShortBodyEndsQuietly` and
  `RequestBody.DrainedShortBodyFails` are the two cases).
- A failed clock reading makes a cached entry look younger
  (`Freshness.UnreadableClockForgetsAge`); the one-way theorems assume readable clocks.
- The capture hint (response_cache.cc:442-459) is stricter than admission: a response with
  only a validator could be stored but is never captured (`CachePolicy.CaptureMissesExactly`).
- The date parser accepts a weekday name that does not belong to the date
  (`HttpDate.AnyWeekdayReadsBack`).
- `UdpSocket::send` does not look at the queue, so a datagram sent while others wait
  overtakes them (`UdpQueue.SentInTurn`, with the exact condition).
- `abort` after `finish` does nothing (KatHttp3Client.kt:325-326), so a completed call whose
  consumer stops collecting keeps its share of the shared budget
  (`StreamBudget.FinishedShareStays`, `StreamBudget.HoldsNothingExactly`).

## Model

| member | source | states |
|---|---|---|
| `Calendar.CivilOfDays` | src/core/http_date.cc:98-122 | Converting any valid date to its day number and back gives the date again. |
| `Calendar.DaysOfCivil` | src/core/http_date.cc:98-122 | Every day number, also before 1970, is mapped to a valid date whose day number it is. |
| `Calendar.Successor` | src/core/http_date.cc:89-107 | The day number advances by exactly one from each date to the next under the leap-year rule. |
| `Calendar.CivilCounts` | src/core/http_date.cc:89-122 | Day 0 is 1970-01-01 and each step in either direction is one calendar day, so the arithmetic agrees with counting days. |
| `Calendar.DaysMonotone` | src/core/http_date.cc:98-107 | Day numbers order dates chronologically, in both directions. |
| `HttpDate.SplitSpaces` | src/core/http_date.cc:21-30 | The index loop returns the maximal runs without blanks or tabs, in order. |
| `HttpDate.FieldsOfSpaced` | src/core/http_date.cc:21-30 | Splitting undoes joining words with single spaces. |
| `HttpDate.NumberReadsBack` | src/core/http_date.cc:61-69 | A number padded to its fixed width parses back to itself. |
| `HttpDate.ClockReadsBack` | src/core/http_date.cc:82-87 | A printed time of day parses back to hour, minute and second. |
| `HttpDate.TimestampOf` | src/core/http_date.cc:132-154 | The timestamp of a date and time is its count of seconds since the epoch. |
| `HttpDate.MonthReadsBack` | src/core/http_date.cc:71-80 | Month names are told apart: each reads back as its own number. |
| `HttpDate.RoundTrip` | src/core/http_date.cc:156-284 | For every 64-bit count of seconds, parsing the printed date succeeds, with any reference clock, and gives min(seconds, 9999-12-31T23:59:59). |
| `HttpDate.AnyWeekdayReadsBack` | src/core/http_date.cc:44-59 | A date in this form parses to its instant whichever of the seven weekdays it names. |
| `HttpDate.RollingYearInWindow` | src/core/http_date.cc:199-220 | The year chosen for two digits has those digits, lies at most 50 years after the reference, and the same date 100 years later does not. |
| `HttpDate.RollingYearUnique` | src/core/http_date.cc:199-220 | No other year with those digits satisfies that window. |
| `ObsoleteDates.AsctimeRoundTrip` | src/core/http_date.cc:228-242 | The asctime form of every printable instant parses to that instant. |
| `ObsoleteDates.Rfc850Parses` | src/core/http_date.cc:179-224 | An RFC 850 date parses to the timestamp of its date in the rolling year. |
| `ObsoleteDates.Rfc850RoundTrip` | src/core/http_date.cc:179-224 | The RFC 850 form of an instant parses to that instant if and only if the instant is in the rolling window. |
| `DateLaws.PrintedIsFixdate` | src/core/http_date.cc:244-284 | A printed date is the 29-character IMF-fixdate: weekday counted from Thursday 1970-01-01, day, month name, year and time of day each in its own columns. |
| `DateLaws.StandardExample` | src/core/http_date.cc:244-284 | The example instant of section 5.6.7 of RFC 9110 is printed character by character as in the standard. |
| `DateLaws.TimestampExactly` | src/core/http_date.cc:132-154 | For every year a parser can produce, the timestamp exists exactly for real dates from 1601 on and times up to the leap second; the overflow checks never fire. |
| `DateLaws.AcceptedExactly` | src/core/http_date.cc:156-242 | The whole parser as an if-and-only-if: an instant is returned exactly when the text spells, in literal names and digits, one of the three formats and a date and time that exist; a two-digit year is the one at most 50 calendar years after the clock and within a century of that. |
| `CacheControl.ParseDeltaSeconds` | src/core/cache_control.cc:130-149 | The digit loop with its overflow test computes min(decimal value, 2^64-1) on digit strings and rejects everything else. |
| `CacheControl.SplitDirectives` | src/core/cache_control.cc:33-57 | The loop with its two flags splits exactly at the commas outside quoted strings. |
| `CacheControl.JoinOfSplit` | src/core/cache_control.cc:33-57 | Splitting loses nothing: joining the members gives the field back. |
| `CacheControl.SplitOfJoin` | src/core/cache_control.cc:33-57 | Members that close their quoted strings survive joining and splitting. |
| `CacheControl.UnescapeQuoted` | src/core/cache_control.cc:66-107 | The unescaping loop removes backslashes and rejects control characters and a lone final backslash. |
| `CacheControl.DirectiveRoundTrip` | src/core/cache_control.cc:66-107 | Any value, quoted and escaped, parses back unchanged under its name. |
| `CacheControl.DirectiveListRoundTrip` | src/core/cache_control.cc:33-107 | A whole list of quoted directives parses back member by member, whatever quotes and commas the values contain. |
| `CacheControl.FlagsMeaning` | src/core/cache_control.cc:151-178 | Each of the four flags is set if and only if its directive occurs somewhere. |
| `CacheControl.InvalidMeaning` | src/core/cache_control.cc:109-126 | The field is invalid if and only if a numeric directive is malformed. |
| `CacheControl.MaxAgeMeaning` | src/core/cache_control.cc:109-126 | The first well-formed max-age wins; a conflict is recorded if and only if a later one differs. |
| `CacheControl.StaleIfErrorMeaning` | src/core/cache_control.cc:109-126 | The first well-formed stale-if-error counts, whatever comes later. |
| `CacheControl.FirstOnesCount` | src/core/cache_control.cc:109-126 | Counted from the front, the max-age and stale-if-error kept are the first well-formed ones of all fields together. |
| `CacheControl.BareDirective` | src/core/cache_control.cc:66-107 | A directive without a value reads back as its name. |
| `CacheControl.TokenDirective` | src/core/cache_control.cc:66-107 | `name=token` reads back as name and token, blanks around both aside. |
| `CacheControl.QuotedDirective` | src/core/cache_control.cc:66-107 | A quoted value is read if and only if the text between the quotes spells it, with a backslash before every backslash and control character and any others. |
| `CacheControl.BrokenDirective` | src/core/cache_control.cc:66-107 | An empty value and an unclosed quoted string make the directive invalid. |
| `CacheControl.DirectivesOfMembers` | src/core/cache_control.cc:151-178 | The directives are those of the members of all fields, one by one and in order. |
| `CachePolicy.ReadVary` | src/core/response_cache.cc:144-167 | The nested loops over all Vary fields collect the names the specification function lists, each once. |
| `CachePolicy.CountBytes` | src/core/response_cache.cc:228-249 | The chain of saturating additions yields the true size of the entry cut off at the largest size value. |
| `CachePolicy.DeliveryHeaders` | src/core/response_cache.cc:251-259 | Delivered headers are the stored ones with every Age replaced by one current Age. |
| `CachePolicy.MergeHeaders` | src/core/response_cache.cc:273-295 | The two loops build the stored fields that the 304 does not mention followed by its fields. |
| `CachePolicy.MergedFieldValues` | src/core/response_cache.cc:273-295 | After a merge every field the 304 carries has exactly its values, every other field the stored ones, and Content-Length stays. |
| `CachePolicy.OnlyCacheableIsStored` | src/core/response_cache.cc:343-440 | Whatever is stored is a 200 answer to a GET without credentials, conditions or range, without no-store or malformed seconds on either side and without a Vary "*", within the entry limit, with a lifetime or a validator, and as received. |
| `CachePolicy.OwnRequestMatches` | src/core/response_cache.cc:169-174 | An entry matches the request it was built for, Vary values included. |
| `CachePolicy.InitialAgeIsConservative` | src/core/response_cache.cc:297-420 | The initial age is at least every Age value plus the response delay and at least the time since the response date; an unreadable Age counts as the largest age. |
| `CachePolicy.CaptureMissesExactly` | src/core/response_cache.cc:442-459 | Of the responses that could be stored, the capture hint misses exactly those with a validator but no explicit lifetime and no no-cache. |
| `CachePolicy.InitialAgeIsAttained` | src/core/response_cache.cc:297-420 | And it is no larger: the initial age equals one of those lower bounds. |
| `CachePolicy.FieldsWithAge` | src/core/response_cache.cc:251-259 | Delivered fields by name: one Age with the current age, every other field as stored. |
| `CacheEntries.VaryMeaning` | src/core/response_cache.cc:138-174 | Over all Vary fields: well-formed exactly when every member is "*" or a field name, a star exactly when some member is one, and the names are exactly the members in lower case, each once. |
| `CacheEntries.EntryMeaning` | src/core/response_cache.cc:343-440 | Every entry says what its headers say: flags, first max-age before Expires minus Date, stale-if-error, validators, Vary values of its request, date used for selection. |
| `CacheEntries.AdmissionExactly` | src/core/response_cache.cc:343-440 | A response becomes an entry if and only if it is a 200 answer to a plain GET with keepable headers, within the entry limit, on readable clocks. |
| `CacheEntries.TagReadsBack` | src/core/response_cache.cc:191-215 | A weak or strong entity tag reads back as its text and strength. |
| `CacheEntries.TagsSelectExactly` | src/core/response_cache.cc:191-221 | A tag in a 304 selects a stored tag exactly when their texts agree and a strong one meets a strong one. |
| `CacheEntries.MatchesByFields` | src/core/response_cache.cc:169-174 | An entry matches a request if and only if the URL is its own and the request agrees with the one it answered on every field its Vary lists. |
| `CacheEntries.MoreRecentMeaning` | src/core/response_cache.cc:180-184 | More recent means a later Date (or receipt, without one), and at the same second stored later. |
| `CacheEntries.EveryByteCounts` | src/core/response_cache.cc:228-249 | The size of an entry grows by exactly the bytes its body or headers gain. |
| `Freshness.AgeMonotone` | src/core/response_cache.cc:325-331 | On readable clocks that do not run backwards the current age never decreases, also where it saturates. |
| `Freshness.AgeKeepsTime` | src/core/response_cache.cc:325-331 | The age starts at the corrected initial age and gains one per second, capped at 2^64-1. |
| `Freshness.StaleForever` | src/core/response_cache.cc:325-331 | An entry once not fresh for a request is never fresh for it again. |
| `Freshness.StaleIfErrorWindow` | src/core/response_cache.cc:682-691 | Stale-if-error service never overlaps freshness, is one unbroken interval, and never resumes once over. |
| `Freshness.UnreadableClockForgetsAge` | src/core/response_cache.cc:325-327 | Why readable clocks are assumed: a failed reading makes an entry look younger exactly when resident time had counted. |
| `CacheCore.EvictIsLongestPrefix` | src/core/response_cache.cc:473-480 | Eviction keeps exactly the prefixes of the recency list that satisfy both limits. |
| `CacheCore.EvictAppend` | src/core/response_cache.cc:473-480 | Evicting the tail early and evicting once at the end keep the same entries. |
| `CacheCore.InsertKeepsInvariant` | src/core/response_cache.cc:461-482 | Insertion keeps limits, distinct ids below the next id, one entry per URL and variant, and exact sizes. |
| `CacheCore.InsertNeverGoesBack` | src/core/response_cache.cc:461-468 | Storing never leaves a variant with an entry that is less recent than one it had. |
| `CacheCore.StoredIsInFront` | src/core/response_cache.cc:469-481 | A response reported as stored is the most recently used entry; otherwise nothing changed or nothing fits. |
| `CacheCore.LookedKeepsInvariant` | src/core/response_cache.cc:495-520 | Lookup only permutes the list. |
| `CacheCore.FilterKeepsInvariant` | src/core/response_cache.cc:701-711 | Removing any selection of entries keeps the invariant. |
| `CacheCore.EntryInvalidatedMembers` | src/core/response_cache.cc:713-723 | Invalidating an id removes exactly the entry of that generation. |
| `CacheCore.InsertRefreshesShape` | src/core/response_cache.cc:661-678 | All insertions of one 304 come to: refreshed entries in front of the survivors, cut to the longest prefix that fits. |
| `CacheCore.RefreshesComeFromChosen` | src/core/response_cache.cc:631-648 | Every refreshed response has the body of the entry it replaces and the validated URL. |
| `CacheCore.UpdatedCarries` | src/core/response_cache.cc:261-295 | The fields a 304 leaves behind, name by name: its own values where it mentions the name (Content-Length apart), else the stored ones, with Age gone and Date the 304's or the wall clock's. |
| `CacheLaws.InsertShape` | src/core/response_cache.cc:461-482 | Storing puts the new generation in front of all others in their old order, without the older one of its variant, then evicts; it does nothing when that one is more recent. |
| `CacheLaws.LookupKeepsOrder` | src/core/response_cache.cc:507-510 | A hit moves the entry served to the front and leaves all others in their order. |
| `CacheLaws.MergeAcceptsExactly` | src/core/response_cache.cc:530-615 | Exactly when a 304 is accepted: plain GET, the 304 answers for the response validated, and without a validator that generation is a candidate still there and, unless only delivered, the only one meant. |
| `CacheLaws.WeakUpdatesNewest` | src/core/response_cache.cc:617-629 | A weak validator updates at most one entry, one no entry meant is more recent than, and none only if none is meant; meaning is read off tag texts and dates. |
| `CacheLaws.StrongUpdatesAll` | src/core/response_cache.cc:617-634 | A strong ETag, or no validator, updates exactly the entries meant. |
| `CacheLaws.WithoutValidatorOnlyItself` | src/core/response_cache.cc:561-615 | A 304 without validators changes nothing for a response with Last-Modified, and otherwise replaces at most the response validated. |
| `CacheLaws.AllUpdatesAreRefreshes` | src/core/response_cache.cc:636-648 | Every chosen entry whose update may be stored is refreshed. |
| `CacheLaws.KeptIsARefresh` | src/core/response_cache.cc:661-678 | The copy reported as kept is the refreshed copy of the response validated. |
| `CacheLaws.RefreshGoesIn` | src/core/response_cache.cc:661-678 | A refreshed response is inserted unless its variant has been taken meanwhile. |
| `CacheRuns.LookupServesNewest` | src/core/response_cache.cc:495-520 | A hit serves an entry no matching entry is more recent than and moves it to the front; a miss means nothing matches. |
| `CacheRuns.StoreThenLookup` | src/core/response_cache.cc:484-520 | After a successful store, a lookup for the same request hits, with an entry the stored one is not more recent than. |
| `CacheRuns.LookupSnapshot` | src/core/response_cache.cc:495-520 | A validation snapshot holds ids of present, matching entries, among them the one returned. |
| `CacheRuns.ChosenAreSelected` | src/core/response_cache.cc:601-634 | A 304 replaces only present candidates whose validators it matches. |
| `CacheRuns.WeakChoosesNewest` | src/core/response_cache.cc:617-629 | A weak ETag or Last-Modified replaces at most one entry, one that no match is more recent than. |
| `CacheRuns.StrongChoosesAll` | src/core/response_cache.cc:631-634 | A strong validator replaces every candidate that matches. |
| `CacheRuns.SurvivorsAreTheRest` | src/core/response_cache.cc:650-659 | Exactly the entries that were not chosen survive the removal loop. |
| `CacheRuns.MergeShape` | src/core/response_cache.cc:617-680 | The whole effect of an accepted 304: chosen entries out, refreshed copies under new ids in front, tail evicted. |
| `CacheRuns.MergeEffect` | src/core/response_cache.cc:530-680 | Every refusal and every delivery-only answer leaves the cache as it was; what is delivered is the stored response with its fields updated by the 304. |
| `CacheRuns.StepFollows` | src/core/response_cache.cc:461-729 | Every operation keeps the invariant and never alters or brings back an old generation. |
| `CacheRuns.RunFollows` | src/core/response_cache.cc:461-729 | The same over every sequence of operations: an entry is byte-identical to when it was stored, or gone for good. |
| `CacheRuns.RevalidationIsolation` | src/core/response_cache.cc:495-680 | Whatever runs between lookup and its 304, the response delivered is the refresh, body and every field, of an entry there at lookup; the merge replaces only entries of the snapshot that were there at lookup, are unchanged and match the validators; everything else is untouched up to eviction. |
| `CacheRuns.StaleGenerationStaysStale` | src/core/response_cache.cc:325-331 | Over runs, a stored generation that was once not fresh for a request never is again. |
| `CacheRuns.RunFaithful` | src/core/response_cache.cc:343-440 | In every reachable cache each entry says what its own headers say and varies by the fields its Vary lists, with the values of a request it answered. |
| `CacheRuns.LimitsHold` | src/core/response_cache.cc:461-482 | After any run the entry count, the sum of sizes and each size are within their limits, and each size is the true one, capped. |
| `CacheRuns.LookupOutcomeExactly` | src/core/response_cache.cc:495-528 | After any run, exactly: a plain GET hits when some entry of its URL answered a request that agrees with it on every field the Vary of the entry lists; the hit is answered without validation if and only if the clocks are readable, neither side says no-cache, and the age is below the lifetime stored and within the max-age of the request; everything else is a miss. |
| `CacheRuns.StaleIfErrorExactly` | src/core/response_cache.cc:682-691 | After any run, a stored response may stand in for an error exactly when its headers allow it and its lifetime has passed by no more than the seconds allowed. |
| `ResponseCache.Cache.constructor` | src/core/response_cache.cc:333-337 | A new cache is empty, with zero limits replaced by the defaults. |
| `ResponseCache.Cache.EvictLocked` | src/core/response_cache.cc:473-481 | The eviction loop keeps the longest fitting prefix and an exact byte total, and reports whether the new entry stayed. |
| `ResponseCache.Cache.InsertLocked` | src/core/response_cache.cc:461-482 | The in-place insertion is the specified one; the running total stays the sum of the entry sizes. |
| `ResponseCache.Cache.Store` | src/core/response_cache.cc:484-493 | Storing is building an entry and inserting it, or no change. |
| `ResponseCache.Cache.SelectBest` | src/core/response_cache.cc:499-505 | The loop finds the most recent match, frontmost on ties, and lists the ids of all matches. |
| `ResponseCache.Cache.Lookup` | src/core/response_cache.cc:495-528 | In place, lookup returns and reorders exactly as the specified lookup, whose outcome CacheRuns.LookupOutcomeExactly characterises from headers and clocks. |
| `ResponseCache.Cache.Invalidate` | src/core/response_cache.cc:701-711 | The erasing loop removes exactly the entries of the URL and keeps the total exact. |
| `ResponseCache.Cache.InvalidateEntry` | src/core/response_cache.cc:713-723 | Removes the entry of that id and says whether there was one. |
| `ResponseCache.Cache.Clear` | src/core/response_cache.cc:725-729 | Empties the cache. |
| `ResponseCache.Cache.CollectRefreshes` | src/core/response_cache.cc:617-648 | The two loops select and refresh exactly the chosen entries. |
| `ResponseCache.Cache.EraseEntries` | src/core/response_cache.cc:650-659 | The loop leaves exactly the entries whose id is not listed. |
| `ResponseCache.Cache.InsertAll` | src/core/response_cache.cc:661-678 | The insertion loop skips variants that were taken meanwhile and remembers the copy of the validated entry. |
| `ResponseCache.Cache.Merge304` | src/core/response_cache.cc:530-680 | The in-place merge has the specified effect and result; CacheLaws.MergeAcceptsExactly says when it accepts, CacheCore.UpdatedCarries which fields result. |
| `ResponseCache.AccountingExactIff` | src/core/response_cache.cc:228-231 | The byte total stays exact across an insertion if and only if the sum is representable, which is why construction asks for headroom. |
| `EngineProtocol.StepKeeps` | src/core/engine.cc:210-384 | Every critical section and callback step keeps the accounting of terminal events. |
| `EngineProtocol.RunKeeps` | src/core/engine.cc:210-384 | So does every interleaving. |
| `EngineProtocol.TerminalEventProtocol` | src/core/engine.cc:851-876 | Over every interleaving of execute, deliveries by connection workers and the cache dispatcher, cancel (also from inside a callback) and destroy, each request sees at most one COMPLETE or ERROR and nothing after it; which events these are is EngineProtocol.ShownIsDelivered. |
| `EngineProtocol.EveryRequestIsOwed` | src/core/engine.cc:210-384 | In every reachable state each request has had its terminal event or is owed it by exactly one place. |
| `EngineProtocol.DestroyAnswersEveryone` | src/core/engine.cc:347-384 | Once destroy is through, the registry is empty and every executed request has had its terminal event. |
| `EngineProtocol.ShownIsDelivered` | src/core/engine.cc:851-876 | Over every run, the events shown of a request are exactly those delivered for it, kind by kind and in order, followed by at most one ERROR, and that only after a cancel, a rejection or a destroy. |
| `EngineProtocol.NoInventedEvents` | src/core/engine.cc:314-384 | Every event shown was delivered with that very kind, unless it is the ERROR of a request cancelled, rejected or caught by destroy. |
| `EngineProtocol.CancelEnds` | src/core/engine.cc:314-345 | Once a cancel finds its request alive, over every continuation the request is shown exactly one ERROR more. |
| `JobDelivery.ReadContentLength` | src/core/engine.cc:676-692 | Repeated Content-Length fields count only when all are the same valid number. |
| `JobDelivery.Job.OnHeaders` | src/core/engine.cc:567-732 | Headers lead to exactly one of: followed hop, the named lone error, held-back validation or stale service, visible response; status and fields are the ones received. |
| `JobDelivery.Job.OnBody` | src/core/engine.cc:734-748 | A chunk keeps phase, status and fields; captured bytes stay the concatenation of the chunks, or capture stops exactly when the entry limit is passed. |
| `JobDelivery.Job.OnComplete` | src/core/engine.cc:750-793 | Completion shows exactly the stale or merged response, its failure, or the network end, an error if and only if the received length is not the declared one; the body is stored exactly when capturable, complete and within the limit. |
| `JobDelivery.Job.OnError` | src/core/engine.cc:795-807 | A failure before anything was shown yields the whole entry under validation exactly when allowed, else the error; nothing is stored. |
| `JobDelivery.Job.DeliverCached` | src/core/engine.cc:418-430 | A cached response is delivered whole: headers, body if any, completion. |
| `JobDelivery.Drive` | src/core/engine.cc:567-807 | For every callback sequence the job in place shows exactly the specified answer and hands the cache exactly the specified bodies. |
| `JobDelivery.NoMixedResponses` | src/core/engine.cc:567-807 | That answer is the received header block with all chunks and one end, or the whole entry under validation or its 304 merge (every field, the whole body, one COMPLETE last), or a lone error; a followed hop shows exactly its chunks, so it is silent if and only if it carries none. |
| `JobDelivery.OnlyCompleteBodiesAreKept` | src/core/engine.cc:519-531 | A body reaches the cache only for a 200 answer to GET shown to its end, byte for byte the chunks shown and of the declared length. |
| `JobDelivery.CachedEventsAreWhole` | src/core/engine.cc:418-430 | A stored response is shown whole: one header event first with its status, every field other than Age and Set-Cookie with the entry's values and no Set-Cookie, body events that concatenate to its body, one COMPLETE last. |
| `JobDelivery.NetworkIsShown` | src/core/engine.cc:567-807 | Exactly when the network's response is shown, and that it ends in COMPLETE if and only if the stream completed with as many bytes as a counting length announced. |
| `JobDelivery.StoredIsShown` | src/core/engine.cc:567-807 | Exactly when a stored response is shown: the entry under validation on a tolerated failure, the merge result on a 304. |
| `JobDelivery.ErrorIsShown` | src/core/engine.cc:567-807 | When a lone error is shown and with which code: a redirect that may not be followed, lengths that disagree (-14), a failure not tolerated, a 304 the cache refuses (-8). |
| `JobDelivery.CompleteBodiesAreKept` | src/core/engine.cc:519-531 | A captured response that completes with the announced length within the limit does reach the cache. |
| `CachedDispatcher.Dispatcher.Queue` | src/core/engine.cc:437-464 | Admission if and only if running, below 128 jobs and within the byte bound; order kept, byte count exact. |
| `CachedDispatcher.Dispatcher.Remove` | src/core/engine.cc:466-474 | Removes the first job of that request and its bytes. |
| `CachedDispatcher.Dispatcher.Take` | src/core/engine.cc:476-495 | The dispatcher takes the oldest job, and none after a stop. |
| `CachedDispatcher.Dispatcher.Stop` | src/core/engine.cc:497-506 | Stopping empties queue and byte count. |
| `CachedDispatcher.QueuedBytesAt` | src/core/engine.cc:466-474 | Taking a job out of the middle removes exactly its bytes from the count. |
| `DnsPool.SubmitMeaning` | src/core/dns.cc:63-78 | Submission appends to the pruned queue in order, or is refused exactly when stopping or when 32 tasks and 128 pending hosts wait. |
| `DnsPool.TakeMeaning` | src/core/dns.cc:110-125 | A worker takes the oldest work; order and the rule that pending is used only while tasks are full are kept. |
| `DnsPool.TidyQueue` | src/core/dns.cc:94-108 | Pruning and promoting only drop cancelled work from the concatenated queue. |
| `DnsPool.StoppingWorkerLeavesNothing` | src/core/dns.cc:110-117 | A worker that exits leaves nothing in either stage. |
| `DnsPool.DnsWorkerPool.Submit` | src/core/dns.cc:63-78 | The in-place operation is the specified one. |
| `DnsPool.DnsWorkerPool.Wake` | src/core/dns.cc:110-125 | A woken worker leaves if and only if stopping with no tasks, else takes the first. |
| `DnsPool.DnsWorkerPool.PruneQueue` | src/core/dns.cc:94-101 | Drops exactly the cancelled work, in order. |
| `DnsPool.DnsWorkerPool.PromotePending` | src/core/dns.cc:103-108 | Moves the oldest pending work while there is room. |
| `DnsFlights.StepKeeps` | src/core/dns.cc:321-414 | Every step under either mutex keeps the flight invariant. |
| `DnsFlights.RunKeeps` | src/core/dns.cc:321-414 | So does every interleaving. |
| `DnsFlights.MappedFlightsAreLive` | src/core/dns.cc:321-414 | Every flight a caller can join is uncancelled, has 1 to 1024 waiters and exactly one task. |
| `DnsFlights.NoWaiterIsStranded` | src/core/dns.cc:321-414 | Every accepted waiter was called, cancelled, is about to be called, or waits on a live flight. |
| `DnsFlights.CalledAtMostOnce` | src/core/dns.cc:354-376 | No waiter is called twice. |
| `DnsFlights.TasksCallOwnWaiters` | src/core/dns.cc:354-376 | An older task never completes a newer flight of the same key. |
| `DnsFlights.DrainedMeansAnswered` | src/core/dns.cc:321-414 | When the pool has drained, every accepted waiter has been called or was cancelled. |
| `DnsFlights.ExactlyOneTask` | src/core/dns.cc:336-388 | A live flight has exactly one task, counting queue slots and workers. |
| `DnsLaws.ResolveMeaning` | src/core/dns.cc:321-389 | A caller gets in exactly when the flight of its key, or the pool, has room; it then stands last among the callers of its own key, a new key gets one task and a known key none; a refused caller leaves no trace. |
| `DnsLaws.CancelDetaches` | src/core/dns.cc:393-414 | After a cancellation nobody with that token waits on a joinable flight; the others wait on in order; exactly the emptied flights are cancelled and unmapped. |
| `DnsLaws.CompleteHandsOver` | src/core/dns.cc:354-362 | A finished flight hands exactly its callers, in order, to the worker and frees the key; a cancelled or superseded one calls nobody and frees nothing. |
| `DnsLaws.LogIsCalls` | src/core/dns.cc:369-377 | Over every run the log holds exactly the waiters called, in order. |
| `RequestScheduler.OriginRequestScheduler.Acquire` | kathttp3/src/main/kotlin/dev/kathttp3/OriginRequestScheduler.kt:36-73 | A permit if and only if fewer than maxActive are outstanding, else a place in the queue of the urgency while fewer than maxQueued wait. |
| `RequestScheduler.OriginRequestScheduler.PopNext` | kathttp3/src/main/kotlin/dev/kathttp3/OriginRequestScheduler.kt:87-96 | The search drains dead waiters and stops at the first live one. |
| `RequestScheduler.OriginRequestScheduler.ClosePermit` | kathttp3/src/main/kotlin/dev/kathttp3/OriginRequestScheduler.kt:83-134 | Closing a permit, once, hands its slot to the next waiter as a new permit or gives it back. |
| `RequestScheduler.OriginRequestScheduler.Resume` | kathttp3/src/main/kotlin/dev/kathttp3/OriginRequestScheduler.kt:63-102 | A waiter cancelled during the hand-off passes the slot on; none is lost. |
| `RequestScheduler.OriginRequestScheduler.RemoveWaiter` | kathttp3/src/main/kotlin/dev/kathttp3/OriginRequestScheduler.kt:75-81 | Cancelling removes the waiter from its queues and nothing else. |
| `RequestScheduler.OriginRequestScheduler.Close` | kathttp3/src/main/kotlin/dev/kathttp3/OriginRequestScheduler.kt:109-124 | Closing fails exactly the queued live waiters. |
| `RequestScheduler.PickIsFairest` | kathttp3/src/main/kotlin/dev/kathttp3/OriginRequestScheduler.kt:87-96 | The slot goes to the earliest-queued live waiter of the lowest urgency number. |
| `RequestScheduler.PickedOk` | kathttp3/src/main/kotlin/dev/kathttp3/OriginRequestScheduler.kt:83-103 | A hand-off keeps active equal to the outstanding permits, both limits, and waiters only when all permits are out. |
| `RequestScheduler.EnqueuedOk` | kathttp3/src/main/kotlin/dev/kathttp3/OriginRequestScheduler.kt:53-59 | Queueing keeps the same invariant. |
| `RequestScheduler.RemovedOk` | kathttp3/src/main/kotlin/dev/kathttp3/OriginRequestScheduler.kt:75-81 | So does removing a waiter. |
| `RequestScheduler.PickTakesOne` | kathttp3/src/main/kotlin/dev/kathttp3/OriginRequestScheduler.kt:87-96 | A pick takes one waiter and otherwise only dead ones: every other live waiter stays at its urgency and in order. |
| `RequestScheduler.EveryQueueIsReached` | kathttp3/src/main/kotlin/dev/kathttp3/OriginRequestScheduler.kt:109-124 | Closing reaches every waiter queued at any origin and urgency, and nobody else. |
| `RequestScheduler.QueueingIsUndone` | kathttp3/src/main/kotlin/dev/kathttp3/OriginRequestScheduler.kt:53-81 | A new waiter stands last at its urgency; cancelling it restores the queues exactly. |
| `StreamBudget.StepKeeps` | kathttp3/src/main/kotlin/dev/kathttp3/KatHttp3Client.kt:276-344 | Every atomic step of offer, receive, release, finish and abort keeps budget and queue accounts. |
| `StreamBudget.BudgetIsConserved` | kathttp3/src/main/kotlin/dev/kathttp3/KatHttp3Client.kt:276-344 | Over every interleaving on any number of queues, used equals what the queues hold, within both limits. |
| `StreamBudget.ClampsNeverFire` | kathttp3/src/main/kotlin/dev/kathttp3/KatHttp3Client.kt:285-343 | No release is ever clamped, and after an abort a late release gives nothing back twice. |
| `StreamBudget.ConsumersSeeOfferOrder` | kathttp3/src/main/kotlin/dev/kathttp3/KatHttp3Client.kt:297-335 | Consumers receive events in offer order, without a gap until an abort. |
| `StreamBudget.DrainedQueueHoldsNothing` | kathttp3/src/main/kotlin/dev/kathttp3/KatHttp3Client.kt:325-343 | A drained or aborted queue holds no part of the budget. |
| `StreamBudget.HoldsNothingExactly` | kathttp3/src/main/kotlin/dev/kathttp3/KatHttp3Client.kt:292-344 | An unlocked queue holds no part of the budget if and only if it was aborted or no body byte is left in its channel or with its consumer. |
| `StreamBudget.FinishedShareStays` | kathttp3/src/main/kotlin/dev/kathttp3/KatHttp3Client.kt:318-335 | A finished queue that was not aborted keeps its share until its consumer releases: an abort after finish changes nothing. |
| `StreamBudget.OfferMeaning` | kathttp3/src/main/kotlin/dev/kathttp3/KatHttp3Client.kt:297-316 | An offer that goes through puts its event behind all others and charges its bytes once to queue and budget. |
| `StreamBudget.FailedOfferLeavesNoTrace` | kathttp3/src/main/kotlin/dev/kathttp3/KatHttp3Client.kt:297-316 | An offer whose send fails leaves the state exactly as it was. |
| `StreamBudget.ReceiveThenRelease` | kathttp3/src/main/kotlin/dev/kathttp3/KatHttp3Client.kt:297-343 | The oldest event is handed over, and releasing it gives exactly its body bytes back to queue and budget. |
| `StreamBudget.NothingAfterTheEnd` | kathttp3/src/main/kotlin/dev/kathttp3/KatHttp3Client.kt:318-335 | Nothing is offered after a finish or abort, in any run; an aborted queue hands out nothing more. |
| `StreamBudget.AbortGivesBack` | kathttp3/src/main/kotlin/dev/kathttp3/KatHttp3Client.kt:325-335 | An abort leaves nothing buffered and gives exactly what was buffered back to the budget. |
| `DotSegments.RemoveDotSegments` | src/core/redirect.cc:32-61 | The erase-and-append loop terminates and computes splitting at slashes, folding with a stack and joining. |
| `DotSegments.EraseLastSegment` | src/core/redirect.cc:23-30 | Cuts the output at its last slash, or empties it. |
| `DotSegments.NoDotSegmentsLeft` | src/core/redirect.cc:32-61 | The result has no "." and no ".." segment. |
| `DotSegments.ResolvingTwice` | src/core/redirect.cc:32-61 | Removing dot segments twice changes nothing more. |
| `DotSegments.CleanPathIsKept` | src/core/redirect.cc:32-61 | A path without dot segments is returned unchanged. |
| `DotSegments.AbsoluteStaysAbsolute` | src/core/redirect.cc:32-61 | A path that starts with a slash gives one that starts with a slash. |
| `DotSegments.NothingInvented` | src/core/redirect.cc:32-61 | Every character of the result other than a slash comes from the input. |
| `DotSegments.SplitJoin` | src/core/redirect.cc:32-61 | Splitting undoes joining slash-free segments. |
| `DotSegments.HereIsDropped` | src/core/redirect.cc:32-61 | In an absolute path "/./" reads as "/", and a final "/." as "/". |
| `DotSegments.UpCancels` | src/core/redirect.cc:32-61 | ".." cancels the plain segment before it, in the middle and at the end. |
| `DotSegments.UpStopsAtRoot` | src/core/redirect.cc:32-61 | ".." at the root stays at the root. |
| `Url.ValidUriComponent` | src/core/url.cc:35-52 | The loop with its moving index accepts exactly allowed characters and complete percent-escapes. |
| `Url.ParsedIsAccepted` | src/core/url.cc:101-181 | Every parsed URL is https, has a usable host, a 16-bit port and an empty or absolute path. |
| `Url.RoundTrip` | src/core/url.cc:73-181 | Printing an accepted URL and parsing it gives the URL back up to the default port and "" versus "/". |
| `Url.PrintedFormIsCanonical` | src/core/url.cc:73-181 | For every accepted text, the printed form parses to the canonical URL with the same host and effective port, and printing again is a fixpoint. |
| `Url.AuthorityReadsBack` | src/core/url.cc:73-82 | The printed authority parses to the same host and port, bracketed addresses included. |
| `Url.TargetReadsBack` | src/core/url.cc:84-91 | The printed path and query parse to themselves. |
| `UrlLaws.ParsesExactly` | src/core/url.cc:101-181 | The whole parser as an if-and-only-if: a text parses to a URL exactly when the URL is acceptable and the text is "https" in any case, "://", host, optional port digits, path, query and an optional valid fragment of it. |
| `Redirect.HasValidScheme` | src/core/redirect.cc:63-78 | The scheme loop classifies a reference as relative, absolute or malformed. |
| `Redirect.CrossOriginIsRight` | src/core/redirect.cc:80-167 | Whenever a followed redirect URL parses, the origin it parses to is the one the cross-origin decision was made for, unless a path was merged with an empty base path. |
| `Redirect.AuthorityKeptExactly` | src/core/redirect.cc:80-167 | The authority text printed in the redirect URL is that of the target if and only if no relative path was merged with an empty base path. |
| `Redirect.CrossOriginExactly` | src/core/redirect.cc:80-167 | Whenever a followed redirect URL parses, it has the host and effective port decided on, and the cross-origin decision describes it, if and only if nothing is glued to the host or what is glued is ":" and digits of value 443 behind a URL that prints no port. |
| `Redirect.EmptyBasePathGlues` | src/core/redirect.cc:117-122 | A concrete input for the exception: from "https://host", Location "a" counts as same-origin and goes to "hosta". |
| `Redirect.RelativeResolution` | src/core/redirect.cc:80-126 | Section 5.2.2 of RFC 3986 for every relative reference and base: which scheme, host, port, path and query the result has, literally in the parts of base and reference. |
| `Redirect.AbsoluteResolution` | src/core/redirect.cc:80-104 | A complete reference, with or without its scheme, resolves to the URL it spells out, whatever the base. |
| `Redirect.FollowsExactly` | src/core/redirect.cc:130-167 | Exactly when a redirect is followed, to the printed form of which URL, and that it counts as cross-origin exactly when host or port (443 when absent) differ. |
| `Redirect.TargetIsAskedFor` | src/core/redirect.cc:150-167 | The URL contacted asks for the very path and query of the resolved target. |
| `Redirect.RequestRewriting` | src/core/redirect.cc:141-164 | 307 and 308 keep method and body, HEAD stays HEAD, and a method that changes becomes GET without a body. |
| `Redirect.CopyHeaders` | src/core/engine.cc:603-613 | The loop copies exactly the headers that are not dropped, in order. |
| `Redirect.HopMayFollow` | src/core/engine.cc:580-637 | One followed hop keeps everything the chain theorem promises, and the budget was not used up. |
| `Redirect.ChainIsSafe` | src/core/engine.cc:580-637 | Over a whole redirect chain: at most ten hops, method original or GET, a body resent only unchanged with the original method, and a remaining credential only ever goes to the first origin. |
| `RedirectLaws.CarriedValues` | src/core/engine.cc:603-613 | Each field name keeps all its values in order, or loses them all, exactly for the seven named fields and only under their condition. |
| `RedirectLaws.HopExactly` | src/core/engine.cc:580-637 | Exactly when a hop is taken, and verb, body, URL and every header field of the next request, in terms of status and verb. |
| `RedirectLaws.CredentialsStayGone` | src/core/engine.cc:580-637 | Once a chain has crossed to another origin, no later request carries Authorization, Proxy-Authorization, Cookie or Host again, not even back at the first origin. |
| `RequestBody.StreamingBody.Append` | src/core/quic_client.cc:1898-1919 | Bytes are appended whole or not at all, with the exact conditions of both refusals, within 4 MiB. |
| `RequestBody.StreamingBody.PopExhausted` | src/core/http3_session.cc:264-275 | Dropping exhausted chunks changes no byte still to be offered. |
| `RequestBody.StreamingBody.Offer` | src/core/http3_session.cc:307-310 | Offering moves the next bytes of the stream and keeps offered, buffered and declared accounts. |
| `RequestBody.StreamingBody.DataRead` | src/core/http3_session.cc:262-317 | The reader offers the next bytes in order, at most 64 KiB; EOF with data if and only if finished and all appended bytes are offered; failure exactly when the declared length would be passed or was missed. |
| `RequestBody.FixedBody.DataRead` | src/core/http3_session.cc:319-338 | A fixed body is offered in order and EOF comes exactly with its last bytes. |
| `RequestBody.ShortBodyEndsQuietly` | src/core/http3_session.cc:311-315 | An input for the first case of ReadToEnd: 3 of 5 declared bytes, finished while buffered, end with EOF. |
| `RequestBody.DrainedShortBodyFails` | src/core/http3_session.cc:276-281 | An input for the other case: the same bytes read before the producer finished are refused. |
| `RequestBody.ReadToEnd` | src/core/http3_session.cc:262-317 | Reading a finished body to its end: one shorter than declared ends with EOF if and only if bytes were still buffered when the producer finished; a longer one always fails; any other always ends with all bytes offered. |
| `RequestBody.FlattenAppend` | src/core/quic_client.cc:1915-1918 | A chunk queued at the end is read after everything queued before it. |
| `ReceiveCredit.CollectCredit` | src/core/quic_client.cc:1844-1849 | Batching gives each stream exactly its credits and the connection exactly the sum of its streams. |
| `ReceiveCredit.ApplyBatch` | src/core/quic_client.cc:1843-1853 | Each stream window grows by its share, the connection window by the total. |
| `ReceiveCredit.StepKeeps` | src/core/quic_client.cc:1832-1896 | Every critical section keeps delivered = consumed + unconsumed, consumed = applied + on the way, and the wakeup promise. |
| `ReceiveCredit.RunKeeps` | src/core/quic_client.cc:1832-1896 | So does every interleaving. |
| `ReceiveCredit.CreditNeverExceedsDelivery` | src/core/quic_client.cc:1866-1896 | A stream window is never extended by more than was delivered, and the connection by exactly what its streams got. |
| `ReceiveCredit.SleepingWorkerHasNoCredit` | src/core/wakeup_coalescer.h:9-15 | No wakeup is lost: a worker that would sleep with no consumer about to wake it has an empty queue. |
| `ReceiveCredit.AllCreditArrives` | src/core/quic_client.cc:1832-1896 | Once everything is quiet, every consumed byte was given back or dropped with a closed connection. |
| `ReceiveCredit.CreditNeverExceedsArrival` | src/core/quic_client.cc:1832-1896 | Over every run a stream's window grows by no more bytes than the peer sent on it. |
| `ReceiveCredit.ConsumeExactly` | src/core/quic_client.cc:1866-1896 | Consumption is credited exactly when open and within what arrived and is unconsumed; a refusal changes nothing. |
| `ReceiveCredit.CreditQueue.Push` | src/core/quic_client.cc:1889-1894 | The locked section is the enqueue step of the protocol, and asks for a wakeup exactly when that step adds one. |
| `ReceiveCredit.CreditQueue.TakeBatch` | src/core/quic_client.cc:1833-1841 | The locked section is the swap step: the worker holds the whole queue and the wakeup is rearmed. |
| `ReceiveCredit.ReceiveCounters.Consume` | src/core/quic_client.cc:1871-1883 | The locked section is the consume step; it is refused exactly when closed or beyond what was delivered. |
| `UdpQueue.UdpSocket.Send` | src/core/udp_socket.cc:275-296 | A datagram is sent, queued in order within both bounds, or refused, with the exact condition; an accepted one takes its turn behind the queue if and only if the call would block or the queue holds no other datagram. |
| `UdpQueue.SentInTurn` | src/core/udp_socket.cc:275-286 | Sending at once keeps the order of wire and queue exactly when every queued datagram equals the one sent, in particular when none is queued. |
| `UdpQueue.UdpSocket.FlushSendQueue` | src/core/udp_socket.cc:298-346 | For every sequence of system call outcomes the datagrams that leave are a prefix of the queue in order and the rest stays; it takes at most two calls more than datagrams sent. |
| `UdpQueue.SegmentedConcat` | src/core/udp_socket.cc:318-325 | Segmenting an aggregate at the segment size gives back exactly the batched packets. |
| `UdpQueue.CountBatch` | src/core/udp_socket.cc:308-316 | The batch is the longest run of at most 16 packets of one size and mark. |
| `UdpQueue.UdpSocket.PopFront` | src/core/udp_socket.cc:333-336 | Dropping sent packets keeps the byte count exact. |

## Left out

- ResponseCache.Cache.constructor: asks for max_bytes + max_entry_bytes to be representable, because otherwise the running total is not exact (see ResponseCache.AccountingExactIff); generation ids are unbounded, so the wrap of next_entry_id_ at response_cache.cc:469 is not modelled.
- ResponseCache.Cache.Store: the mutex is one atomic step per operation; interleavings are sequences of operations.
- CachePolicy.MakeCached: the arithmetic on date differences is unbounded; entryOverhead stands for the size of the entry record; the body is a value, not a shared pointer.
- Calendar.DaysOfCivil: integers are unbounded, so overflow of the 64-bit day arithmetic near its limits is not modelled.
- HttpDate.RollingYearUnique: stated before the day of month is validated in the chosen year, and for reference clocks up to the year 9999.
- EngineProtocol.TerminalEventProtocol: request ids are not reused; null callbacks count as invoked; safety only, no claim that locks are ever granted.
- JobDelivery.Drive: one job of one hop; the request of the next hop is in Redirect, its cookie header and its own job are not part of this model.
- EngineProtocol.StepKeeps: which client or queue serves a request after a redirect is not part of the state.
- JobDelivery.Job.OnHeaders: the redirect policy's answer and the cache's stale-if-error answer are parameters.
- DnsFlights.MappedFlightsAreLive: the branches that handle allocation failure and throwing callbacks are not modelled.
- RequestScheduler.OriginRequestScheduler.Acquire: the timeout is a cancellation at any moment; coroutine dispatch is not modelled.
- Url.RoundTrip: of inet_pton only the fact that accepted addresses contain a colon is used.
- Redirect.ChainIsSafe: assumes the first hop does not hit the empty-base-path case, whose exact effect is Redirect.CrossOriginExactly; the cookie jar, which may add a cookie header per hop, is not part of this model.
- RequestBody.StreamingBody.Append: finding the job and waking the worker are not modelled.
- ReceiveCredit.StepKeeps: pending_credit_bytes, which is zero between calls, and an active job without a stream id are not modelled; applying credit with no connection is recorded as dropped.
- UdpQueue.UdpSocket.FlushSendQueue: a call that takes fewer bytes than asked counts as having sent no datagram.
- DnsCache, the address interleaving and the Happy Eyeballs plan: would add only easy members.
- The recursive functions for header lookups, tags, Age fields and sizes stand for the small loops that only read.
- TLS, certificates, the QUIC connection life cycle, QPACK, the cookie jar, JNI marshalling, multipart and form encoders, logging and the example app.
