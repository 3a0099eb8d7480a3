/** One request job in the engine: from the transport's callbacks to what the
    application sees and what the cache is given. */
module JobDelivery {
  import opened Text
  import opened Headers
  import opened CachePolicy
  import Freshness

  datatype AppEvent =
    | HeadersSeen(status: int, headers: HeaderList)
    | BodySeen(data: Bytes)
    | CompleteSeen
    | ErrorSeen(code: int)

  const ERR_DNS := -1
  const ERR_HTTP3 := -8
  const ERR_TIMEOUT := -9
  const ERR_BODY := -14
  const ERR_DNS_TIMEOUT := -15
  const ERR_CALL_TIMEOUT := -21
  const ERR_NETWORK_LOST := -23

  const INT64_MAX: nat := 0x7FFF_FFFF_FFFF_FFFF

  predicate StaleIfErrorStatus(status: int) { status == 500 || status == 502 || status == 503 || status == 504 }

  /** DNS, network-lost and the timeouts numbered -15 to -21. */
  predicate StaleIfErrorTransport(err: int) {
    err == ERR_DNS || err == ERR_TIMEOUT || ERR_CALL_TIMEOUT <= err <= ERR_DNS_TIMEOUT || err == ERR_NETWORK_LOST
  }

  predicate Ended(events: seq<AppEvent>) {
    events != [] && (events[|events| - 1].CompleteSeen? || events[|events| - 1].ErrorSeen?)
  }

  function Bodies(chunks: seq<Bytes>): seq<AppEvent> {
    if chunks == [] then [] else Bodies(chunks[..|chunks| - 1]) + [BodySeen(chunks[|chunks| - 1])]
  }

  function Concat(chunks: seq<Bytes>): Bytes {
    if chunks == [] then [] else Concat(chunks[..|chunks| - 1]) + chunks[|chunks| - 1]
  }

  lemma BodiesSnoc(chunks: seq<Bytes>, data: Bytes)
    ensures Bodies(chunks + [data]) == Bodies(chunks) + [BodySeen(data)]
    ensures Concat(chunks + [data]) == Concat(chunks) + data
  {
    assert (chunks + [data])[..|chunks|] == chunks;
  }

  lemma NoChunks()
    ensures Bodies([]) == [] && Concat([]) == []
  {
  }

  lemma BodiesOpen(chunks: seq<Bytes>)
    ensures !Ended(Bodies(chunks))
  {
  }

  /** Header fields, whole body if any, completion: a stored response as the
      application receives it. Set-Cookie is not replayed. */
  function CachedEvents(r: CachedResponse, monotonic: nat): seq<AppEvent> {
    [HeadersSeen(r.status, Without(Aged(r, monotonic), "set-cookie"))] +
    (if r.body == [] then [] else [BodySeen(r.body)]) + [CompleteSeen]
  }

  function Aged(r: CachedResponse, monotonic: nat): HeaderList {
    if monotonic == 0 || r.storedAt == 0 then r.headers
    else HeadersWithAge(r.headers, Freshness.CurrentAge(r, monotonic))
  }

  /** The body bytes shown by a list of events, in order. */
  function BodyShown(events: seq<AppEvent>): Bytes {
    if events == [] then [] else (if events[0].BodySeen? then events[0].data else []) + BodyShown(events[1..])
  }

  /** Exactly one header event, first, and exactly one terminal event, COMPLETE, last. */
  predicate WellFramed(events: seq<AppEvent>) {
    && |events| >= 2 && events[0].HeadersSeen? && events[|events| - 1] == CompleteSeen
    && forall i :: 0 < i < |events| - 1 ==> events[i].BodySeen?
  }

  /** The shown header fields are the entry's, without Set-Cookie and with the age at the
      time of delivery when the clocks can tell it. */
  ghost predicate ShowsFieldsOf(r: CachedResponse, monotonic: nat, shown: HeaderList) {
    forall name ::
      GetAll(shown, name) ==
      if IEquals(name, "set-cookie") then []
      else if IEquals(name, "age") && monotonic != 0 && r.storedAt != 0
      then [Decimal(Freshness.CurrentAge(r, monotonic))]
      else GetAll(r.headers, name)
  }

  /** The whole of a stored response: its status, its fields, its body, nothing else. */
  ghost predicate ShowsWhole(events: seq<AppEvent>, r: CachedResponse, monotonic: nat) {
    && WellFramed(events) && events[0].status == r.status && ShowsFieldsOf(r, monotonic, events[0].headers)
    && BodyShown(events) == r.body
  }

  lemma AgedFields(r: CachedResponse, monotonic: nat, name: string)
    ensures GetAll(Aged(r, monotonic), name) ==
            if IEquals(name, "age") && monotonic != 0 && r.storedAt != 0
            then [Decimal(Freshness.CurrentAge(r, monotonic))] else GetAll(r.headers, name)
  {
    hide IEquals, Decimal, Freshness.CurrentAge, GetAll;
    if monotonic != 0 && r.storedAt != 0 { FieldsWithAge(r.headers, Freshness.CurrentAge(r, monotonic), name); }
  }

  lemma FrameOf(head: AppEvent, body: Bytes)
    requires head.HeadersSeen?
    ensures var events := [head] + (if body == [] then [] else [BodySeen(body)]) + [CompleteSeen];
            WellFramed(events) && events[0] == head && BodyShown(events) == body
  {
    BodyShownSnoc([head], CompleteSeen);
    if body == [] {
      assert [head] + [] + [CompleteSeen] == [head] + [CompleteSeen];
    } else {
      BodyShownSnoc([head], BodySeen(body));
      BodyShownSnoc([head] + [BodySeen(body)], CompleteSeen);
    }
    assert BodyShown([head]) == [] by { assert [head][1..] == []; }
    assert [] + body == body && body + [] == body;
  }

  lemma {:induction false} BodyShownSnoc(events: seq<AppEvent>, e: AppEvent)
    ensures BodyShown(events + [e]) == BodyShown(events) + if e.BodySeen? then e.data else []
  {
    if events == [] {
      assert events + [e] == [e] && [e][1..] == [];
      assert BodyShown([]) == [];
    } else {
      assert (events + [e])[1..] == events[1..] + [e];
      BodyShownSnoc(events[1..], e);
      var first := if events[0].BodySeen? then events[0].data else [];
      var last := if e.BodySeen? then e.data else [];
      assert first + (BodyShown(events[1..]) + last) == (first + BodyShown(events[1..])) + last;
    }
  }

  lemma ShownFields(r: CachedResponse, monotonic: nat)
    ensures ShowsFieldsOf(r, monotonic, Without(Aged(r, monotonic), "set-cookie"))
  {
    hide IEquals, Decimal, Freshness.CurrentAge, GetAll, Aged, Without;
    var shown := Without(Aged(r, monotonic), "set-cookie");
    forall name
      ensures GetAll(shown, name) ==
              if IEquals(name, "set-cookie") then []
              else if IEquals(name, "age") && monotonic != 0 && r.storedAt != 0
              then [Decimal(Freshness.CurrentAge(r, monotonic))]
              else GetAll(r.headers, name)
    {
      GetAllWithout(Aged(r, monotonic), "set-cookie", name);
      AgedFields(r, monotonic, name);
    }
  }

  /** A stored response is shown whole. */
  lemma CachedEventsAreWhole(r: CachedResponse, monotonic: nat)
    ensures ShowsWhole(CachedEvents(r, monotonic), r, monotonic)
  {
    hide Aged, Without, ShowsFieldsOf, WellFramed, BodyShown;
    ShownFields(r, monotonic);
    FrameOf(HeadersSeen(r.status, Without(Aged(r, monotonic), "set-cookie")), r.body);
  }

  // ---------------------------------------------------------------- Content-Length

  function ParseContentLength(s: string): Option<nat> {
    if s == "" || !IsDigits(s) || DecimalValue(s) > INT64_MAX then None else Some(DecimalValue(s))
  }

  datatype Length = Invalid | Absent | Declared(value: nat)

  /** Repeated fields are legal only when every value is the same valid number
      (section 8.6 of RFC 9110). */
  function DeclaredLength(values: seq<string>): Length {
    if values == [] then Absent
    else if forall i :: 0 <= i < |values| ==>
              ParseContentLength(values[i]).Some? && ParseContentLength(values[i]) == ParseContentLength(values[0])
    then Declared(ParseContentLength(values[0]).value)
    else Invalid
  }

  function LengthOf(headers: HeaderList): Length { DeclaredLength(GetAll(headers, "content-length")) }

  method ReadContentLength(headers: HeaderList) returns (length: Length)
    ensures length == LengthOf(headers)
  {
    hide ParseContentLength, IEquals;
    length := Absent;
    ghost var all := GetAll(headers, "content-length");
    assert headers[0..] == headers;
    ghost var seen: seq<string> := [];
    for i := 0 to |headers|
      invariant all == seen + GetAll(headers[i..], "content-length")
      invariant length == DeclaredLength(seen) && !length.Invalid?
    {
      assert headers[i..][0] == headers[i] && headers[i..][1..] == headers[i + 1..];
      if IEquals(headers[i].name, "content-length") {
        var v := headers[i].value;
        var value := ParseContentLength(v);
        assert all[|seen|] == v;
        assert seen != [] ==> all[0] == seen[0];
        seen := seen + [v];
        if value.None? || (length.Declared? && value.value != length.value) {
          return Invalid;
        }
        length := Declared(value.value);
      }
    }
  }

  // ---------------------------------------------------------------- what the application is owed

  datatype Capture = Capture(enabled: bool, max: nat, body: Bytes)

  datatype Validation = Validation(
    stored: CachedResponse, candidates: seq<nat>, responseHeaders: HeaderList, serveStale: bool)

  /** What the redirect policy made of a 3xx response. */
  datatype Redirect = NotFollowed | Followed | FollowRefused(code: int)

  datatype Phase = Waiting | Hop | Refused | Hidden | Exposed | Over

  /** What a job starts with; `validation` is the stored response it revalidates. */
  datatype Setup = Setup(
    request: CacheRequest, hasCache: bool, followRedirects: bool, maxEntryBytes: nat,
    validation: Option<CachedResponse>)

  datatype Callback =
    | HeadersArrive(status: int, headers: HeaderList, redirect: Redirect, canServeStale: bool)
    | BodyArrives(data: Bytes)
    | Completes(merged: Option<CachedResponse>, monotonic: nat)
    | Fails(code: int, canServeStale: bool, monotonic: nat)

  predicate Finishes(c: Callback) { c.Completes? || c.Fails? }

  /** A lone error, or one header block, body chunks, and the end of the stream. */
  predicate CallbackSequence(cs: seq<Callback>) {
    || (|cs| == 1 && cs[0].Fails?)
    || (|cs| >= 2 && cs[0].HeadersArrive? && Finishes(cs[|cs| - 1]) &&
        forall i :: 0 < i < |cs| - 1 ==> cs[i].BodyArrives?)
  }

  function ChunksOf(cs: seq<Callback>): seq<Bytes> {
    if cs == [] then []
    else if cs[|cs| - 1].BodyArrives? then ChunksOf(cs[..|cs| - 1]) + [cs[|cs| - 1].data]
    else ChunksOf(cs[..|cs| - 1])
  }

  lemma ChunksSnoc(cs: seq<Callback>, i: nat)
    requires i < |cs|
    ensures ChunksOf(cs[..i + 1]) == if cs[i].BodyArrives? then ChunksOf(cs[..i]) + [cs[i].data] else ChunksOf(cs[..i])
  {
    assert cs[..i + 1][..i] == cs[..i];
  }

  predicate FollowsRedirect(setup: Setup, status: int, redirect: Redirect) {
    status / 100 == 3 && status != 304 && setup.followRedirects && !redirect.NotFollowed?
  }

  /** The error the header block itself leads to, if any. */
  function HeaderError(setup: Setup, status: int, headers: HeaderList, redirect: Redirect): Option<int> {
    if FollowsRedirect(setup, status, redirect) then if redirect.FollowRefused? then Some(redirect.code) else None
    else if LengthOf(headers).Invalid? then Some(ERR_BODY)
    else None
  }

  /** Where the header block takes the job. */
  function PhaseAfter(setup: Setup, status: int, headers: HeaderList, redirect: Redirect, canServeStale: bool): Phase {
    if HeaderError(setup, status, headers, redirect).Some? then Refused
    else if FollowsRedirect(setup, status, redirect) then Hop
    else if setup.validation.Some? && (status == 304 || (StaleIfErrorStatus(status) && canServeStale)) then Hidden
    else Exposed
  }

  predicate LengthExempt(verb: string, status: int) {
    verb == "HEAD" || status == 204 || status == 304 || status / 100 == 1
  }

  /** The received bytes are not what Content-Length announced. */
  predicate Truncated(setup: Setup, status: int, length: Length, received: nat) {
    length.Declared? && !LengthExempt(setup.request.verb, status) && received != length.value
  }

  /** What a transport failure shows while nothing has been shown yet. */
  function Failure(setup: Setup, err: int, canServeStale: bool, monotonic: nat): seq<AppEvent> {
    if setup.validation.Some? && StaleIfErrorTransport(err) && canServeStale
    then CachedEvents(setup.validation.value, monotonic) else [ErrorSeen(err)]
  }

  /** The end of an exposed network response. */
  function NetworkEnd(setup: Setup, status: int, length: Length, received: nat, last: Callback): AppEvent
    requires Finishes(last)
  {
    if last.Fails? then ErrorSeen(last.code)
    else if Truncated(setup, status, length, received) then ErrorSeen(ERR_BODY)
    else CompleteSeen
  }

  /** Everything the application sees of the job. */
  function Answer(setup: Setup, cs: seq<Callback>): seq<AppEvent>
    requires CallbackSequence(cs)
  {
    var last := cs[|cs| - 1];
    if cs[0].Fails? then Failure(setup, last.code, last.canServeStale, last.monotonic)
    else
      var HeadersArrive(status, headers, redirect, canServeStale) := cs[0];
      match PhaseAfter(setup, status, headers, redirect, canServeStale)
      case Refused => [ErrorSeen(HeaderError(setup, status, headers, redirect).value)]
      case Hop => Bodies(ChunksOf(cs))
      case Hidden =>
        if last.Fails? then Failure(setup, last.code, last.canServeStale, last.monotonic)
        else if status != 304 then CachedEvents(setup.validation.value, last.monotonic)
        else if last.merged.Some? then CachedEvents(last.merged.value, last.monotonic)
        else [ErrorSeen(ERR_HTTP3)]
      case _ =>
        [HeadersSeen(status, headers)] + Bodies(ChunksOf(cs)) +
        [NetworkEnd(setup, status, LengthOf(headers), |Concat(ChunksOf(cs))|, last)]
  }

  /** May the response be captured for the cache at all? */
  predicate Capturable(setup: Setup, status: int, headers: HeaderList) {
    setup.hasCache && !setup.request.streaming && ShouldCapture(setup.request, status, headers)
  }

  /** A capture that still holds every byte after `received` of them. */
  predicate CaptureHolds(maxEntryBytes: nat, length: Length, received: nat) {
    received <= maxEntryBytes && !(length.Declared? && length.value > maxEntryBytes)
  }

  /** The bodies handed to the cache. */
  function Kept(setup: Setup, cs: seq<Callback>): seq<Bytes>
    requires CallbackSequence(cs)
  {
    if cs[0].Fails? || cs[|cs| - 1].Fails? then []
    else
      var HeadersArrive(status, headers, redirect, canServeStale) := cs[0];
      var body := Concat(ChunksOf(cs));
      if PhaseAfter(setup, status, headers, redirect, canServeStale).Exposed? &&
         !Truncated(setup, status, LengthOf(headers), |body|) &&
         Capturable(setup, status, headers) && CaptureHolds(setup.maxEntryBytes, LengthOf(headers), |body|)
      then [body] else []
  }

  // ---------------------------------------------------------------- no mixed responses

  /** Only what the network sent: its header block, its chunks, and an end of the stream. */
  predicate NetworkOnly(cs: seq<Callback>, events: seq<AppEvent>) {
    && cs != [] && cs[0].HeadersArrive? && Ended(events)
    && events == [HeadersSeen(cs[0].status, cs[0].headers)] + Bodies(ChunksOf(cs)) + [events[|events| - 1]]
  }

  /** One whole cached response and nothing else: the entry under validation, or what the
      cache made of the 304 that validated it. */
  ghost predicate WholeCached(setup: Setup, cs: seq<Callback>, events: seq<AppEvent>) {
    && cs != [] && Finishes(cs[|cs| - 1]) && setup.validation.Some?
    && var last := cs[|cs| - 1];
       || (ShowsWhole(events, setup.validation.value, last.monotonic) &&
           (if last.Fails? then StaleIfErrorTransport(last.code) && last.canServeStale
            else cs[0].HeadersArrive? && StaleIfErrorStatus(cs[0].status) && cs[0].canServeStale))
       || (last.Completes? && last.merged.Some? && cs[0].HeadersArrive? && cs[0].status == 304 &&
           ShowsWhole(events, last.merged.value, last.monotonic))
  }

  predicate LoneError(events: seq<AppEvent>) { |events| == 1 && events[0].ErrorSeen? }

  predicate IsHop(setup: Setup, cs: seq<Callback>) {
    && cs != [] && cs[0].HeadersArrive?
    && FollowsRedirect(setup, cs[0].status, cs[0].redirect) && cs[0].redirect.Followed?
  }

  /** No mixed responses: for every callback sequence the application sees the network's
      response only, or one whole cached response, or a lone error. A followed redirect
      hop is the exception the code leaves: it shows exactly the hop's body chunks, so it
      is silent if and only if the redirect response carries no body. */
  lemma NoMixedResponses(setup: Setup, cs: seq<Callback>)
    requires CallbackSequence(cs)
    ensures var events := Answer(setup, cs);
            && (!IsHop(setup, cs) ==> NetworkOnly(cs, events) || WholeCached(setup, cs, events) || LoneError(events))
            && (IsHop(setup, cs) ==> events == Bodies(ChunksOf(cs)) && (events == [] <==> ChunksOf(cs) == []))
  {
    hide Bodies, ChunksOf, CachedEvents, Concat, LengthOf, Truncated, ShowsWhole;
    BodiesLength(ChunksOf(cs));
    var last := cs[|cs| - 1];
    var monotonic := if last.Fails? then last.monotonic else if last.Completes? then last.monotonic else 0;
    if setup.validation.Some? { CachedEventsAreWhole(setup.validation.value, monotonic); }
    if last.Completes? && last.merged.Some? { CachedEventsAreWhole(last.merged.value, monotonic); }
  }

  /** Every Content-Length value is the same valid number, or there is none. */
  predicate ConsistentLength(values: seq<string>) {
    forall i :: 0 <= i < |values| ==>
      ParseContentLength(values[i]).Some? && ParseContentLength(values[i]) == ParseContentLength(values[0])
  }

  /** When the network's response is shown: always, unless a redirect is followed, the
      length fields disagree, or a revalidation is answered by a 304 or tolerates the
      failure. It ends in COMPLETE if and only if the stream completed and brought as many
      bytes as announced, where an announcement counts. */
  lemma NetworkIsShown(setup: Setup, cs: seq<Callback>)
    requires CallbackSequence(cs) && cs[0].HeadersArrive?
    requires cs[0].status / 100 != 3 || cs[0].status == 304 || !setup.followRedirects || cs[0].redirect.NotFollowed?
    requires ConsistentLength(GetAll(cs[0].headers, "content-length"))
    requires setup.validation.None? ||
             (cs[0].status != 304 && !(cs[0].status in {500, 502, 503, 504} && cs[0].canServeStale))
    ensures var last := cs[|cs| - 1];
            var values := GetAll(cs[0].headers, "content-length");
            var short :=
              && values != [] && setup.request.verb != "HEAD" && cs[0].status !in {204, 304} && cs[0].status / 100 != 1
              && ParseContentLength(values[0]) != Some(|Concat(ChunksOf(cs))|);
            Answer(setup, cs) ==
            [HeadersSeen(cs[0].status, cs[0].headers)] + Bodies(ChunksOf(cs)) +
            [if last.Fails? then ErrorSeen(last.code) else if short then ErrorSeen(-14) else CompleteSeen]
  {
    hide GetAll, ParseContentLength, Bodies, Concat, ChunksOf, CachedEvents;
  }

  /** When a stored response is shown whole: the entry under validation on a tolerated
      failure, the merge result on a 304. */
  lemma StoredIsShown(setup: Setup, cs: seq<Callback>)
    requires CallbackSequence(cs) && setup.validation.Some?
    ensures var last := cs[|cs| - 1];
            var failure := last.Fails? && last.canServeStale &&
                           (last.code in {-1, -9, -23} || -21 <= last.code <= -15);
            var held := cs[0].HeadersArrive? && ConsistentLength(GetAll(cs[0].headers, "content-length")) &&
                        (cs[0].status == 304 || (cs[0].status in {500, 502, 503, 504} && cs[0].canServeStale));
            && ((cs[0].Fails? || held) && failure ==>
                  ShowsWhole(Answer(setup, cs), setup.validation.value, last.monotonic))
            && (held && cs[0].status != 304 && last.Completes? ==>
                  ShowsWhole(Answer(setup, cs), setup.validation.value, last.monotonic))
            && (held && cs[0].status == 304 && last.Completes? && last.merged.Some? ==>
                  ShowsWhole(Answer(setup, cs), last.merged.value, last.monotonic))
  {
    hide GetAll, ParseContentLength, Bodies, Concat, ChunksOf, CachedEvents, ShowsWhole;
    var last := cs[|cs| - 1];
    var monotonic := if last.Fails? then last.monotonic else if last.Completes? then last.monotonic else 0;
    CachedEventsAreWhole(setup.validation.value, monotonic);
    if last.Completes? && last.merged.Some? { CachedEventsAreWhole(last.merged.value, monotonic); }
  }

  /** When a lone error is shown, and which: a redirect that may not be followed, length
      fields that disagree, a failure that is not tolerated, a 304 the cache refuses. */
  lemma ErrorIsShown(setup: Setup, cs: seq<Callback>)
    requires CallbackSequence(cs)
    ensures var last := cs[|cs| - 1];
            var tolerated := setup.validation.Some? && last.Fails? && last.canServeStale &&
                             (last.code in {-1, -9, -23} || -21 <= last.code <= -15);
            if cs[0].Fails? then !tolerated ==> Answer(setup, cs) == [ErrorSeen(last.code)]
            else
              var redirects := cs[0].status / 100 == 3 && cs[0].status != 304 && setup.followRedirects;
              var agree := ConsistentLength(GetAll(cs[0].headers, "content-length"));
              && (redirects && cs[0].redirect.FollowRefused? ==>
                    Answer(setup, cs) == [ErrorSeen(cs[0].redirect.code)])
              && (!(redirects && !cs[0].redirect.NotFollowed?) && !agree ==> Answer(setup, cs) == [ErrorSeen(-14)])
              && (agree && setup.validation.Some? && cs[0].status == 304 ==>
                    && (last.Fails? && !tolerated ==> Answer(setup, cs) == [ErrorSeen(last.code)])
                    && (last.Completes? && last.merged.None? ==> Answer(setup, cs) == [ErrorSeen(-8)]))
  {
    if cs[0].HeadersArrive? { LengthMeaning(cs[0].headers); }
    hide GetAll, ParseContentLength, Bodies, Concat, ChunksOf, CachedEvents, LengthOf, ConsistentLength;
  }

  /** What reaches the cache: at most one body, of a 200 response to GET that was shown
      to the end, byte for byte the chunks shown and of the length announced. */
  lemma OnlyCompleteBodiesAreKept(setup: Setup, cs: seq<Callback>)
    requires CallbackSequence(cs) && Kept(setup, cs) != []
    ensures cs[0].HeadersArrive? && cs[0].status == 200 && setup.request.verb == "GET"
    ensures var body := Concat(ChunksOf(cs));
            && Kept(setup, cs) == [body]
            && Answer(setup, cs) == [HeadersSeen(200, cs[0].headers)] + Bodies(ChunksOf(cs)) + [CompleteSeen]
            && (LengthOf(cs[0].headers).Declared? ==> |body| == LengthOf(cs[0].headers).value)
            && |body| <= setup.maxEntryBytes
  {
    hide Bodies, ChunksOf, CachedEvents, Concat, LengthOf, ShouldCapture;
  }

  /** And it does reach the cache whenever the response was captured, complete, of the
      length announced and within the limit. */
  lemma CompleteBodiesAreKept(setup: Setup, cs: seq<Callback>)
    requires CallbackSequence(cs) && cs[0].HeadersArrive? && cs[|cs| - 1].Completes?
    requires setup.hasCache && !setup.request.streaming && ShouldCapture(setup.request, cs[0].status, cs[0].headers)
    ensures var values := GetAll(cs[0].headers, "content-length");
            var body := Concat(ChunksOf(cs));
            ConsistentLength(values) && |body| <= setup.maxEntryBytes &&
            (values != [] ==> ParseContentLength(values[0]) == Some(|body|)) ==>
              Kept(setup, cs) == [body]
  {
    LengthMeaning(cs[0].headers);
    ExposedWhen200(setup, cs[0].headers, cs[0].redirect, cs[0].canServeStale);
    hide GetAll, ParseContentLength, Bodies, Concat, ChunksOf, CachedEvents, LengthOf, ShouldCapture, ConsistentLength,
         PhaseAfter, CallbackSequence;
  }

  lemma LengthMeaning(headers: HeaderList)
    ensures var values := GetAll(headers, "content-length");
            && (LengthOf(headers).Invalid? <==> !ConsistentLength(values))
            && (LengthOf(headers).Declared? <==> ConsistentLength(values) && values != [])
            && (LengthOf(headers).Declared? ==> ParseContentLength(values[0]) == Some(LengthOf(headers).value))
  {
    hide GetAll, ParseContentLength;
  }

  lemma ExposedWhen200(setup: Setup, headers: HeaderList, redirect: Redirect, canServeStale: bool)
    ensures PhaseAfter(setup, 200, headers, redirect, canServeStale).Exposed? <==> !LengthOf(headers).Invalid?
  {
    hide LengthOf;
  }

  // ---------------------------------------------------------------- the job

  class Job {
    const setup: Setup

    var status: int
    var responseHeaders: HeaderList
    var redirected: bool
    var declared: int
    var received: nat
    var capture: Option<Capture>
    var validation: Option<Validation>
    var visible: seq<AppEvent>
    var stored: seq<Bytes>

    ghost var chunks: seq<Bytes>
    ghost var phase: Phase

    /** The declared length as the integer the job keeps, -1 when there is none. */
    ghost predicate LengthKept()
      reads this
    {
      match LengthOf(responseHeaders)
      case Declared(n) => declared == n
      case _ => declared == -1
    }

    ghost predicate CaptureOk()
      reads this
    {
      && (capture.Some? <==> Capturable(setup, status, responseHeaders))
      && (capture.Some? ==>
            && capture.value.max == setup.maxEntryBytes
            && |capture.value.body| <= capture.value.max
            && (capture.value.enabled <==>
                  CaptureHolds(setup.maxEntryBytes, LengthOf(responseHeaders), |Concat(chunks)|))
            && (capture.value.enabled ==> capture.value.body == Concat(chunks)))
    }

    /** The entry under validation is still the one the job started with. */
    ghost predicate Validating()
      reads this
    {
      validation.Some? && setup.validation == Some(validation.value.stored)
    }

    ghost predicate Valid()
      reads this
    {
      (setup.validation.Some? ==> setup.hasCache) &&
      match phase
      case Waiting =>
        && visible == [] && stored == [] && chunks == [] && capture.None? && !redirected
        && received == 0 && declared == -1
        && (validation.Some? <==> setup.validation.Some?)
        && (validation.Some? ==> Validating() && !validation.value.serveStale)
      case Hop => redirected && visible == Bodies(chunks) && stored == [] && capture.None? && validation.None?
      case Refused => LoneError(visible) && stored == [] && capture.None?
      case Hidden =>
        && visible == [] && stored == [] && capture.None? && !redirected && Validating()
        && (if validation.value.serveStale then status != 304 else status == 304)
      case Exposed =>
        && !redirected && stored == [] && validation.None? && LengthKept() && CaptureOk()
        && visible == [HeadersSeen(status, responseHeaders)] + Bodies(chunks)
        && received == |Concat(chunks)|
      case Over => true
    }

    constructor (setup: Setup, candidates: seq<nat>)
      requires setup.validation.Some? ==> setup.hasCache
      ensures Valid() && phase == Waiting && this.setup == setup
    {
      this.setup := setup;
      status, responseHeaders, redirected, declared, received := 0, [], false, -1, 0;
      capture, visible, stored := None, [], [];
      validation :=
        if setup.validation.Some? then Some(Validation(setup.validation.value, candidates, [], false)) else None;
      chunks, phase := [], Waiting;
    }

    /** The registry gate: nothing reaches the application after a terminal event. */
    method Deliver(e: AppEvent)
      modifies this`visible
      ensures visible == if Ended(old(visible)) then old(visible) else old(visible) + [e]
    {
      if !Ended(visible) { visible := visible + [e]; }
    }

    method DeliverCached(r: CachedResponse, monotonic: nat)
      modifies this`visible
      ensures old(visible) == [] ==> visible == CachedEvents(r, monotonic)
      ensures Ended(old(visible)) ==> visible == old(visible)
    {
      Deliver(HeadersSeen(r.status, Without(Aged(r, monotonic), "set-cookie")));
      if r.body != [] { Deliver(BodySeen(r.body)); }
      Deliver(CompleteSeen);
    }

    method DisableCapture()
      modifies this`capture
      ensures capture.Some? == old(capture.Some?)
      ensures capture.Some? ==> !capture.value.enabled && capture.value.body == []
    {
      if capture.Some? { capture := Some(Capture(false, capture.value.max, [])); }
    }

    /** Final response header block. `redirect` is the redirect policy's answer for a
        3xx, `canServeStale` the cache's answer for the validated entry right now. */
    method OnHeaders(status': int, headers: HeaderList, redirect: Redirect, canServeStale: bool)
      requires Valid() && phase == Waiting
      modifies this
      ensures Valid() && chunks == [] && status == status' && responseHeaders == headers
      ensures phase == PhaseAfter(setup, status', headers, redirect, canServeStale)
      ensures phase == Refused ==> visible == [ErrorSeen(HeaderError(setup, status', headers, redirect).value)]
    {
      hide LengthOf, Concat, Bodies, Capturable, CaptureHolds, CaptureOk, Ended;
      NothingEnded();
      NoChunks();
      status, responseHeaders := status', headers;
      if validation.Some? && 200 <= status' < 500 && status' != 304 { validation := None; }
      if status' / 100 == 3 && status' != 304 && setup.followRedirects && !redirect.NotFollowed? {
        redirected := true;
        match redirect {
          case FollowRefused(code) =>
            Deliver(ErrorSeen(code));
            phase := Refused;
          case Followed => phase := Hop;
        }
        return;
      }
      var length := ReadContentLength(headers);
      if length.Invalid? {
        DisableCapture();
        Deliver(ErrorSeen(ERR_BODY));
        phase := Refused;
        return;
      }
      if length.Declared? { declared := length.value; }
      HoldBackOrExpose(canServeStale);
    }

    /** A 304 or a tolerable failure of a revalidation stays internal; anything else is
        shown. */
    method HoldBackOrExpose(canServeStale: bool)
      requires visible == [] && stored == [] && chunks == [] && capture.None? && !redirected && received == 0
      requires LengthKept() && (setup.validation.Some? ==> setup.hasCache)
      requires validation.Some? ==> Validating() && !validation.value.serveStale
      modifies this`validation, this`capture, this`visible, this`phase
      ensures Valid() && chunks == []
      ensures phase == if old(validation).Some? && (status == 304 || (StaleIfErrorStatus(status) && canServeStale))
                       then Hidden else Exposed
    {
      hide LengthOf, Concat, Bodies, Capturable, CaptureHolds, CaptureOk, Ended;
      if status == 304 && validation.Some? {
        validation := Some(validation.value.(responseHeaders := responseHeaders));
        phase := Hidden;
        return;
      }
      if validation.Some? && setup.hasCache && StaleIfErrorStatus(status) && canServeStale {
        validation := Some(validation.value.(serveStale := true));
        phase := Hidden;
        return;
      }
      Expose();
    }

    /** The normal path: from here on the stored candidate is out of play. */
    method Expose()
      requires visible == [] && stored == [] && chunks == [] && capture.None? && !redirected && received == 0
      requires LengthKept() && (setup.validation.Some? ==> setup.hasCache)
      modifies this`validation, this`capture, this`visible, this`phase
      ensures Valid() && phase == Exposed
    {
      hide ShouldCapture, Concat, Bodies, LengthOf;
      NoChunks();
      validation := None;
      if setup.hasCache && !setup.request.streaming && ShouldCapture(setup.request, status, responseHeaders) {
        capture := Some(Capture(!(declared >= 0 && declared > setup.maxEntryBytes), setup.maxEntryBytes, []));
      }
      Deliver(HeadersSeen(status, responseHeaders));
      phase := Exposed;
    }

    /** A chunk joins the capture, or ends it when it would grow past its bound. */
    method Capturing(data: Bytes)
      requires capture.Some? ==> CaptureOk()
      modifies this`capture, this`chunks
      ensures chunks == old(chunks) + [data]
      ensures old(CaptureOk()) ==> CaptureOk()
      ensures old(capture).None? ==> capture.None?
    {
      hide Concat, Bodies, LengthOf, Capturable;
      BodiesSnoc(chunks, data);
      chunks := chunks + [data];
      if capture.Some? && capture.value.enabled {
        var c := capture.value;
        if |data| > c.max - |c.body| {
          capture := Some(Capture(false, c.max, []));
        } else {
          capture := Some(c.(body := c.body + data));
        }
      }
    }

    method OnBody(data: Bytes)
      requires Valid() && phase in {Hop, Refused, Hidden, Exposed}
      modifies this
      ensures Valid() && phase == old(phase) && chunks == old(chunks) + [data]
      ensures status == old(status) && responseHeaders == old(responseHeaders)
      ensures phase == Refused ==> visible == old(visible)
    {
      hide Bodies, Concat, LengthOf, Capturable, CaptureHolds;
      BodiesSnoc(chunks, data);
      BodiesOpen(chunks);
      received := received + |data|;
      if validation.Some? && validation.value.serveStale {
        chunks := chunks + [data];
        return;
      }
      if validation.Some? && status == 304 {
        chunks := chunks + [data];
        return;
      }
      Capturing(data);
      Deliver(BodySeen(data));
    }

    /** End of the response. `merged` is what the cache makes of a 304. */
    method OnComplete(merged: Option<CachedResponse>, monotonic: nat)
      requires Valid() && phase in {Hop, Refused, Hidden, Exposed}
      modifies this
      ensures Valid() && phase == Over && chunks == old(chunks)
      ensures old(phase) in {Hop, Refused} ==> visible == old(visible)
      ensures old(phase) != Exposed ==> stored == []
      ensures old(phase) == Hidden ==>
                visible == if status != 304 then CachedEvents(setup.validation.value, monotonic)
                           else if merged.Some? then CachedEvents(merged.value, monotonic)
                           else [ErrorSeen(ERR_HTTP3)]
      ensures old(phase) == Exposed ==>
                var length := LengthOf(old(responseHeaders));
                var body := Concat(chunks);
                var truncated := Truncated(setup, old(status), length, |body|);
                && visible == old(visible) + [if truncated then ErrorSeen(ERR_BODY) else CompleteSeen]
                && stored == if !truncated && Capturable(setup, old(status), old(responseHeaders)) &&
                                CaptureHolds(setup.maxEntryBytes, length, |body|)
                             then [body] else []
      ensures status == old(status) && responseHeaders == old(responseHeaders)
    {
      hide Bodies, Concat, CachedEvents, LengthOf, CaptureHolds, ShouldCapture;
      BodiesOpen(chunks);
      ghost var before := phase;
      phase := Over;
      if redirected { return; }
      if validation.Some? && validation.value.serveStale {
        DeliverCached(validation.value.stored, monotonic);
        return;
      }
      if declared >= 0 && !LengthExempt(setup.request.verb, status) && received != declared {
        DisableCapture();
        Deliver(ErrorSeen(ERR_BODY));
        return;
      }
      if validation.Some? && status == 304 {
        if merged.Some? {
          DeliverCached(merged.value, monotonic);
        } else {
          Deliver(ErrorSeen(ERR_HTTP3));
        }
        return;
      }
      if setup.hasCache && capture.Some? && capture.value.enabled && !redirected && status == 200 {
        stored := stored + [capture.value.body];
      }
      Deliver(CompleteSeen);
    }

    method OnError(err: int, canServeStale: bool, monotonic: nat)
      requires Valid() && phase in {Waiting, Hop, Refused, Hidden, Exposed}
      modifies this
      ensures Valid() && phase == Over && chunks == old(chunks) && stored == []
      ensures old(phase) in {Hop, Refused} ==> visible == old(visible)
      ensures old(phase) == Exposed ==> visible == old(visible) + [ErrorSeen(err)]
      ensures old(phase) in {Waiting, Hidden} ==> visible == Failure(setup, err, canServeStale, monotonic)
    {
      hide Bodies, Concat, CachedEvents, LengthOf, Capturable, CaptureHolds;
      BodiesOpen(chunks);
      phase := Over;
      if redirected { return; }
      if validation.Some? && setup.hasCache && StaleIfErrorTransport(err) && canServeStale {
        DeliverCached(validation.value.stored, monotonic);
        return;
      }
      DisableCapture();
      Deliver(ErrorSeen(err));
    }
  }

  /** A whole job: its callbacks in place show exactly the specified answer and hand the
      cache exactly the specified bodies. */
  method Drive(job: Job, cs: seq<Callback>)
    requires job.Valid() && job.phase == Waiting && CallbackSequence(cs)
    modifies job
    ensures job.visible == Answer(job.setup, cs) && job.stored == Kept(job.setup, cs)
  {
    hide Bodies, Concat, CachedEvents, LengthOf, Capturable, CaptureHolds, Truncated, HeaderError, Failure, ChunksOf;
    if |cs| == 1 {
      job.OnError(cs[0].code, cs[0].canServeStale, cs[0].monotonic);
      return;
    }
    ghost var setup := job.setup;
    job.OnHeaders(cs[0].status, cs[0].headers, cs[0].redirect, cs[0].canServeStale);
    ghost var started, shown := job.phase, job.visible;
    ChunksSnoc(cs, 0);
    NoChunksYet(cs);
    for i := 1 to |cs| - 1
      invariant job.Valid() && job.phase == started && job.chunks == ChunksOf(cs[..i])
      invariant job.status == cs[0].status && job.responseHeaders == cs[0].headers
      invariant started == Refused ==> job.visible == shown
    {
      ChunksSnoc(cs, i);
      job.OnBody(cs[i].data);
    }
    var n := |cs| - 1;
    ChunksSnoc(cs, n);
    assert cs[..n + 1] == cs;
    match cs[n] {
      case Completes(merged, monotonic) => job.OnComplete(merged, monotonic);
      case Fails(code, canServeStale, monotonic) => job.OnError(code, canServeStale, monotonic);
    }
  }

  lemma NothingEnded()
    ensures !Ended([])
  {
  }

  lemma NoChunksYet(cs: seq<Callback>)
    ensures ChunksOf(cs[..0]) == []
  {
  }

  lemma BodiesLength(chunks: seq<Bytes>)
    ensures |Bodies(chunks)| == |chunks| && forall i :: 0 <= i < |chunks| ==> Bodies(chunks)[i] == BodySeen(chunks[i])
  {
    if chunks != [] { BodiesLength(chunks[..|chunks| - 1]); }
  }
}
