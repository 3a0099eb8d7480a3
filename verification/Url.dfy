/** Parsing and printing of https URLs. Whether a bracketed host is an IPv6 address is
    decided by `inet_pton`, which enters as a predicate on the host. */
module Url {
  import opened Text

  const SCHEME := "https"

  datatype Url = Url(scheme: string, host: string, port: nat, path: string, query: string, queryPresent: bool)

  // ---------------------------------------------------------------- components

  predicate IsHex(c: char) { IsDigit(c) || 'A' <= c <= 'F' || 'a' <= c <= 'f' }

  predicate Unreserved(c: char) { IsAlpha(c) || IsDigit(c) || c in "-._~" }

  predicate SubDelimiter(c: char) { c in "!$&'()*+,;=" }

  predicate Allowed(c: char, extra: string) { Unreserved(c) || SubDelimiter(c) || c in extra }

  /** Allowed characters and complete percent-escapes only. */
  predicate ValidComponent(v: string, extra: string)
    decreases |v|
  {
    || v == ""
    || (if v[0] == '%' then |v| >= 3 && IsHex(v[1]) && IsHex(v[2]) && ValidComponent(v[3..], extra)
        else Allowed(v[0], extra) && ValidComponent(v[1..], extra))
  }

  method ValidUriComponent(value: string, extra: string) returns (ok: bool)
    ensures ok <==> ValidComponent(value, extra)
  {
    var i := 0;
    while i < |value|
      invariant i <= |value|
      invariant ValidComponent(value, extra) <==> ValidComponent(value[i..], extra)
    {
      var c := value[i];
      if c == '%' {
        if i + 2 >= |value| || !IsHex(value[i + 1]) || !IsHex(value[i + 2]) { return false; }
        assert value[i..][3..] == value[i + 3..];
        i := i + 3;
      } else {
        if !Unreserved(c) && !SubDelimiter(c) && c !in extra { return false; }
        assert value[i..][1..] == value[i + 1..];
        i := i + 1;
      }
    }
    return true;
  }

  /** A component holds no character outside its alphabet, escapes aside. */
  lemma {:induction false} ComponentHolds(v: string, extra: string, c: char)
    requires ValidComponent(v, extra) && c in v
    ensures Allowed(c, extra) || c == '%' || IsHex(c)
    decreases |v|
  {
    if v[0] == '%' {
      assert v == [v[0], v[1], v[2]] + v[3..];
      if c in v[3..] { ComponentHolds(v[3..], extra, c); }
    } else {
      assert v == [v[0]] + v[1..];
      if c in v[1..] { ComponentHolds(v[1..], extra, c); }
    }
  }

  // ---------------------------------------------------------------- printing

  function DefaultPort(scheme: string): nat {
    if scheme == "https" then 443 else if scheme == "http" then 80 else 443
  }

  function EffectivePort(u: Url): nat {
    if u.port != 0 then u.port else DefaultPort(u.scheme)
  }

  function HostText(host: string): string {
    if ':' in host then "[" + host + "]" else host
  }

  function Authority(u: Url): string {
    HostText(u.host) + if EffectivePort(u) == DefaultPort(u.scheme) then "" else ":" + Decimal(EffectivePort(u))
  }

  function RequestTarget(u: Url): string {
    (if u.path == "" then "/" else u.path) + if u.queryPresent then "?" + u.query else ""
  }

  function ToString(u: Url): string {
    u.scheme + "://" + Authority(u) + RequestTarget(u)
  }

  // ---------------------------------------------------------------- parsing

  function ParsePort(digits: string): Option<nat> {
    if digits == "" || !IsDigits(digits) then None
    else if 1 <= DecimalValue(digits) <= 65535 then Some(DecimalValue(digits))
    else None
  }

  /** The host and the port, 0 when none is written. */
  function ParseAuthority(isIpv6: string -> bool, auth: string): Option<(string, nat)> {
    if auth == "" || '@' in auth then None
    else if |auth| >= 2 && auth[0] == '[' then
      var close := Find(auth, ']');
      if close == |auth| || !isIpv6(auth[1..close]) || close == 1 then None
      else if close + 1 == |auth| then Some((auth[1..close], 0))
      else if auth[close + 1] != ':' then None
      else
        var port := ParsePort(auth[close + 2..]);
        if port.None? then None else Some((auth[1..close], port.value))
    else
      var colon := FindLast(auth, ':');
      var host := auth[..colon];
      if colon == |auth| then (if ValidComponent(host, "") then Some((host, 0)) else None)
      else if ':' in host then None
      else
        var port := ParsePort(auth[colon + 1..]);
        if port.None? || host == "" || !ValidComponent(host, "") then None else Some((host, port.value))
  }

  datatype Target = Target(path: string, query: string, queryPresent: bool)

  /** Path and query; a fragment is checked and dropped. */
  function ParseTarget(rest: string): Option<Target> {
    var f := Find(rest, '#');
    if f < |rest| && !ValidComponent(rest[f + 1..], ":@/?") then None
    else
      var kept := rest[..f];
      var q := Find(kept, '?');
      if !ValidComponent(kept[..q], ":@/") then None
      else if q == |kept| then Some(Target(kept, "", false))
      else if !ValidComponent(kept[q + 1..], ":@/?") then None
      else Some(Target(kept[..q], kept[q + 1..], true))
  }

  function Assemble(isIpv6: string -> bool, auth: string, rest: string): Option<Url> {
    match (ParseAuthority(isIpv6, auth), ParseTarget(rest))
    case (Some(hostPort), Some(target)) =>
      Some(Url(SCHEME, hostPort.0, hostPort.1, target.path, target.query, target.queryPresent))
    case _ => None
  }

  const DELIMITERS := "/?#"

  function ParseUrl(isIpv6: string -> bool, raw: string): Option<Url> {
    var colon := Find(raw, ':');
    if colon == |raw| || !IEquals(raw[..colon], SCHEME) then None
    else if !("//" <= raw[colon + 1..]) then None
    else
      var rest := raw[colon + 3..];
      var authEnd := FindAny(rest, DELIMITERS);
      Assemble(isIpv6, rest[..authEnd], rest[authEnd..])
  }

  // ---------------------------------------------------------------- what the parser accepts

  /** The one fact known of `inet_pton`: an IPv6 address has a colon in it. */
  ghost predicate ColonsInIpv6(isIpv6: string -> bool) { forall h :: isIpv6(h) ==> ':' in h }

  predicate NoneOf(s: string, chars: string) { forall i :: 0 <= i < |s| ==> s[i] !in chars }

  predicate HostAccepted(isIpv6: string -> bool, host: string) {
    && host != ""
    && NoneOf(host, "/?#@")
    && (if ':' in host then isIpv6(host) && ']' !in host else ValidComponent(host, ""))
  }

  predicate TargetAccepted(path: string, query: string, queryPresent: bool) {
    && (path == "" || path[0] == '/')
    && ValidComponent(path, ":@/")
    && ValidComponent(query, ":@/?")
    && (queryPresent || query == "")
  }

  predicate Accepted(isIpv6: string -> bool, u: Url) {
    && u.scheme == SCHEME
    && HostAccepted(isIpv6, u.host)
    && u.port <= 65535
    && TargetAccepted(u.path, u.query, u.queryPresent)
  }

  /** The default port left out and the empty path written "/". */
  function Canonical(u: Url): Url {
    u.(port := CanonicalPort(u.port), path := if u.path == "" then "/" else u.path)
  }

  function CanonicalPort(port: nat): nat { if port == 443 then 0 else port }

  lemma AuthorityGivesHost(isIpv6: string -> bool, auth: string)
    requires ColonsInIpv6(isIpv6) && NoneOf(auth, DELIMITERS)
    ensures var r := ParseAuthority(isIpv6, auth);
            r.Some? ==> HostAccepted(isIpv6, r.value.0) && r.value.1 <= 65535
  {
    hide ValidComponent, DecimalValue;
    if |auth| >= 2 && auth[0] == '[' {
      var close := Find(auth, ']');
      if close >= 1 {
        var host := auth[1..close];
        assert forall i :: 0 <= i < |host| ==> host[i] == auth[i + 1];
      }
    } else {
      var host := auth[..FindLast(auth, ':')];
      assert forall i :: 0 <= i < |host| ==> host[i] == auth[i];
      assert FindLast(auth, ':') == |auth| ==> ':' !in host;
    }
  }

  lemma TargetGivesPath(rest: string)
    requires rest == "" || rest[0] in DELIMITERS
    ensures var r := ParseTarget(rest);
            r.Some? ==> TargetAccepted(r.value.path, r.value.query, r.value.queryPresent)
  {
    hide ValidComponent;
    assert ValidComponent("", ":@/?") by { EmptyIsValid(":@/?"); }
    assert rest == "" || rest[0] == '/' || rest[0] == '?' || rest[0] == '#';
    var kept := rest[..Find(rest, '#')];
    assert kept == "" || kept[0] == '/' || kept[0] == '?';
    var q := Find(kept, '?');
    assert q > 0 ==> kept[..q][0] == kept[0] == '/';
    assert q == 0 ==> kept[..q] == "";
    assert kept[..|kept|] == kept;
  }

  lemma EmptyIsValid(extra: string)
    ensures ValidComponent("", extra)
  {
  }

  /** Every accepted URL has an https scheme, a usable host, a port that fits in 16 bits
      and a path that is empty or absolute. */
  lemma ParsedIsAccepted(isIpv6: string -> bool, raw: string)
    requires ColonsInIpv6(isIpv6)
    ensures var r := ParseUrl(isIpv6, raw); r.Some? ==> Accepted(isIpv6, r.value)
  {
    hide ParseAuthority, ParseTarget, HostAccepted, TargetAccepted, FindAny, Find, IEquals;
    var colon := Find(raw, ':');
    if ParseUrl(isIpv6, raw).Some? {
      var rest := raw[colon + 3..];
      var authEnd := FindAny(rest, DELIMITERS);
      AuthorityGivesHost(isIpv6, rest[..authEnd]);
      TargetGivesPath(rest[authEnd..]);
    }
  }

  // ---------------------------------------------------------------- printing, then parsing

  lemma PrintedIsSplit(isIpv6: string -> bool, auth: string, target: string)
    requires NoneOf(auth, DELIMITERS) && target != "" && target[0] == '/'
    ensures ParseUrl(isIpv6, SCHEME + "://" + auth + target) == Assemble(isIpv6, auth, target)
  {
    hide Assemble;
    var raw := SCHEME + "://" + auth + target;
    FindIs(raw, ':', 5);
    assert raw[..5] == SCHEME;
    assert raw[6..] == "//" + (auth + target);
    var rest := raw[8..];
    assert rest == auth + target;
    FindAnyIs(rest, DELIMITERS, |auth|);
    assert rest[..|auth|] == auth && rest[|auth|..] == target;
  }

  lemma DecimalPort(port: nat)
    requires 1 <= port <= 65535
    ensures ParsePort(Decimal(port)) == Some(port)
    ensures Decimal(port) != "" && forall i :: 0 <= i < |Decimal(port)| ==> IsDigit(Decimal(port)[i])
  {
    hide Decimal, DecimalValue;
  }

  function PortText(port: nat): string {
    if port == 0 || port == 443 then "" else ":" + Decimal(port)
  }

  lemma AuthorityText(u: Url)
    requires u.scheme == SCHEME
    ensures Authority(u) == HostText(u.host) + PortText(u.port)
  {
    hide Decimal, HostText;
  }

  lemma PortTextChars(port: nat)
    ensures forall i :: 0 <= i < |PortText(port)| ==> PortText(port)[i] == ':' || IsDigit(PortText(port)[i])
  {
    hide Decimal;
  }

  lemma AuthorityChars(isIpv6: string -> bool, host: string, port: nat)
    requires HostAccepted(isIpv6, host)
    ensures NoneOf(HostText(host) + PortText(port), "/?#@") && HostText(host) + PortText(port) != ""
  {
    hide PortText, ValidComponent;
    PortTextChars(port);
    var h, p := HostText(host), PortText(port);
    assert NoneOf(h, "/?#@");
    assert NoneOf(p, "/?#@");
    assert forall i :: 0 <= i < |h + p| ==> (h + p)[i] == if i < |h| then h[i] else p[i - |h|];
  }

  lemma BracketCloses(host: string, tail: string)
    requires ']' !in host && host != ""
    ensures var auth := "[" + host + "]" + tail;
            && Find(auth, ']') == |host| + 1
            && auth[1..|host| + 1] == host
            && |auth| >= 2 && auth[0] == '['
            && |auth| == |host| + 2 + |tail|
            && (tail != "" ==> auth[|host| + 2] == tail[0] && auth[|host| + 3..] == tail[1..])
  {
    hide Find;
    var auth := "[" + host + "]" + tail;
    assert forall i :: 1 <= i < |host| + 1 ==> auth[i] == host[i - 1];
    FindIs(auth, ']', |host| + 1);
  }

  lemma BracketedReadsBack(isIpv6: string -> bool, host: string, port: nat)
    requires HostAccepted(isIpv6, host) && ':' in host && port <= 65535
    ensures ParseAuthority(isIpv6, "[" + host + "]" + PortText(port)) == Some((host, CanonicalPort(port)))
  {
    hide ParsePort, Decimal, Find, NoneOf, ValidComponent;
    var tail := PortText(port);
    AuthorityChars(isIpv6, host, port);
    NoAtSign("[" + host + "]" + tail);
    BracketCloses(host, tail);
    if port != 0 && port != 443 {
      DecimalPort(port);
      assert tail[1..] == Decimal(port);
    }
  }

  lemma NoAtSign(auth: string)
    requires NoneOf(auth, "/?#@")
    ensures '@' !in auth && NoneOf(auth, DELIMITERS)
  {
  }

  lemma NoLeadingBracket(host: string)
    requires ValidComponent(host, "") && host != ""
    ensures host[0] != '['
  {
  }

  lemma PlainReadsBack(isIpv6: string -> bool, host: string, port: nat)
    requires HostAccepted(isIpv6, host) && ':' !in host && port <= 65535
    ensures ParseAuthority(isIpv6, host + PortText(port)) == Some((host, CanonicalPort(port)))
  {
    hide ParsePort, Decimal, Find, FindLast, NoneOf, ValidComponent;
    var auth := host + PortText(port);
    AuthorityChars(isIpv6, host, port);
    NoAtSign(auth);
    NoLeadingBracket(host);
    if port == 0 || port == 443 {
      assert auth == host;
      FindLastNone(auth, ':');
      assert auth[..|auth|] == host;
    } else {
      DecimalPort(port);
      assert auth[|host| + 1..] == Decimal(port);
      FindLastIs(auth, ':', |host|);
      assert auth[..|host|] == host;
    }
  }

  lemma AuthorityReadsBack(isIpv6: string -> bool, u: Url)
    requires u.scheme == SCHEME && HostAccepted(isIpv6, u.host) && u.port <= 65535
    ensures ParseAuthority(isIpv6, Authority(u)) == Some((u.host, CanonicalPort(u.port)))
    ensures NoneOf(Authority(u), DELIMITERS)
  {
    hide ParseAuthority, HostAccepted, PortText, Authority, NoneOf;
    AuthorityText(u);
    AuthorityChars(isIpv6, u.host, u.port);
    NoAtSign(Authority(u));
    if ':' in u.host { BracketedReadsBack(isIpv6, u.host, u.port); }
    else { PlainReadsBack(isIpv6, u.host, u.port); }
  }

  lemma ComponentAvoids(v: string, extra: string, c: char)
    requires ValidComponent(v, extra) && !Allowed(c, extra) && c != '%' && !IsHex(c)
    ensures c !in v
  {
    if c in v { ComponentHolds(v, extra, c); }
  }

  lemma TargetReadsBack(path: string, query: string, queryPresent: bool)
    requires TargetAccepted(path, query, queryPresent) && path != ""
    ensures ParseTarget(path + if queryPresent then "?" + query else "") == Some(Target(path, query, queryPresent))
  {
    hide ValidComponent, Find;
    ComponentAvoids(path, ":@/", '#');
    ComponentAvoids(path, ":@/", '?');
    ComponentAvoids(query, ":@/?", '#');
    var rest := path + if queryPresent then "?" + query else "";
    FindIs(rest, '#', |rest|);
    assert rest[..|rest|] == rest;
    FindIs(rest, '?', |path|);
    assert rest[..|path|] == path;
    assert queryPresent ==> rest[|path| + 1..] == query;
  }

  lemma RootIsValid()
    ensures ValidComponent("/", ":@/")
  {
    assert "/"[1..] == "";
  }

  /** Printing an accepted URL and parsing the text gives the URL back, up to writing the
      default port as absent and the empty path as "/". */
  lemma RoundTrip(isIpv6: string -> bool, u: Url)
    requires Accepted(isIpv6, u)
    ensures ParseUrl(isIpv6, ToString(u)) == Some(Canonical(u))
  {
    hide ParseUrl, ParseAuthority, ParseTarget, HostAccepted, Authority, ValidComponent, NoneOf;
    AuthorityReadsBack(isIpv6, u);
    var path := if u.path == "" then "/" else u.path;
    RootIsValid();
    TargetReadsBack(path, u.query, u.queryPresent);
    PrintedIsSplit(isIpv6, Authority(u), RequestTarget(u));
  }

  lemma CanonicalPrintsAlike(u: Url)
    requires u.scheme == SCHEME
    ensures ToString(Canonical(u)) == ToString(u)
    ensures EffectivePort(Canonical(u)) == EffectivePort(u)
    ensures Canonical(Canonical(u)) == Canonical(u)
  {
    hide HostText, Decimal;
  }

  /** For every text the parser accepts: its printed form parses to the canonical form of
      the same URL, and printing that once more changes nothing. */
  lemma PrintedFormIsCanonical(isIpv6: string -> bool, raw: string)
    requires ColonsInIpv6(isIpv6)
    ensures var r := ParseUrl(isIpv6, raw);
            r.Some? ==>
              var printed := ToString(r.value);
              var again := ParseUrl(isIpv6, printed);
              && again == Some(Canonical(r.value))
              && ToString(again.value) == printed
              && again.value.host == r.value.host
              && EffectivePort(again.value) == EffectivePort(r.value)
  {
    hide ParseUrl, ToString, Accepted;
    ParsedIsAccepted(isIpv6, raw);
    var r := ParseUrl(isIpv6, raw);
    if r.Some? {
      RoundTrip(isIpv6, r.value);
      AcceptedIsHttps(isIpv6, r.value);
      CanonicalPrintsAlike(r.value);
    }
  }

  lemma AcceptedIsHttps(isIpv6: string -> bool, u: Url)
    requires Accepted(isIpv6, u)
    ensures u.scheme == SCHEME
  {
  }
}
