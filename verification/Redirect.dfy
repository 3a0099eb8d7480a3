/** Redirect policy: resolving the Location reference, rewriting the method, and what a
    chain of followed redirects may carry along. */
module Redirect {
  import opened Text
  import opened Headers
  import opened Url
  import DotSegments

  // ---------------------------------------------------------------- references

  predicate SchemeChar(c: char) { IsAlpha(c) || IsDigit(c) || c == '+' || c == '-' || c == '.' }

  datatype SchemeKind = Malformed | Relative | Absolute

  function SchemeOf(reference: string): SchemeKind {
    var colon := Find(reference, ':');
    var delimiter := FindAny(reference, DELIMITERS);
    if colon == |reference| || (delimiter < |reference| && colon > delimiter) then Relative
    else if colon == 0 || !IsAlpha(reference[0]) then Malformed
    else if forall i :: 1 <= i < colon ==> SchemeChar(reference[i]) then Absolute
    else Malformed
  }

  method HasValidScheme(reference: string) returns (valid: bool, hasScheme: bool)
    ensures valid <==> SchemeOf(reference) != Malformed
    ensures hasScheme <==> SchemeOf(reference) == Absolute
  {
    hide Find, FindAny;
    var colon := Find(reference, ':');
    var delimiter := FindAny(reference, DELIMITERS);
    if colon == |reference| || (delimiter < |reference| && colon > delimiter) { return true, false; }
    if colon == 0 || !IsAlpha(reference[0]) { return false, false; }
    var i := 1;
    while i < colon
      invariant 1 <= i <= colon
      invariant forall j :: 1 <= j < i ==> SchemeChar(reference[j])
    {
      if !SchemeChar(reference[i]) { return false, false; }
      i := i + 1;
    }
    return true, true;
  }

  function WithoutFragment(reference: string): string { reference[..Find(reference, '#')] }

  /** The base path up to and including its last slash. */
  function Directory(path: string): string {
    var slash := FindLast(path, '/');
    if slash == |path| then "" else path[..slash + 1]
  }

  function PathOf(reference: string): string { reference[..Find(reference, '?')] }

  /** Path of a reference that has one, resolved against the base path. */
  function MergedPath(basePath: string, path: string): string
    requires path != ""
  {
    DotSegments.Resolved(if path[0] == '/' then path else Directory(basePath) + path)
  }

  function ResolveRelative(base: Url, reference: string): Option<Url> {
    var path := PathOf(reference);
    var hasQuery := |path| < |reference|;
    var query := if hasQuery then reference[|path| + 1..] else "";
    if base.scheme == "" || base.host == "" then None
    else if path != "" then Some(Url(base.scheme, base.host, base.port, MergedPath(base.path, path), query, hasQuery))
    else if hasQuery then Some(base.(query := query, queryPresent := true))
    else Some(base)
  }

  function ResolveReference(isIpv6: string -> bool, base: Url, location: string): Option<Url> {
    var reference := WithoutFragment(location);
    match SchemeOf(reference)
    case Malformed => None
    case Absolute => ParseUrl(isIpv6, reference)
    case Relative =>
      if "//" <= reference then ParseUrl(isIpv6, base.scheme + ":" + reference)
      else ResolveRelative(base, reference)
  }

  // ---------------------------------------------------------------- the decision

  datatype Decision = Decision(follow: bool, crossOrigin: bool, dropBody: bool, newUrl: string, newMethod: string)

  predicate RedirectStatus(s: int) { s in {301, 302, 303, 307, 308} }

  predicate RewritesToGet(status: int, verb: string) {
    (status == 303 && verb != "HEAD") || ((status == 301 || status == 302) && verb == "POST")
  }

  predicate SameOrigin(a: Url, b: Url) {
    a.scheme == b.scheme && a.host == b.host && EffectivePort(a) == EffectivePort(b)
  }

  function Evaluate(isIpv6: string -> bool, verb: string, from: Url, status: int, location: string,
                    autoRedirect: bool, remaining: nat): Decision {
    var stay := Decision(false, false, false, "", verb);
    if !autoRedirect || !RedirectStatus(status) || remaining == 0 || location == "" then stay
    else
      match ResolveReference(isIpv6, from, location)
      case None => stay
      case Some(to) =>
        if to.scheme != SCHEME || to.host == "" then stay
        else
          var rewrite := RewritesToGet(status, verb);
          Decision(true, !SameOrigin(from, to), rewrite || status == 303, ToString(to), if rewrite then "GET" else verb)
  }

  /** Only 301, 302 and 303 may change a request: 307 and 308 keep method and body, HEAD
      stays HEAD, a method other than POST survives 301 and 302, and a method that changes
      becomes GET without a body. */
  lemma RequestRewriting(isIpv6: string -> bool, verb: string, from: Url, status: int, location: string,
                         autoRedirect: bool, remaining: nat)
    ensures var d := Evaluate(isIpv6, verb, from, status, location, autoRedirect, remaining);
            && (d.newMethod != verb ==>
                  d.newMethod == "GET" && d.dropBody && verb != "HEAD" && status in {301, 302, 303})
            && (status == 307 || status == 308 ==> d.newMethod == verb && !d.dropBody)
            && ((status == 301 || status == 302) && verb != "POST" ==> d.newMethod == verb && !d.dropBody)
            && (d.follow && verb == "POST" && status < 307 ==> d.newMethod == "GET" && d.dropBody)
            && (d.follow && status == 303 ==> d.dropBody && (d.newMethod == "GET" || d.newMethod == "HEAD"))
            && (!autoRedirect || remaining == 0 ==> !d.follow)
  {
    hide ResolveReference, ToString, SameOrigin;
  }

  // ---------------------------------------------------------------- where the new URL points

  predicate Rooted(path: string) { path == "" || path[0] == '/' }

  /** A relative path merged with the empty base path: the printed URL then glues the path
      to the host. A caller can tell from the base URL and the Location value. */
  predicate GluesPathToHost(from: Url, location: string) {
    var reference := WithoutFragment(location);
    && from.path == ""
    && SchemeOf(reference) == Relative
    && !("//" <= reference)
    && PathOf(reference) != ""
    && !Rooted(DotSegments.Resolved(PathOf(reference)))
  }

  /** The text between "https://" and the first delimiter. */
  function AuthorityOf(text: string): string {
    if |text| < 8 then "" else text[8..][..FindAny(text[8..], DELIMITERS)]
  }

  lemma DirectoryIsRooted(path: string)
    requires path != "" && path[0] == '/'
    ensures Directory(path) != "" && Directory(path)[0] == '/'
  {
    hide FindLast;
    var slash := FindLast(path, '/');
  }

  lemma MergedIsRooted(basePath: string, path: string)
    requires path != "" && Rooted(basePath)
    requires basePath != "" || path[0] == '/'
    ensures MergedPath(basePath, path) != "" && MergedPath(basePath, path)[0] == '/'
  {
    hide DotSegments.Resolved, Directory;
    if path[0] != '/' { DirectoryIsRooted(basePath); }
    DotSegments.AbsoluteStaysAbsolute(if path[0] == '/' then path else Directory(basePath) + path);
  }

  lemma MergedWithEmpty(path: string)
    requires path != ""
    ensures MergedPath("", path) == DotSegments.Resolved(path)
  {
    hide DotSegments.Resolved;
    assert "" + path == path;
  }

  lemma RelativeTarget(isIpv6: string -> bool, from: Url, reference: string)
    requires Accepted(isIpv6, from)
    ensures var r := ResolveRelative(from, reference);
            && r.Some?
            && r.value.scheme == from.scheme && r.value.host == from.host && r.value.port == from.port
            && (Rooted(r.value.path) <==>
                !(from.path == "" && PathOf(reference) != "" && !Rooted(DotSegments.Resolved(PathOf(reference)))))
  {
    hide DotSegments.Resolved, MergedPath, PathOf, ValidComponent;
    var path := PathOf(reference);
    if path != "" {
      if from.path == "" {
        MergedWithEmpty(path);
        if path[0] == '/' { MergedIsRooted(from.path, path); }
      } else {
        MergedIsRooted(from.path, path);
      }
    }
  }

  /** What is known of the URL a reference resolves to. */
  ghost predicate ResolvedTarget(isIpv6: string -> bool, to: Url) {
    to.scheme == SCHEME && HostAccepted(isIpv6, to.host) && to.port <= 65535
  }

  lemma TargetOfReference(isIpv6: string -> bool, from: Url, location: string)
    requires ColonsInIpv6(isIpv6) && Accepted(isIpv6, from)
    ensures var r := ResolveReference(isIpv6, from, location);
            r.Some? ==> ResolvedTarget(isIpv6, r.value) && (Rooted(r.value.path) <==> !GluesPathToHost(from, location))
  {
    hide ParseUrl, ResolveRelative, SchemeOf, HostAccepted, PathOf, DotSegments.Resolved, WithoutFragment;
    var reference := WithoutFragment(location);
    ParsedIsAccepted(isIpv6, reference);
    ParsedIsAccepted(isIpv6, from.scheme + ":" + reference);
    RelativeTarget(isIpv6, from, reference);
  }

  lemma RootedTargetParses(rest: string)
    requires rest != "" && rest[0] == '/'
    ensures var r := ParseTarget(rest); r.Some? ==> r.value.path != "" && r.value.path[0] == '/'
  {
    hide ValidComponent;
    var kept := rest[..Find(rest, '#')];
    assert kept != "" && kept[0] == '/';
  }

  /** A printed URL with a rooted path reads back with the same origin, whatever its path
      and query contain. */
  lemma OriginReadsBack(isIpv6: string -> bool, to: Url)
    requires ResolvedTarget(isIpv6, to) && Rooted(to.path)
    ensures var r := ParseUrl(isIpv6, ToString(to));
            r.Some? ==> SameOrigin(r.value, to) && r.value.path != "" && r.value.path[0] == '/'
  {
    hide ParseUrl, ParseAuthority, ParseTarget, Authority, HostAccepted, NoneOf;
    AuthorityReadsBack(isIpv6, to);
    RootedTargetParses(RequestTarget(to));
    PrintedIsSplit(isIpv6, Authority(to), RequestTarget(to));
  }

  /** Whenever a followed redirect's URL parses, the origin it parses to is the one the
      cross-origin decision was made for. */
  lemma CrossOriginIsRight(isIpv6: string -> bool, verb: string, from: Url, status: int, location: string,
                           autoRedirect: bool, remaining: nat)
    requires ColonsInIpv6(isIpv6) && Accepted(isIpv6, from) && !GluesPathToHost(from, location)
    ensures var d := Evaluate(isIpv6, verb, from, status, location, autoRedirect, remaining);
            var r := ParseUrl(isIpv6, d.newUrl);
            d.follow && r.Some? ==>
              && (d.crossOrigin <==> !SameOrigin(from, r.value))
              && r.value.path != "" && r.value.path[0] == '/'
  {
    hide ParseUrl, ResolveReference, ToString, HostAccepted, GluesPathToHost;
    TargetOfReference(isIpv6, from, location);
    var to := ResolveReference(isIpv6, from, location);
    if to.Some? && ResolvedTarget(isIpv6, to.value) { OriginReadsBack(isIpv6, to.value); }
  }

  lemma PathLacksDelimiters(location: string)
    ensures var path := PathOf(WithoutFragment(location)); '?' !in path && '#' !in path
  {
    hide Find;
    var reference := WithoutFragment(location);
    var path := PathOf(reference);
    assert forall i :: 0 <= i < |path| ==> path[i] == reference[i] && reference[i] == location[i];
  }

  lemma AuthorityOfPrinted(auth: string, target: string)
    requires NoneOf(auth, DELIMITERS) && target != ""
    ensures AuthorityOf(SCHEME + "://" + auth + target) == auth <==> target[0] in DELIMITERS
  {
    hide FindAny;
    var text := SCHEME + "://" + auth + target;
    assert text[8..] == auth + target;
    var k := FindAny(auth + target, DELIMITERS);
    if target[0] in DELIMITERS {
      FindAnyIs(auth + target, DELIMITERS, |auth|);
      assert (auth + target)[..|auth|] == auth;
    } else {
      assert k != |auth|;
    }
  }

  lemma TargetStart(to: Url)
    requires Rooted(to.path) || (to.path[0] != '?' && to.path[0] != '#')
    ensures RequestTarget(to) != ""
    ensures RequestTarget(to)[0] in DELIMITERS <==> Rooted(to.path)
  {
    assert DELIMITERS[0] == '/' && DELIMITERS[1] == '?' && DELIMITERS[2] == '#';
    assert RequestTarget(to)[0] == if to.path == "" then '/' else to.path[0];
  }

  lemma GluedPathStart(from: Url, location: string)
    requires GluesPathToHost(from, location)
    ensures var r := DotSegments.Resolved(PathOf(WithoutFragment(location)));
            r != "" && r[0] != '?' && r[0] != '#'
    ensures var r := ResolveRelative(from, WithoutFragment(location));
            r.Some? ==> r.value.path == DotSegments.Resolved(PathOf(WithoutFragment(location)))
  {
    hide PathOf, WithoutFragment, DotSegments.Resolved, MergedPath;
    PathLacksDelimiters(location);
    var path := PathOf(WithoutFragment(location));
    DotSegments.NothingInvented(path, '?');
    DotSegments.NothingInvented(path, '#');
    MergedWithEmpty(path);
  }

  lemma ResolvedPathStart(isIpv6: string -> bool, from: Url, location: string)
    requires ColonsInIpv6(isIpv6) && Accepted(isIpv6, from)
    ensures var r := ResolveReference(isIpv6, from, location);
            r.Some? ==> Rooted(r.value.path) || (r.value.path[0] != '?' && r.value.path[0] != '#')
  {
    hide ParseUrl, ResolveRelative, SchemeOf, HostAccepted, PathOf, DotSegments.Resolved, WithoutFragment,
         GluesPathToHost;
    TargetOfReference(isIpv6, from, location);
    if GluesPathToHost(from, location) {
      GluedPathStart(from, location);
      GluedIsRelative(isIpv6, from, location);
    }
  }

  lemma GluedIsRelative(isIpv6: string -> bool, from: Url, location: string)
    requires GluesPathToHost(from, location)
    ensures ResolveReference(isIpv6, from, location) == ResolveRelative(from, WithoutFragment(location))
  {
    hide ParseUrl, ResolveRelative, SchemeOf, PathOf, DotSegments.Resolved, WithoutFragment;
  }

  /** The URL of a followed redirect names the host and port the decision was made for
      exactly when no relative path was merged with an empty base path. */
  lemma AuthorityKeptExactly(isIpv6: string -> bool, verb: string, from: Url, status: int, location: string,
                             autoRedirect: bool, remaining: nat)
    requires ColonsInIpv6(isIpv6) && Accepted(isIpv6, from)
    ensures var d := Evaluate(isIpv6, verb, from, status, location, autoRedirect, remaining);
            var to := ResolveReference(isIpv6, from, location);
            d.follow ==>
              to.Some? && (AuthorityOf(d.newUrl) == Authority(to.value) <==> !GluesPathToHost(from, location))
  {
    hide ParseUrl, ParseAuthority, ResolveReference, Authority, HostAccepted, GluesPathToHost, AuthorityOf,
         RequestTarget, NoneOf;
    TargetOfReference(isIpv6, from, location);
    ResolvedPathStart(isIpv6, from, location);
    var to := ResolveReference(isIpv6, from, location);
    if to.Some? && ResolvedTarget(isIpv6, to.value) {
      AuthorityReadsBack(isIpv6, to.value);
      TargetStart(to.value);
      AuthorityOfPrinted(Authority(to.value), RequestTarget(to.value));
    }
  }

  // ---------------------------------------------------------------- when a glued path is harmless

  /** The resolved path up to its first delimiter: what lands in the authority. */
  function GluedText(location: string): string {
    var path := DotSegments.Resolved(PathOf(WithoutFragment(location)));
    path[..FindAny(path, DELIMITERS)]
  }

  /** The redirect URL still names the origin decided on: no path is glued to the host, or
      what is glued writes out the default port of a URL that prints none. */
  predicate KeepsOrigin(from: Url, location: string) {
    || !GluesPathToHost(from, location)
    || (PortText(from.port) == "" && GluedText(location) != "" && GluedText(location)[0] == ':' &&
        ParsePort(GluedText(location)[1..]) == Some(443))
  }

  /** Digits appended to a port make a larger number. */
  lemma {:induction false} MoreDigits(a: string, b: string)
    requires IsDigits(a) && IsDigits(b) && b != "" && DecimalValue(a) > 0
    ensures IsDigits(a + b) && DecimalValue(a + b) > DecimalValue(a)
  {
    var n := |b| - 1;
    assert (a + b)[..|a| + n] == a + b[..n];
    if n > 0 { MoreDigits(a, b[..n]); } else { assert a + b[..n] == a; }
  }

  lemma PortParts(port: nat, digits: string)
    requires 1 <= port <= 65535 && digits != ""
    ensures ParsePort(Decimal(port) + digits) != Some(port)
  {
    hide Decimal, DecimalValue;
    var text := Decimal(port) + digits;
    if IsDigits(text) {
      assert forall i :: 0 <= i < |digits| ==> digits[i] == text[|Decimal(port)| + i];
      MoreDigits(Decimal(port), digits);
    }
  }

  /** What the parser makes of a host and port with more text glued on. */
  predicate NamesOrigin(isIpv6: string -> bool, host: string, port: nat, auth: string) {
    var r := ParseAuthority(isIpv6, auth);
    r.Some? ==> r.value.0 == host && (if r.value.1 == 0 then 443 else r.value.1) == if port == 0 then 443 else port
  }

  /** What follows the bracket of an accepted authority is a port. */
  lemma BracketedAuthority(isIpv6: string -> bool, host: string, tail: string)
    requires HostAccepted(isIpv6, host) && ':' in host && tail != ""
    requires ParseAuthority(isIpv6, "[" + host + "]" + tail).Some?
    ensures var r := ParseAuthority(isIpv6, "[" + host + "]" + tail).value;
            r.0 == host && tail[0] == ':' && ParsePort(tail[1..]) == Some(r.1)
  {
    hide Find, NoneOf, ValidComponent, ParsePort;
    BracketCloses(host, tail);
  }

  lemma GluedBracketed(isIpv6: string -> bool, host: string, port: nat, glued: string)
    requires HostAccepted(isIpv6, host) && ':' in host && port <= 65535 && glued != ""
    requires ParseAuthority(isIpv6, "[" + host + "]" + (PortText(port) + glued)).Some?
    ensures NamesOrigin(isIpv6, host, port, "[" + host + "]" + (PortText(port) + glued)) <==>
            PortText(port) == "" && glued[0] == ':' && ParsePort(glued[1..]) == Some(443)
  {
    hide ParseAuthority, HostAccepted, Decimal, ParsePort;
    var tail := PortText(port) + glued;
    BracketedAuthority(isIpv6, host, tail);
    ParsePortBounds(tail[1..]);
    if port == 0 || port == 443 {
      assert tail == glued;
    } else {
      assert tail[1..] == Decimal(port) + glued;
      PortParts(port, glued);
    }
  }

  lemma ParsePortBounds(digits: string)
    ensures ParsePort(digits).Some? ==> 1 <= ParsePort(digits).value <= 65535
  {
    hide DecimalValue;
  }

  lemma LastColon(a: string, b: string)
    ensures ':' in b ==> FindLast(a + b, ':') == |a| + FindLast(b, ':') && FindLast(b, ':') < |b|
    ensures ':' !in b && ':' !in a ==> FindLast(a + b, ':') == |a + b|
  {
    hide FindLast;
    var k := FindLast(b, ':');
    if ':' in b {
      var i :| 0 <= i < |b| && b[i] == ':';
      assert (a + b)[|a| + k + 1..] == b[k + 1..];
      FindLastIs(a + b, ':', |a| + k);
    } else if ':' !in a {
      FindLastNone(a + b, ':');
    }
  }

  lemma GluedPlain(isIpv6: string -> bool, host: string, glued: string)
    requires HostAccepted(isIpv6, host) && ':' !in host && glued != ""
    ensures ParseAuthority(isIpv6, host + glued).Some? ==>
              (NamesOrigin(isIpv6, host, 443, host + glued) <==> glued[0] == ':' && ParsePort(glued[1..]) == Some(443))
  {
    hide Find, FindLast, NoneOf, ValidComponent, ParsePort;
    var auth := host + glued;
    NoLeadingBracket(host);
    assert auth[0] == host[0];
    LastColon(host, glued);
    var k := FindLast(glued, ':');
    if ':' in glued {
      assert auth[..|host| + k] == host + glued[..k];
      ParsePortBounds(auth[|host| + k + 1..]);
      if k > 0 {
        assert (host + glued[..k])[|host|] == glued[0];
        assert auth[..|host| + k] != host;
      } else {
        assert auth[..|host|] == host && auth[|host| + 1..] == glued[1..];
      }
    } else {
      assert auth[..|auth|] == auth && auth != host;
    }
  }

  lemma GluedPlainPort(isIpv6: string -> bool, host: string, port: nat, glued: string)
    requires HostAccepted(isIpv6, host) && ':' !in host && glued != "" && 1 <= port <= 65535
    ensures ParseAuthority(isIpv6, host + ":" + Decimal(port) + glued).Some? ==>
              !NamesOrigin(isIpv6, host, port, host + ":" + Decimal(port) + glued)
  {
    hide Find, FindLast, NoneOf, ValidComponent, ParsePort, Decimal;
    var auth := host + ":" + Decimal(port) + glued;
    NoLeadingBracket(host);
    assert auth[0] == host[0];
    DecimalPort(port);
    if ':' in glued {
      LastColon(host + ":" + Decimal(port), glued);
      var k := FindLast(auth, ':');
      assert auth[..k][|host|] == ':';
    } else {
      var digits := Decimal(port) + glued;
      assert auth[|host| + 1..] == digits;
      assert ':' !in digits;
      FindLastIs(auth, ':', |host|);
      assert auth[..|host|] == host;
      PortParts(port, glued);
      ParsePortBounds(digits);
    }
  }

  lemma GluedAuthority(isIpv6: string -> bool, host: string, port: nat, glued: string)
    requires HostAccepted(isIpv6, host) && port <= 65535 && glued != ""
    requires ParseAuthority(isIpv6, HostText(host) + PortText(port) + glued).Some?
    ensures NamesOrigin(isIpv6, host, port, HostText(host) + PortText(port) + glued) <==>
            PortText(port) == "" && glued[0] == ':' && ParsePort(glued[1..]) == Some(443)
  {
    hide ParseAuthority, ParsePort, HostAccepted, Decimal, NamesOrigin, HostText, PortText;
    GluedShape(host, port, glued);
    if ':' in host {
      GluedBracketed(isIpv6, host, port, glued);
    } else if port == 0 || port == 443 {
      GluedPlain(isIpv6, host, glued);
      DefaultPortAlike(isIpv6, host, port, host + glued);
    } else {
      GluedPlainPort(isIpv6, host, port, glued);
    }
  }

  lemma GluedShape(host: string, port: nat, glued: string)
    ensures var auth := HostText(host) + PortText(port) + glued;
            && (':' in host ==> auth == "[" + host + "]" + (PortText(port) + glued))
            && (':' !in host && (port == 0 || port == 443) ==> auth == host + glued && PortText(port) == "")
            && (':' !in host && port != 0 && port != 443 ==>
                  auth == host + ":" + Decimal(port) + glued && PortText(port) != "")
  {
    hide Decimal;
  }

  lemma DefaultPortAlike(isIpv6: string -> bool, host: string, port: nat, auth: string)
    requires port == 0 || port == 443
    ensures NamesOrigin(isIpv6, host, port, auth) == NamesOrigin(isIpv6, host, 443, auth)
  {
    hide ParseAuthority;
  }

  /** Splitting a printed URL whose path is not rooted: text up to the first delimiter of
      the path joins the authority. */
  lemma GluedSplit(isIpv6: string -> bool, auth: string, path: string, rest: string)
    requires NoneOf(auth, DELIMITERS) && path != "" && (rest == "" || rest[0] == '?')
    ensures var k := FindAny(path, DELIMITERS);
            ParseUrl(isIpv6, SCHEME + "://" + auth + (path + rest)) ==
            Assemble(isIpv6, auth + path[..k], path[k..] + rest)
  {
    hide Assemble, Find, FindAny;
    var raw := SCHEME + "://" + auth + (path + rest);
    var k := FindAny(path, DELIMITERS);
    FindIs(raw, ':', 5);
    assert raw[..5] == SCHEME;
    var text := raw[8..];
    assert raw[6..] == "//" + text;
    var glued := auth + path[..k];
    assert path == path[..k] + path[k..];
    assert text == glued + (path[k..] + rest);
    assert DELIMITERS[1] == '?';
    assert forall i :: 0 <= i < |glued| ==> glued[i] == if i < |auth| then auth[i] else path[i - |auth|];
    assert |glued| < |text| ==> text[|glued|] == (path[k..] + rest)[0];
    FindAnyIs(text, DELIMITERS, |glued|);
    assert text[..|glued|] == glued && text[|glued|..] == path[k..] + rest;
  }

  /** A glued target parses to the origin decided on exactly when the glued text writes
      out the default port. */
  lemma GluedOrigin(isIpv6: string -> bool, to: Url)
    requires ResolvedTarget(isIpv6, to) && !Rooted(to.path) && to.path[0] != '?' && to.path[0] != '#'
    ensures var glued := to.path[..FindAny(to.path, DELIMITERS)];
            var r := ParseUrl(isIpv6, ToString(to));
            r.Some? ==>
              (SameOrigin(r.value, to) <==>
               PortText(to.port) == "" && glued != "" && glued[0] == ':' && ParsePort(glued[1..]) == Some(443))
  {
    hide ParseUrl, ParseAuthority, ParseTarget, HostAccepted, NoneOf, FindAny, PortText, HostText, ParsePort;
    var auth := Authority(to);
    var rest := if to.queryPresent then "?" + to.query else "";
    var k := FindAny(to.path, DELIMITERS);
    AuthorityText(to);
    AuthorityReadsBack(isIpv6, to);
    assert RequestTarget(to) == to.path + rest;
    GluedSplit(isIpv6, auth, to.path, rest);
    NotADelimiter(to.path[0]);
    assert k > 0;
    if ParseUrl(isIpv6, ToString(to)).Some? { GluedAuthority(isIpv6, to.host, to.port, to.path[..k]); }
  }

  lemma NotADelimiter(c: char)
    ensures c in DELIMITERS <==> c == '/' || c == '?' || c == '#'
  {
    assert DELIMITERS[0] == '/' && DELIMITERS[1] == '?' && DELIMITERS[2] == '#';
  }

  lemma GluedTargetIs(isIpv6: string -> bool, from: Url, location: string)
    requires Accepted(isIpv6, from) && GluesPathToHost(from, location)
    ensures var r := ResolveReference(isIpv6, from, location);
            && r.Some? && r.value.scheme == from.scheme && r.value.host == from.host && r.value.port == from.port
            && r.value.path == DotSegments.Resolved(PathOf(WithoutFragment(location)))
            && r.value.path != "" && r.value.path[0] != '?' && r.value.path[0] != '#' && !Rooted(r.value.path)
  {
    hide ParseUrl, ResolveRelative, SchemeOf, HostAccepted, PathOf, DotSegments.Resolved, WithoutFragment;
    GluedIsRelative(isIpv6, from, location);
    RelativeTarget(isIpv6, from, WithoutFragment(location));
    GluedPathStart(from, location);
  }

  /** The exact condition, for every redirect whose URL parses: the parsed URL has the
      origin of the target if and only if `KeepsOrigin`, and then and only then does the
      cross-origin decision describe the URL that is contacted. */
  lemma CrossOriginExactly(isIpv6: string -> bool, verb: string, from: Url, status: int, location: string,
                           autoRedirect: bool, remaining: nat)
    requires ColonsInIpv6(isIpv6) && Accepted(isIpv6, from)
    ensures var d := Evaluate(isIpv6, verb, from, status, location, autoRedirect, remaining);
            var r := ParseUrl(isIpv6, d.newUrl);
            var to := ResolveReference(isIpv6, from, location);
            d.follow && r.Some? ==>
              && to.Some? && (SameOrigin(r.value, to.value) <==> KeepsOrigin(from, location))
              && ((d.crossOrigin <==> !SameOrigin(from, r.value)) <==> KeepsOrigin(from, location))
  {
    hide ParseUrl, ResolveReference, ToString, HostAccepted, GluesPathToHost, ParsePort, PortText, FindAny,
         DotSegments.Resolved, PathOf, WithoutFragment, EffectivePort;
    TargetOfReference(isIpv6, from, location);
    var to := ResolveReference(isIpv6, from, location);
    if to.Some? && ResolvedTarget(isIpv6, to.value) {
      if !GluesPathToHost(from, location) {
        OriginReadsBack(isIpv6, to.value);
      } else {
        GluedTargetIs(isIpv6, from, location);
        SamePortSameEffective(from, to.value);
        GluedOrigin(isIpv6, to.value);
      }
    }
  }

  lemma SamePortSameEffective(a: Url, b: Url)
    requires a.scheme == b.scheme && a.port == b.port
    ensures EffectivePort(a) == EffectivePort(b)
  {
  }

  /** A redirect to "a" from "https://host" is taken for same-origin, and goes to the
      host "hosta". */
  lemma EmptyBasePathGlues(isIpv6: string -> bool)
    ensures var from := Url("https", "host", 0, "", "", false);
            var d := Evaluate(isIpv6, "GET", from, 302, "a", true, 1);
            && Accepted(isIpv6, from) && ParseUrl(isIpv6, "https://host") == Some(from)
            && d.follow && !d.crossOrigin && d.newUrl == "https://hosta"
            && ParseUrl(isIpv6, d.newUrl) == Some(Url("https", "hosta", 0, "", "", false))
  {
    hide ParseUrl, Find, FindAny, ValidComponent, ResolveReference, ToString, NoneOf;
    NamedHostParses(isIpv6, "host");
    NamedHostParses(isIpv6, "hosta");
    assert SCHEME + "://" + "host" == "https://host" && SCHEME + "://" + "hosta" == "https://hosta";
    LettersAreValid("host");
    EmptyIsValid(":@/");
    EmptyIsValid(":@/?");
    GluedTarget(isIpv6);
  }

  lemma GluedTarget(isIpv6: string -> bool)
    ensures var to := Url("https", "host", 0, "a", "", false);
            && ResolveReference(isIpv6, Url("https", "host", 0, "", "", false), "a") == Some(to)
            && ToString(to) == "https://hosta"
  {
    hide WithoutFragment, SchemeOf, PathOf, MergedPath, ParseUrl, Decimal;
    SingleLetterResolves();
    assert RequestTarget(Url("https", "host", 0, "a", "", false)) == "a";
    assert Authority(Url("https", "host", 0, "a", "", false)) == "host";
  }

  lemma {:induction false} LettersAreValid(v: string)
    requires forall i :: 0 <= i < |v| ==> IsAlpha(v[i])
    ensures ValidComponent(v, "") && NoneOf(v, "/?#@") && ':' !in v && '[' !in v
  {
    if v != "" { LettersAreValid(v[1..]); }
  }

  lemma NamedHostParses(isIpv6: string -> bool, host: string)
    requires host == "host" || host == "hosta"
    ensures ParseUrl(isIpv6, SCHEME + "://" + host) == Some(Url(SCHEME, host, 0, "", "", false))
  {
    hide Find, FindAny, ValidComponent, FindLast, ParseTarget;
    LettersAreValid(host);
    var raw := SCHEME + "://" + host;
    FindIs(raw, ':', 5);
    assert raw[..5] == SCHEME && raw[6..] == "//" + host && raw[8..] == host;
    FindAnyIs(host, DELIMITERS, |host|);
    assert host[..|host|] == host && host[|host|..] == "";
    FindLastNone(host, ':');
    EmptyTarget();
  }

  lemma EmptyTarget()
    ensures ParseTarget("") == Some(Target("", "", false))
  {
    EmptyIsValid(":@/");
    assert ""[..0] == "";
  }

  lemma SingleLetterResolves()
    ensures WithoutFragment("a") == "a" && SchemeOf("a") == Relative && PathOf("a") == "a"
    ensures MergedPath("", "a") == "a"
  {
    assert "a"[..1] == "a";
    MergedWithEmpty("a");
    DotSegments.SplitNoSlash("a");
    DotSegments.CleanPathIsKept("a");
  }

  // ---------------------------------------------------------------- what a reference resolves to

  /** A reference put together from a path, an optional query and an optional fragment. */
  function Reference(path: string, query: Option<string>, fragment: string): string {
    path + (if query.Some? then "?" + query.value else "") + fragment
  }

  predicate ReferenceParts(path: string, query: Option<string>, fragment: string) {
    && '?' !in path && '#' !in path && (query.Some? ==> '#' !in query.value)
    && (fragment == "" || fragment[0] == '#')
  }

  /** The reference names neither a scheme nor an authority. */
  predicate IsRelative(reference: string) { SchemeOf(reference) == Relative && !("//" <= reference) }

  lemma ReferenceSplits(path: string, query: Option<string>, fragment: string)
    requires ReferenceParts(path, query, fragment)
    ensures WithoutFragment(Reference(path, query, fragment)) == Reference(path, query, "")
    ensures var reference := Reference(path, query, "");
            PathOf(reference) == path && (|path| < |reference| <==> query.Some?) &&
            (query.Some? ==> reference[|path| + 1..] == query.value)
  {
    hide Find;
    var reference := Reference(path, query, "");
    var whole := Reference(path, query, fragment);
    assert reference == path + (if query.Some? then "?" + query.value else "");
    assert whole == reference + fragment;
    assert forall i :: 0 <= i < |reference| ==> reference[i] != '#' by {
      assert forall i :: 0 <= i < |reference| ==>
        reference[i] == if i < |path| then path[i] else if i == |path| then '?' else query.value[i - |path| - 1];
    }
    FindIs(whole, '#', |reference|);
    assert whole[..|reference|] == reference;
    FindIs(reference, '?', |path|);
    assert reference[..|path|] == path;
  }

  lemma DirectoryOf(a: string, s: string)
    requires '/' !in s
    ensures Directory(a + "/" + s) == a + "/"
  {
    hide FindLast;
    var path := a + "/" + s;
    assert path[|a| + 1..] == s;
    FindLastIs(path, '/', |a|);
    assert path[..|a| + 1] == a + "/";
  }

  lemma NoDirectory(s: string)
    requires '/' !in s
    ensures Directory(s) == ""
  {
    hide FindLast;
    FindLastNone(s, '/');
  }

  /** Section 5.2.2 of RFC 3986 for relative references, on any base: scheme, host and port
      are the base's; an empty path keeps the base's path, and its query too unless the
      reference has one; any other path replaces the query by the reference's, or none, and
      is taken from the root or from the base's last slash, dot segments removed. A fragment
      changes nothing. */
  lemma RelativeResolution(isIpv6: string -> bool, base: Url, path: string, query: Option<string>, fragment: string,
                           a: string, s: string)
    requires base.scheme != "" && base.host != ""
    requires ReferenceParts(path, query, fragment) && IsRelative(Reference(path, query, ""))
    requires '/' !in s && (base.path == a + "/" + s || (a == "" && base.path == s))
    ensures var r := ResolveReference(isIpv6, base, Reference(path, query, fragment));
            && r.Some? && r.value.scheme == base.scheme && r.value.host == base.host && r.value.port == base.port
            && (path == "" ==> r.value.path == base.path)
            && (path == "" && query.None? ==>
                  r.value.query == base.query && r.value.queryPresent == base.queryPresent)
            && (path != "" || query.Some? ==>
                  r.value.queryPresent == query.Some? && r.value.query == if query.Some? then query.value else "")
            && (path != "" && path[0] == '/' ==> r.value.path == DotSegments.Resolved(path))
            && (path != "" && path[0] != '/' ==>
                  r.value.path == DotSegments.Resolved(if base.path == s then path else a + "/" + path))
  {
    hide Find, SchemeOf, PathOf, WithoutFragment, Reference, Directory, DotSegments.Resolved;
    ReferenceSplits(path, query, fragment);
    if base.path == s {
      NoDirectory(s);
      assert "" + path == path;
    } else {
      DirectoryOf(a, s);
      assert a + "/" + path == (a + "/") + path;
    }
  }

  /** A complete reference, with or without its scheme, resolves to the URL it spells out,
      whatever the base. */
  lemma AbsoluteResolution(isIpv6: string -> bool, base: Url, u: Url, fragment: string)
    requires base.scheme == SCHEME && Accepted(isIpv6, u) && (fragment == "" || fragment[0] == '#')
    ensures ResolveReference(isIpv6, base, ToString(u) + fragment) == Some(Canonical(u))
    ensures ResolveReference(isIpv6, base, "//" + Authority(u) + RequestTarget(u) + fragment) == Some(Canonical(u))
  {
    hide ParseUrl, HostAccepted, ValidComponent, ToString, Authority, RequestTarget, SchemeOf, Find, FindAny;
    PrintedHasNoFragment(isIpv6, u);
    RoundTrip(isIpv6, u);
    var text := ToString(u);
    var noScheme := "//" + Authority(u) + RequestTarget(u);
    DropsFragment(text, fragment);
    DropsFragment(noScheme, fragment);
    PrintedIsAbsolute(u);
    assert SCHEME + ":" + noScheme == text by { PrintedText(u); }
    SlashesAreRelative(noScheme);
  }

  lemma DropsFragment(text: string, fragment: string)
    requires '#' !in text && (fragment == "" || fragment[0] == '#')
    ensures WithoutFragment(text + fragment) == text
  {
    hide Find;
    FindIs(text + fragment, '#', |text|);
    assert (text + fragment)[..|text|] == text;
  }

  lemma PrintedText(u: Url)
    requires u.scheme == SCHEME
    ensures ToString(u) == SCHEME + ":" + ("//" + Authority(u) + RequestTarget(u))
  {
    hide Authority, RequestTarget;
  }

  lemma PrintedHasNoFragment(isIpv6: string -> bool, u: Url)
    requires Accepted(isIpv6, u)
    ensures '#' !in ToString(u) && '#' !in "//" + Authority(u) + RequestTarget(u)
  {
    hide HostAccepted, ValidComponent, Authority;
    AuthorityText(u);
    AuthorityChars(isIpv6, u.host, u.port);
    ComponentAvoids(u.path, ":@/", '#');
    ComponentAvoids(u.query, ":@/?", '#');
    NoneOfHash(Authority(u));
    assert '#' !in RequestTarget(u);
  }

  lemma NoneOfHash(s: string)
    requires NoneOf(s, "/?#@")
    ensures '#' !in s
  {
  }

  lemma PrintedIsAbsolute(u: Url)
    requires u.scheme == SCHEME
    ensures SchemeOf(ToString(u)) == Absolute
  {
    hide Authority, RequestTarget, Find, FindAny;
    var text := ToString(u);
    FindIs(text, ':', 5);
    assert text[..5] == SCHEME;
    assert text[6] == '/';
    NotADelimiter('/');
    forall i | 0 <= i < 5 ensures text[i] !in DELIMITERS { NotADelimiter(text[i]); }
    NotADelimiter(':');
    FindAnyIs(text, DELIMITERS, 6);
  }

  lemma SlashesAreRelative(text: string)
    requires "//" <= text
    ensures SchemeOf(text) == Relative
  {
    hide Find, FindAny;
    NotADelimiter('/');
    FindAnyIs(text, DELIMITERS, 0);
    assert text[0] == '/';
    var colon := Find(text, ':');
  }

  /** Exactly when a redirect is followed. The scheme and host checks of the source never
      reject: the parser accepts nothing else. */
  lemma FollowsExactly(isIpv6: string -> bool, verb: string, from: Url, status: int, location: string,
                       autoRedirect: bool, remaining: nat)
    requires ColonsInIpv6(isIpv6) && Accepted(isIpv6, from)
    ensures var d := Evaluate(isIpv6, verb, from, status, location, autoRedirect, remaining);
            var to := ResolveReference(isIpv6, from, location);
            && (d.follow <==>
                  autoRedirect && remaining > 0 && status in {301, 302, 303, 307, 308} && location != "" && to.Some?)
            && (d.follow ==> d.newUrl == ToString(to.value))
            && (d.follow ==>
                  (d.crossOrigin <==>
                   from.host != to.value.host || (if from.port == 0 then 443 else from.port) !=
                                                 (if to.value.port == 0 then 443 else to.value.port)))
  {
    hide ParseUrl, ResolveReference, ToString, HostAccepted, GluesPathToHost;
    TargetOfReference(isIpv6, from, location);
    var to := ResolveReference(isIpv6, from, location);
    if to.Some? { AcceptedHostIsThere(isIpv6, to.value.host); }
  }

  lemma AcceptedHostIsThere(isIpv6: string -> bool, host: string)
    ensures HostAccepted(isIpv6, host) ==> host != ""
  {
  }

  /** The URL of a rooted target that parses asks for the very path and query of the
      target. */
  lemma TargetIsAskedFor(isIpv6: string -> bool, to: Url)
    requires ResolvedTarget(isIpv6, to) && Rooted(to.path) && '?' !in to.path && '#' !in to.path && '#' !in to.query
    ensures var r := ParseUrl(isIpv6, ToString(to));
            r.Some? ==>
              && r.value.path == (if to.path == "" then "/" else to.path)
              && r.value.queryPresent == to.queryPresent
              && r.value.query == if to.queryPresent then to.query else ""
  {
    hide ParseUrl, ParseAuthority, ParseTarget, Authority, HostAccepted, NoneOf;
    AuthorityReadsBack(isIpv6, to);
    PrintedIsSplit(isIpv6, Authority(to), RequestTarget(to));
    PlainTarget(if to.path == "" then "/" else to.path, to.query, to.queryPresent);
  }

  lemma PlainTarget(path: string, query: string, queryPresent: bool)
    requires path != "" && '?' !in path && '#' !in path && '#' !in query
    ensures var r := ParseTarget(path + if queryPresent then "?" + query else "");
            r.Some? ==> r.value == Target(path, if queryPresent then query else "", queryPresent)
  {
    hide ValidComponent, Find;
    var rest := path + if queryPresent then "?" + query else "";
    FindIs(rest, '#', |rest|);
    assert rest[..|rest|] == rest;
    FindIs(rest, '?', |path|);
    assert rest[..|path|] == path;
    assert queryPresent ==> rest[|path| + 1..] == query;
  }

  // ---------------------------------------------------------------- a whole chain

  datatype Body = NoBody | Fixed(bytes: string) | Streaming

  datatype Request = Request(verb: string, url: Url, headers: HeaderList, body: Body)

  datatype Response = Response(status: int, headers: HeaderList)

  const MAX_REDIRECTS := 10

  predicate Sensitive(h: Header) {
    || IEquals(h.name, "authorization") || IEquals(h.name, "proxy-authorization")
    || IEquals(h.name, "cookie") || IEquals(h.name, "host")
  }

  predicate DescribesBody(h: Header) {
    || IEquals(h.name, "content-length") || IEquals(h.name, "content-type")
    || IEquals(h.name, "content-encoding")
  }

  predicate Dropped(d: Decision, h: Header) {
    (d.crossOrigin && Sensitive(h)) || (d.dropBody && DescribesBody(h))
  }

  function Carried(d: Decision, headers: HeaderList): HeaderList {
    if headers == [] then []
    else (if Dropped(d, headers[0]) then [] else [headers[0]]) + Carried(d, headers[1..])
  }

  method CopyHeaders(d: Decision, headers: HeaderList) returns (carried: HeaderList)
    ensures carried == Carried(d, headers)
  {
    carried := [];
    var i := 0;
    while i < |headers|
      invariant i <= |headers|
      invariant carried + Carried(d, headers[i..]) == Carried(d, headers)
    {
      assert headers[i..][0] == headers[i] && headers[i..][1..] == headers[i + 1..];
      var rest := Carried(d, headers[i + 1..]);
      if !Dropped(d, headers[i]) {
        assert carried + ([headers[i]] + rest) == (carried + [headers[i]]) + rest;
        carried := carried + [headers[i]];
      } else {
        assert [] + rest == rest;
      }
      i := i + 1;
    }
  }

  /** The request for the next hop, when the engine follows the response. */
  function NextHop(isIpv6: string -> bool, request: Request, response: Response, followed: nat): Option<Request> {
    var remaining := if followed >= MAX_REDIRECTS then 0 else MAX_REDIRECTS - followed;
    var d := Evaluate(isIpv6, request.verb, request.url, response.status, Get(response.headers, "location"), true,
                      remaining);
    if !d.follow || (request.body == Streaming && !d.dropBody) then None
    else
      match ParseUrl(isIpv6, d.newUrl)
      case None => None
      case Some(url) =>
        Some(Request(d.newMethod, url, Carried(d, request.headers), if d.dropBody then NoBody else request.body))
  }

  /** The requests sent when the origin servers answer with `responses`. */
  function Chain(isIpv6: string -> bool, request: Request, responses: seq<Response>, followed: nat): (r: seq<Request>)
    ensures |r| >= 1 && r[0] == request
    decreases |responses|
  {
    if responses == [] then [request]
    else
      match NextHop(isIpv6, request, responses[0], followed)
      case None => [request]
      case Some(next) => [request] + Chain(isIpv6, next, responses[1..], followed + 1)
  }

  /** What a later request may still share with the first. */
  ghost predicate MayFollow(isIpv6: string -> bool, first: Request, later: Request) {
    && Accepted(isIpv6, later.url)
    && (later.verb == first.verb || later.verb == "GET")
    && (later.body != NoBody ==> later.body == first.body && later.verb == first.verb)
    && (forall h :: h in later.headers ==> h in first.headers)
    && (forall h :: h in later.headers && Sensitive(h) ==> SameOrigin(later.url, first.url))
  }

  lemma {:induction false} CarriedHolds(d: Decision, headers: HeaderList, h: Header)
    requires h in Carried(d, headers)
    ensures h in headers && !Dropped(d, h)
  {
    if headers != [] && h in Carried(d, headers[1..]) { CarriedHolds(d, headers[1..], h); }
  }

  ghost predicate SafeStart(request: Request, responses: seq<Response>) {
    request.url.path != "" || responses == [] ||
    !GluesPathToHost(request.url, Get(responses[0].headers, "location"))
  }

  lemma HopMayFollow(isIpv6: string -> bool, request: Request, response: Response, followed: nat)
    requires ColonsInIpv6(isIpv6) && Accepted(isIpv6, request.url)
    requires !GluesPathToHost(request.url, Get(response.headers, "location"))
    ensures var next := NextHop(isIpv6, request, response, followed);
            next.Some? ==>
              MayFollow(isIpv6, request, next.value) && next.value.url.path != "" && followed < MAX_REDIRECTS
  {
    hide ParseUrl, ResolveReference, ToString, Accepted, GluesPathToHost, Carried, Sensitive, DescribesBody, Get,
         SameOrigin;
    var location := Get(response.headers, "location");
    var remaining := if followed >= MAX_REDIRECTS then 0 else MAX_REDIRECTS - followed;
    var d := Evaluate(isIpv6, request.verb, request.url, response.status, location, true, remaining);
    ParsedIsAccepted(isIpv6, d.newUrl);
    CrossOriginIsRight(isIpv6, request.verb, request.url, response.status, location, true, remaining);
    forall h | h in Carried(d, request.headers)
      ensures h in request.headers && !Dropped(d, h)
    {
      CarriedHolds(d, request.headers, h);
    }
    var next := NextHop(isIpv6, request, response, followed);
    if next.Some? { OriginSymmetric(request.url, next.value.url); }
  }

  lemma OriginSymmetric(a: Url, b: Url)
    ensures SameOrigin(a, b) <==> SameOrigin(b, a)
  {
  }

  lemma MayFollowTwice(isIpv6: string -> bool, a: Request, b: Request, c: Request)
    requires MayFollow(isIpv6, a, b) && MayFollow(isIpv6, b, c)
    ensures MayFollow(isIpv6, a, c)
  {
    hide Accepted, Sensitive;
  }

  lemma MayFollowItself(isIpv6: string -> bool, a: Request)
    requires Accepted(isIpv6, a.url)
    ensures MayFollow(isIpv6, a, a)
  {
    hide Accepted, Sensitive;
  }

  lemma RootedNeverGlues(from: Url, location: string)
    requires from.path != ""
    ensures !GluesPathToHost(from, location)
  {
  }

  /** Over a whole chain of redirects: at most ten hops are followed; the method is the
      original one or GET; a body is only ever resent unchanged with the original method;
      no header appears that the first request did not have; and a request that still has
      one of its credentials goes to the origin of the first request. */
  lemma {:induction false} ChainIsSafe(isIpv6: string -> bool, request: Request, responses: seq<Response>,
                                       followed: nat)
    requires ColonsInIpv6(isIpv6) && Accepted(isIpv6, request.url) && SafeStart(request, responses)
    requires followed <= MAX_REDIRECTS
    ensures var chain := Chain(isIpv6, request, responses, followed);
            && |chain| <= 1 + MAX_REDIRECTS - followed
            && forall k :: 0 <= k < |chain| ==> MayFollow(isIpv6, request, chain[k])
    decreases |responses|
  {
    hide NextHop, MayFollow, Accepted, GluesPathToHost, Get;
    MayFollowItself(isIpv6, request);
    if responses != [] {
      var location := Get(responses[0].headers, "location");
      if request.url.path != "" { RootedNeverGlues(request.url, location); }
      HopMayFollow(isIpv6, request, responses[0], followed);
      var next := NextHop(isIpv6, request, responses[0], followed);
      if next.Some? {
        MayFollowAccepted(isIpv6, request, next.value);
        ChainIsSafe(isIpv6, next.value, responses[1..], followed + 1);
        var rest := Chain(isIpv6, next.value, responses[1..], followed + 1);
        forall k | 0 <= k < |rest| ensures MayFollow(isIpv6, request, rest[k]) {
          MayFollowTwice(isIpv6, request, next.value, rest[k]);
        }
      }
    }
  }

  lemma MayFollowAccepted(isIpv6: string -> bool, a: Request, b: Request)
    requires MayFollow(isIpv6, a, b)
    ensures Accepted(isIpv6, b.url)
  {
  }
}
