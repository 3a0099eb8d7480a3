/** The grammar of the URLs that are accepted: a text parses to a URL exactly when it is
    written from the parts of that URL. */
module UrlLaws {
  import opened Text
  import opened Url

  /** No port, or a colon and digits, leading zeros allowed, from 1 to 65535. */
  predicate PortWritten(text: string, port: nat) {
    || (text == "" && port == 0)
    || (|text| >= 2 && text[0] == ':' && IsDigits(text[1..]) && DecimalValue(text[1..]) == port && 1 <= port <= 65535)
  }

  predicate FragmentWritten(text: string) {
    text == "" || (text[0] == '#' && ValidComponent(text[1..], ":@/?"))
  }

  function QueryText(u: Url): string { if u.queryPresent then "?" + u.query else "" }

  function Written(scheme: string, u: Url, port: string, fragment: string): string {
    scheme + "://" + (HostText(u.host) + port) + (u.path + QueryText(u) + fragment)
  }

  /** `raw` spells `u`: the scheme in any case, the port and a fragment as one likes. */
  ghost predicate Spells(isIpv6: string -> bool, raw: string, u: Url) {
    exists scheme, port, fragment ::
      && raw == Written(scheme, u, port, fragment)
      && IEquals(scheme, "https") && PortWritten(port, u.port) && FragmentWritten(fragment)
  }

  // ---------------------------------------------------------------- from parts to text

  lemma PortParses(text: string, port: nat)
    requires PortWritten(text, port) && text != ""
    ensures ParsePort(text[1..]) == Some(port)
    ensures ':' !in text[1..]
  {
    hide DecimalValue;
  }

  lemma PortChars(text: string, port: nat)
    requires PortWritten(text, port)
    ensures NoneOf(text, "/?#@")
  {
    hide DecimalValue;
    forall i | 0 <= i < |text| ensures text[i] !in "/?#@" { assert i > 0 ==> text[i] == text[1..][i - 1]; }
  }

  lemma AuthorityFits(isIpv6: string -> bool, host: string, text: string, port: nat)
    requires HostAccepted(isIpv6, host) && PortWritten(text, port)
    ensures NoneOf(HostText(host) + text, "/?#@") && HostText(host) + text != ""
  {
    hide ValidComponent, PortWritten;
    PortChars(text, port);
    var h := HostText(host);
    assert NoneOf(h, "/?#@");
    assert forall i :: 0 <= i < |h + text| ==> (h + text)[i] == if i < |h| then h[i] else text[i - |h|];
  }

  lemma BracketedParses(isIpv6: string -> bool, host: string, text: string, port: nat)
    requires HostAccepted(isIpv6, host) && ':' in host && PortWritten(text, port)
    ensures ParseAuthority(isIpv6, "[" + host + "]" + text) == Some((host, port))
  {
    hide ParsePort, DecimalValue, Find, NoneOf, ValidComponent;
    AuthorityFits(isIpv6, host, text, port);
    NoAtSign("[" + host + "]" + text);
    BracketCloses(host, text);
    if text != "" { PortParses(text, port); }
  }

  lemma PlainParses(isIpv6: string -> bool, host: string, text: string, port: nat)
    requires HostAccepted(isIpv6, host) && ':' !in host && PortWritten(text, port)
    ensures ParseAuthority(isIpv6, host + text) == Some((host, port))
  {
    hide ParsePort, DecimalValue, Find, FindLast, NoneOf, ValidComponent;
    var auth := host + text;
    AuthorityFits(isIpv6, host, text, port);
    NoAtSign(auth);
    NoLeadingBracket(host);
    assert auth[0] == host[0];
    if text == "" {
      assert auth == host && auth[..|auth|] == auth;
      FindLastNone(auth, ':');
    } else {
      PortParses(text, port);
      assert auth[|host| + 1..] == text[1..] && auth[|host|] == ':';
      FindLastIs(auth, ':', |host|);
      assert auth[..|host|] == host;
    }
  }

  lemma TargetParses(u: Url, fragment: string)
    requires TargetAccepted(u.path, u.query, u.queryPresent) && FragmentWritten(fragment)
    ensures ParseTarget(u.path + QueryText(u) + fragment) == Some(Target(u.path, u.query, u.queryPresent))
  {
    hide ValidComponent, Find;
    ComponentAvoids(u.path, ":@/", '#');
    ComponentAvoids(u.path, ":@/", '?');
    ComponentAvoids(u.query, ":@/?", '#');
    var kept := u.path + QueryText(u);
    var rest := kept + fragment;
    FindIs(rest, '#', |kept|);
    assert rest[..|kept|] == kept;
    assert fragment != "" ==> rest[|kept| + 1..] == fragment[1..];
    FindIs(kept, '?', |u.path|);
    assert kept[..|u.path|] == u.path;
    assert u.queryPresent ==> kept[|u.path| + 1..] == u.query;
    assert !u.queryPresent ==> kept == u.path;
  }

  lemma SplitsAsWritten(isIpv6: string -> bool, scheme: string, auth: string, target: string)
    requires IEquals(scheme, "https") && NoneOf(auth, DELIMITERS) && (target == "" || target[0] in DELIMITERS)
    ensures ParseUrl(isIpv6, scheme + "://" + auth + target) == Assemble(isIpv6, auth, target)
  {
    hide Assemble;
    var raw := scheme + "://" + auth + target;
    forall i | 0 <= i < 5 ensures raw[i] != ':' { assert Lower(raw[i]) == Lower("https"[i]); }
    FindIs(raw, ':', 5);
    assert raw[..5] == scheme;
    assert raw[6..] == "//" + (auth + target);
    var rest := raw[8..];
    assert rest == auth + target;
    FindAnyIs(rest, DELIMITERS, |auth|);
    assert rest[..|auth|] == auth && rest[|auth|..] == target;
  }

  lemma TargetBegins(u: Url, fragment: string)
    requires TargetAccepted(u.path, u.query, u.queryPresent) && FragmentWritten(fragment)
    ensures var t := u.path + QueryText(u) + fragment; t == "" || t[0] in DELIMITERS
  {
    hide ValidComponent;
    assert DELIMITERS[0] == '/' && DELIMITERS[1] == '?' && DELIMITERS[2] == '#';
    var t := u.path + QueryText(u) + fragment;
    assert u.path != "" ==> t[0] == u.path[0];
    assert u.path == "" && !u.queryPresent ==> t == fragment;
  }

  lemma WrittenParses(isIpv6: string -> bool, scheme: string, u: Url, port: string, fragment: string)
    requires Accepted(isIpv6, u)
    requires IEquals(scheme, "https") && PortWritten(port, u.port) && FragmentWritten(fragment)
    ensures ParseUrl(isIpv6, Written(scheme, u, port, fragment)) == Some(u)
  {
    hide ParseUrl, ParseAuthority, ParseTarget, HostAccepted, TargetAccepted, PortWritten, FragmentWritten, NoneOf,
         IEquals;
    AuthorityFits(isIpv6, u.host, port, u.port);
    NoAtSign(HostText(u.host) + port);
    if ':' in u.host { BracketedParses(isIpv6, u.host, port, u.port); }
    else { PlainParses(isIpv6, u.host, port, u.port); }
    TargetParses(u, fragment);
    TargetBegins(u, fragment);
    SplitsAsWritten(isIpv6, scheme, HostText(u.host) + port, u.path + QueryText(u) + fragment);
  }

  // ---------------------------------------------------------------- from text to parts

  lemma PortIsWritten(digits: string)
    requires ParsePort(digits).Some?
    ensures PortWritten(":" + digits, ParsePort(digits).value)
  {
    hide DecimalValue;
    assert (":" + digits)[1..] == digits;
  }

  lemma AuthorityIsWritten(isIpv6: string -> bool, auth: string) returns (port: string)
    requires ColonsInIpv6(isIpv6) && ParseAuthority(isIpv6, auth).Some?
    ensures var r := ParseAuthority(isIpv6, auth).value;
            auth == HostText(r.0) + port && PortWritten(port, r.1)
  {
    hide ValidComponent, DecimalValue, ParsePort, Find, FindLast, PortWritten;
    NoPort();
    if |auth| >= 2 && auth[0] == '[' {
      var close := Find(auth, ']');
      port := auth[close + 1..];
      assert auth == "[" + auth[1..close] + "]" + port;
      if port != "" {
        assert port == ":" + auth[close + 2..];
        PortIsWritten(auth[close + 2..]);
      }
    } else {
      var colon := FindLast(auth, ':');
      port := auth[colon..];
      assert auth == auth[..colon] + port;
      if port != "" {
        assert port == ":" + auth[colon + 1..];
        PortIsWritten(auth[colon + 1..]);
      } else {
        assert auth[..colon] == auth;
      }
    }
  }

  lemma NoPort()
    ensures PortWritten("", 0)
  {
  }

  lemma TargetIsWritten(rest: string) returns (fragment: string)
    requires ParseTarget(rest).Some?
    ensures var t := ParseTarget(rest).value;
            && rest == t.path + (if t.queryPresent then "?" + t.query else "") + fragment
            && FragmentWritten(fragment)
  {
    hide ValidComponent, Find;
    var f := Find(rest, '#');
    fragment := rest[f..];
    var kept := rest[..f];
    var q := Find(kept, '?');
    assert rest == kept + fragment;
    assert fragment != "" ==> fragment[1..] == rest[f + 1..];
    assert kept == kept[..q] + kept[q..];
    if q == |kept| {
      assert kept[q..] == "" && kept + "" == kept;
    } else {
      assert kept[q..] == "?" + kept[q + 1..];
    }
  }

  lemma ParsedIsWritten(isIpv6: string -> bool, raw: string)
    requires ColonsInIpv6(isIpv6) && ParseUrl(isIpv6, raw).Some?
    ensures Spells(isIpv6, raw, ParseUrl(isIpv6, raw).value)
  {
    hide ParseAuthority, ParseTarget, FindAny, Find, PortWritten, FragmentWritten, IEquals, HostText;
    var u := ParseUrl(isIpv6, raw).value;
    var colon := Find(raw, ':');
    var rest := raw[colon + 3..];
    var authEnd := FindAny(rest, DELIMITERS);
    var port := AuthorityIsWritten(isIpv6, rest[..authEnd]);
    var fragment := TargetIsWritten(rest[authEnd..]);
    var scheme := raw[..colon];
    PutTogether(raw, colon, authEnd);
    assert raw == Written(scheme, u, port, fragment);
  }

  lemma PutTogether(raw: string, colon: nat, authEnd: nat)
    requires colon + 3 <= |raw| && raw[colon] == ':' && "//" <= raw[colon + 1..] && authEnd <= |raw| - colon - 3
    ensures raw == raw[..colon] + "://" + raw[colon + 3..][..authEnd] + raw[colon + 3..][authEnd..]
  {
    var rest := raw[colon + 3..];
    assert raw[colon + 1..][..2] == "//";
    assert raw[colon..colon + 3] == "://";
    assert raw == raw[..colon] + raw[colon..colon + 3] + rest;
  }

  /** The whole parser: a text parses to a URL exactly when the URL is acceptable and the
      text spells it. A fragment is checked and dropped; nothing else is lost. */
  lemma ParsesExactly(isIpv6: string -> bool, raw: string, u: Url)
    requires ColonsInIpv6(isIpv6)
    ensures ParseUrl(isIpv6, raw) == Some(u) <==> Accepted(isIpv6, u) && Spells(isIpv6, raw, u)
  {
    hide ParseUrl, Accepted, PortWritten, FragmentWritten, IEquals, Written;
    if ParseUrl(isIpv6, raw) == Some(u) {
      ParsedIsAccepted(isIpv6, raw);
      ParsedIsWritten(isIpv6, raw);
    }
    forall scheme, port, fragment |
      Accepted(isIpv6, u) && raw == Written(scheme, u, port, fragment) &&
      IEquals(scheme, "https") && PortWritten(port, u.port) && FragmentWritten(fragment)
      ensures ParseUrl(isIpv6, raw) == Some(u)
    {
      WrittenParses(isIpv6, scheme, u, port, fragment);
    }
  }
}
