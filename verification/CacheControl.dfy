/** Cache-Control parsing: delta-seconds, the quote-aware list splitter and the
    directives the cache acts on. */
module CacheControl {
  import opened Text
  import opened Headers

  const UINT64_MAX: nat := 0xFFFF_FFFF_FFFF_FFFF

  // ---------------------------------------------------------------- delta-seconds

  /** Section 1.2.2 of RFC 9111: a decimal number of seconds, with every value too
      large to represent standing for the largest one. */
  function DeltaSeconds(value: string): Option<nat> {
    var t := TrimOws(value);
    if t == [] || !IsDigits(t) then None
    else Some(if DecimalValue(t) <= UINT64_MAX then DecimalValue(t) else UINT64_MAX)
  }

  lemma DecimalAppend(s: string, c: char)
    requires IsDigits(s) && IsDigit(c)
    ensures IsDigits(s + [c]) && DecimalValue(s + [c]) == 10 * DecimalValue(s) + DigitValue(c)
  {
    assert (s + [c])[..|s|] == s;
  }

  method ParseDeltaSeconds(raw: string) returns (r: Option<nat>)
    ensures r == DeltaSeconds(raw)
  {
    hide DecimalValue, TrimOws;
    var value := TrimOws(raw);
    if value == [] { return None; }
    var result := 0;
    var saturated := false;
    DecimalEmpty();
    assert value[..0] == [];
    for i := 0 to |value|
      invariant IsDigits(value[..i])
      invariant !saturated ==> result == DecimalValue(value[..i]) && result <= UINT64_MAX
      invariant saturated ==> result == UINT64_MAX && DecimalValue(value[..i]) > UINT64_MAX
    {
      var c := value[i];
      if !('0' <= c <= '9') {
        return None;
      }
      assert value[..i + 1] == value[..i] + [c];
      DecimalAppend(value[..i], c);
      if !saturated {
        var digit := DigitValue(c);
        if result > (UINT64_MAX - digit) / 10 {
          result := UINT64_MAX;
          saturated := true;
        } else {
          result := result * 10 + digit;
        }
      }
    }
    assert value[..|value|] == value;
    return Some(result);
  }

  lemma DecimalEmpty()
    ensures DecimalValue([]) == 0
  {
  }

  // ---------------------------------------------------------------- list splitting

  datatype Quoting = Plain | Quoted | Escaped

  function NextQuoting(q: Quoting, c: char): Quoting {
    match q
    case Plain => if c == '"' then Quoted else Plain
    case Quoted => if c == '\\' then Escaped else if c == '"' then Plain else Quoted
    case Escaped => Quoted
  }

  /** Quoting state after reading `s`. */
  function After(q: Quoting, s: string): Quoting
    decreases s
  {
    if s == [] then q else After(NextQuoting(q, s[0]), s[1..])
  }

  /** `s` read from state `q` holds no comma that would separate list members. */
  predicate NoSeparator(q: Quoting, s: string)
    decreases s
  {
    s != [] ==> !(q == Plain && s[0] == ',') && NoSeparator(NextQuoting(q, s[0]), s[1..])
  }

  /** The comma-separated members of a field value; commas inside quoted strings
      do not separate. */
  function SplitList(q: Quoting, s: string): (parts: seq<string>)
    ensures |parts| >= 1
    decreases s
  {
    if s == [] then [[]]
    else if q == Plain && s[0] == ',' then [[]] + SplitList(Plain, s[1..])
    else
      var rest := SplitList(NextQuoting(q, s[0]), s[1..]);
      [[s[0]] + rest[0]] + rest[1..]
  }

  function JoinList(parts: seq<string>): string
    requires |parts| >= 1
  {
    if |parts| == 1 then parts[0] else parts[0] + "," + JoinList(parts[1..])
  }

  /** Splitting loses nothing: joining the members gives the field value back. */
  lemma {:induction false} JoinOfSplit(q: Quoting, s: string)
    ensures JoinList(SplitList(q, s)) == s
    decreases s
  {
    if s != [] {
      if q == Plain && s[0] == ',' {
        JoinOfSplit(Plain, s[1..]);
        var rest := SplitList(Plain, s[1..]);
        assert ([[]] + rest)[1..] == rest;
        assert [] + "," + JoinList(rest) == s;
      } else {
        var q' := NextQuoting(q, s[0]);
        JoinOfSplit(q', s[1..]);
        var rest := SplitList(q', s[1..]);
        var parts := [[s[0]] + rest[0]] + rest[1..];
        if |rest| > 1 {
          assert parts[1..] == rest[1..];
          assert [s[0]] + rest[0] + "," + JoinList(rest[1..]) == [s[0]] + JoinList(rest);
        }
      }
    }
  }

  lemma {:induction false} SplitPrefix(q: Quoting, part: string, rest: string)
    requires NoSeparator(q, part) && After(q, part) == Plain
    ensures SplitList(q, part + "," + rest) == [part] + SplitList(Plain, rest)
    decreases part
  {
    if part == [] {
      assert part + "," + rest == "," + rest;
      assert ("," + rest)[1..] == rest;
    } else {
      var s := part + "," + rest;
      assert s[1..] == part[1..] + "," + rest;
      SplitPrefix(NextQuoting(q, part[0]), part[1..], rest);
      assert [part[0]] + part[1..] == part;
    }
  }

  lemma {:induction false} SplitLast(q: Quoting, part: string)
    requires NoSeparator(q, part)
    ensures SplitList(q, part) == [part]
    decreases part
  {
    if part != [] {
      SplitLast(NextQuoting(q, part[0]), part[1..]);
      assert [part[0]] + part[1..] == part;
    }
  }

  predicate Closed(part: string) { NoSeparator(Plain, part) && After(Plain, part) == Plain }

  /** Joining is undone by splitting when every member closes its quoted strings. */
  lemma {:induction false} SplitOfJoin(parts: seq<string>)
    requires |parts| >= 1 && forall i :: 0 <= i < |parts| ==> Closed(parts[i])
    ensures SplitList(Plain, JoinList(parts)) == parts
  {
    if |parts| == 1 {
      SplitLast(Plain, parts[0]);
    } else {
      SplitOfJoin(parts[1..]);
      SplitPrefix(Plain, parts[0], JoinList(parts[1..]));
    }
  }

  function Prepend(w: string, parts: seq<string>): seq<string>
    requires |parts| >= 1
  {
    [w + parts[0]] + parts[1..]
  }

  function QuotingOf(quoted: bool, escaped: bool): Quoting {
    if !quoted then Plain else if escaped then Escaped else Quoted
  }

  lemma SplitStep(s: string, i: nat, q: Quoting, w: string)
    requires i < |s|
    ensures var rest := SplitList(q, s[i..]);
            if q == Plain && s[i] == ',' then Prepend(w, rest) == [w] + SplitList(Plain, s[i + 1..])
            else Prepend(w, rest) == Prepend(w + [s[i]], SplitList(NextQuoting(q, s[i]), s[i + 1..]))
  {
    assert s[i..][0] == s[i] && s[i..][1..] == s[i + 1..];
    if q == Plain && s[i] == ',' {
      var tail := SplitList(Plain, s[i + 1..]);
      assert w + [] == w && ([[]] + tail)[1..] == tail;
    } else {
      var tail := SplitList(NextQuoting(q, s[i]), s[i + 1..]);
      assert w + ([s[i]] + tail[0]) == w + [s[i]] + tail[0];
    }
  }

  lemma SplitEnd(s: string, q: Quoting, w: string)
    ensures Prepend(w, SplitList(q, s[|s|..])) == [w]
  {
    assert s[|s|..] == [] && w + [] == w;
  }

  lemma PrependNothing(parts: seq<string>)
    requires |parts| >= 1
    ensures Prepend([], parts) == parts
  {
    assert [] + parts[0] == parts[0];
  }

  method SplitDirectives(field: string) returns (directives: seq<string>)
    ensures directives == SplitList(Plain, field)
  {
    hide SplitList, Prepend, NextQuoting;
    directives := [];
    var begin := 0;
    var quoted, escaped := false, false;
    assert field[0..] == field && field[0..0] == [];
    PrependNothing(SplitList(Plain, field));
    for i := 0 to |field|
      invariant 0 <= begin <= i && (escaped ==> quoted)
      invariant SplitList(Plain, field) ==
                directives + Prepend(field[begin..i], SplitList(QuotingOf(quoted, escaped), field[i..]))
    {
      var c := field[i];
      var q := QuotingOf(quoted, escaped);
      SplitStep(field, i, q, field[begin..i]);
      NextQuotingCases(q, c);
      assert field[begin..i] + [c] == field[begin..i + 1];
      if quoted {
        if escaped {
          escaped := false;
        } else if c == '\\' {
          escaped := true;
        } else if c == '"' {
          quoted := false;
        }
      } else if c == '"' {
        quoted := true;
      } else if c == ',' {
        PrependNothing(SplitList(Plain, field[i + 1..]));
        assert field[i + 1..i + 1] == [];
        assert directives + ([field[begin..i]] + SplitList(Plain, field[i + 1..])) ==
               (directives + [field[begin..i]]) + SplitList(Plain, field[i + 1..]);
        directives := directives + [field[begin..i]];
        begin := i + 1;
      }
    }
    SplitEnd(field, QuotingOf(quoted, escaped), field[begin..|field|]);
    assert field[begin..|field|] == field[begin..];
    directives := directives + [field[begin..]];
  }

  lemma NextQuotingCases(q: Quoting, c: char)
    ensures q == Plain ==> NextQuoting(q, c) == if c == '"' then Quoted else Plain
    ensures q == Quoted ==> NextQuoting(q, c) == if c == '\\' then Escaped else if c == '"' then Plain else Quoted
    ensures q == Escaped ==> NextQuoting(q, c) == Quoted
  {
  }

  // ---------------------------------------------------------------- one directive

  datatype Directive = Directive(name: string, hasValue: bool, value: string, valueValid: bool)

  /** The text of a quoted string (quotes removed) without its backslashes, or
      nothing when it holds a bare control character or ends in a lone backslash. */
  function Unescape(s: string, escaped: bool): Option<string>
    decreases |s|
  {
    if s == [] then if escaped then None else Some([])
    else if !escaped && s[0] == '\\' then Unescape(s[1..], true)
    else if !escaped && (s[0] < ' ' || s[0] == '\U{7F}') then None
    else
      var rest := Unescape(s[1..], false);
      if rest.Some? then Some([s[0]] + rest.value) else None
  }

  function ParseDirective(raw: string): Directive {
    var r := TrimOws(raw);
    var equals := Find(r, '=');
    var name := TrimOws(r[..equals]);
    if equals == |r| then Directive(name, false, [], true)
    else
      var value := TrimOws(r[equals + 1..]);
      if value == [] then Directive(name, true, [], false)
      else if value[0] != '"' then Directive(name, true, value, true)
      else if |value| < 2 || value[|value| - 1] != '"' then Directive(name, true, [], false)
      else
        var text := Unescape(value[1..|value| - 1], false);
        Directive(name, true, if text.Some? then text.value else [], text.Some?)
  }

  /** The unescaping loop; on failure `text` keeps what was read so far. */
  method UnescapeQuoted(value: string) returns (text: string, valid: bool)
    requires |value| >= 2
    ensures valid == Unescape(value[1..|value| - 1], false).Some?
    ensures valid ==> text == Unescape(value[1..|value| - 1], false).value
  {
    hide Unescape;
    text, valid := [], true;
    var escaped := false;
    ghost var s := value[1..|value| - 1];
    assert s == s[0..];
    for i := 1 to |value| - 1
      invariant valid
      invariant Unescape(s, false).Some? <==> Unescape(s[i - 1..], escaped).Some?
      invariant Unescape(s, false).Some? ==>
                  Unescape(s, false).value == text + Unescape(s[i - 1..], escaped).value
    {
      var c := value[i];
      UnescapeStep(s, i - 1, escaped);
      if escaped {
        text := text + [c];
        escaped := false;
      } else if c == '\\' {
        escaped := true;
      } else {
        if c < ' ' || c == '\U{7F}' {
          valid := false;
          return;
        }
        text := text + [c];
      }
    }
    UnescapeStep(s, |s|, escaped);
    if escaped { valid := false; }
  }

  lemma UnescapeStep(s: string, i: nat, escaped: bool)
    requires i <= |s|
    ensures i == |s| ==> Unescape(s[i..], escaped) == if escaped then None else Some([])
    ensures i < |s| ==>
              Unescape(s[i..], escaped) ==
              if !escaped && s[i] == '\\' then Unescape(s[i + 1..], true)
              else if !escaped && (s[i] < ' ' || s[i] == '\U{7F}') then None
              else
                var rest := Unescape(s[i + 1..], false);
                if rest.Some? then Some([s[i]] + rest.value) else None
  {
    if i < |s| { assert s[i..][1..] == s[i + 1..]; }
  }

  // ---------------------------------------------------------------- rendered directives read back

  function EscapeText(v: string): string {
    if v == [] then []
    else (if v[0] == '\\' || v[0] == '"' || v[0] < ' ' || v[0] == '\U{7F}' then "\\" + [v[0]] else [v[0]]) +
         EscapeText(v[1..])
  }

  /** `name="value"` with the value as a quoted string. */
  function Render(name: string, value: string): string {
    name + "=" + ("\"" + EscapeText(value) + "\"")
  }

  predicate PlainName(name: string) {
    && name != [] && !IsOws(name[0]) && !IsOws(name[|name| - 1])
    && '=' !in name && '"' !in name && ',' !in name
  }

  lemma {:induction false} UnescapeOfEscape(v: string)
    ensures Unescape(EscapeText(v), false) == Some(v)
  {
    if v != [] {
      UnescapeOfEscape(v[1..]);
      var e, tail := EscapeText(v), EscapeText(v[1..]);
      if v[0] == '\\' || v[0] == '"' || v[0] < ' ' || v[0] == '\U{7F}' {
        assert e[1..] == [v[0]] + tail && e[1..][1..] == tail;
      } else {
        assert e[1..] == tail;
      }
      assert [v[0]] + v[1..] == v;
    }
  }

  lemma Trimmed(s: string)
    requires s != [] && !IsOws(s[0]) && !IsOws(s[|s| - 1])
    ensures TrimOws(s) == s
  {
  }

  /** Every value, however odd its characters, reads back from its quoted form. */
  lemma DirectiveRoundTrip(name: string, value: string)
    requires PlainName(name)
    ensures ParseDirective(Render(name, value)) == Directive(name, true, value, true)
  {
    hide TrimOws, Find, EscapeText, Unescape;
    var q := "\"" + EscapeText(value) + "\"";
    var r := Render(name, value);
    Trimmed(r);
    Trimmed(name);
    Trimmed(q);
    assert forall i :: 0 <= i < |name| ==> r[i] == name[i];
    FindIs(r, '=', |name|);
    assert r[..|name|] == name && r[|name| + 1..] == q;
    assert q[1..|q| - 1] == EscapeText(value);
    UnescapeOfEscape(value);
  }

  lemma {:induction false} AfterAppend(q: Quoting, a: string, b: string)
    ensures After(q, a + b) == After(After(q, a), b)
    ensures NoSeparator(q, a + b) <==> NoSeparator(q, a) && NoSeparator(After(q, a), b)
    decreases a
  {
    if a == [] {
      assert a + b == b;
    } else {
      assert (a + b)[1..] == a[1..] + b;
      AfterAppend(NextQuoting(q, a[0]), a[1..], b);
    }
  }

  lemma {:induction false} NameStaysPlain(s: string)
    requires '"' !in s && ',' !in s
    ensures After(Plain, s) == Plain && NoSeparator(Plain, s)
  {
    if s != [] { NameStaysPlain(s[1..]); }
  }

  lemma {:induction false} EscapedStaysQuoted(v: string)
    ensures After(Quoted, EscapeText(v)) == Quoted && NoSeparator(Quoted, EscapeText(v))
  {
    if v != [] {
      EscapedStaysQuoted(v[1..]);
      var e, tail := EscapeText(v), EscapeText(v[1..]);
      if v[0] == '\\' || v[0] == '"' || v[0] < ' ' || v[0] == '\U{7F}' {
        assert e[1..] == [v[0]] + tail && e[1..][1..] == tail;
      } else {
        assert e[1..] == tail;
      }
    }
  }

  lemma RenderedIsClosed(name: string, value: string)
    requires PlainName(name)
    ensures Closed(Render(name, value))
  {
    hide After, NoSeparator, EscapeText;
    var e := EscapeText(value);
    NameStaysPlain(name + "=");
    EscapedStaysQuoted(value);
    OpenQuote();
    AfterAppend(Quoted, e, "\"");
    AfterAppend(Plain, "\"", e + "\"");
    assert "\"" + (e + "\"") == "\"" + e + "\"";
    AfterAppend(Plain, name + "=", "\"" + e + "\"");
  }

  lemma OpenQuote()
    ensures After(Plain, "\"") == Quoted && After(Quoted, "\"") == Plain
    ensures NoSeparator(Plain, "\"") && NoSeparator(Quoted, "\"")
  {
    assert "\""[1..] == [];
  }

  /** A rendered directive list reads back member by member: no quoted comma or
      quote ever shifts a boundary. */
  lemma DirectiveListRoundTrip(names: seq<string>, values: seq<string>)
    requires |names| == |values| >= 1 && forall i :: 0 <= i < |names| ==> PlainName(names[i])
    ensures var rendered := seq(|names|, i requires 0 <= i < |names| => Render(names[i], values[i]));
            var parts := SplitList(Plain, JoinList(rendered));
            |parts| == |names| &&
            forall i :: 0 <= i < |names| ==> ParseDirective(parts[i]) == Directive(names[i], true, values[i], true)
  {
    hide ParseDirective, Render, SplitList, JoinList, Closed, PlainName;
    var rendered := seq(|names|, i requires 0 <= i < |names| => Render(names[i], values[i]));
    forall i | 0 <= i < |names|
      ensures Closed(rendered[i]) && ParseDirective(rendered[i]) == Directive(names[i], true, values[i], true)
    {
      RenderedIsClosed(names[i], values[i]);
      DirectiveRoundTrip(names[i], values[i]);
    }
    SplitOfJoin(rendered);
  }

  // ---------------------------------------------------------------- the directives the cache acts on

  datatype Control = Control(
    noStore: bool, noCache: bool, mustRevalidate: bool, isPrivate: bool,
    maxAge: Option<nat>, staleIfError: Option<nat>, invalid: bool, conflictingMaxAge: bool)

  const NO_CONTROL := Control(false, false, false, false, None, None, false, false)

  /** Seconds of a numeric directive, or nothing when it is malformed. */
  function Numeric(d: Directive): Option<nat> {
    if d.hasValue && d.valueValid then DeltaSeconds(d.value) else None
  }

  predicate IsNamed(d: Directive, name: string) { IEquals(d.name, name) }

  function Apply(c: Control, d: Directive): Control {
    if IsNamed(d, "no-store") then c.(noStore := true)
    else if IsNamed(d, "no-cache") then c.(noCache := true)
    else if IsNamed(d, "must-revalidate") then c.(mustRevalidate := true)
    else if IsNamed(d, "private") then c.(isPrivate := true)
    else if IsNamed(d, "max-age") then
      match Numeric(d)
      case None => c.(invalid := true)
      case Some(v) =>
        if c.maxAge.None? then c.(maxAge := Some(v))
        else if c.maxAge.value != v then c.(conflictingMaxAge := true)
        else c
    else if IsNamed(d, "stale-if-error") then
      match Numeric(d)
      case None => c.(invalid := true)
      case Some(v) => if c.staleIfError.None? then c.(staleIfError := Some(v)) else c
    else c
  }

  function ApplyAll(ds: seq<Directive>): Control {
    if ds == [] then NO_CONTROL else Apply(ApplyAll(ds[..|ds| - 1]), ds[|ds| - 1])
  }

  function Directives(fields: seq<string>): seq<Directive> {
    if fields == [] then []
    else
      var parts := SplitList(Plain, fields[0]);
      seq(|parts|, i requires 0 <= i < |parts| => ParseDirective(parts[i])) + Directives(fields[1..])
  }

  function ParseCacheControl(headers: HeaderList): Control {
    ApplyAll(Directives(GetAll(headers, "cache-control")))
  }

  lemma NamesDiffer(d: Directive)
    ensures IsNamed(d, "max-age") ==>
              !IsNamed(d, "no-store") && !IsNamed(d, "no-cache") && !IsNamed(d, "must-revalidate") &&
              !IsNamed(d, "private") && !IsNamed(d, "stale-if-error")
    ensures IsNamed(d, "stale-if-error") ==>
              !IsNamed(d, "no-store") && !IsNamed(d, "no-cache") && !IsNamed(d, "must-revalidate") &&
              !IsNamed(d, "private")
    ensures IsNamed(d, "no-cache") || IsNamed(d, "must-revalidate") ==> !IsNamed(d, "no-store")
    ensures IsNamed(d, "must-revalidate") ==> !IsNamed(d, "no-cache")
    ensures IsNamed(d, "private") ==>
              !IsNamed(d, "no-store") && !IsNamed(d, "no-cache") && !IsNamed(d, "must-revalidate")
  {
    if |d.name| == 7 { assert Lower("max-age"[0]) != Lower("private"[0]); }
    if |d.name| == 8 { assert Lower("no-store"[3]) != Lower("no-cache"[3]); }
  }

  predicate ValidMaxAge(d: Directive) { IsNamed(d, "max-age") && Numeric(d).Some? }

  predicate Malformed(d: Directive) {
    (IsNamed(d, "max-age") || IsNamed(d, "stale-if-error")) && Numeric(d).None?
  }

  predicate HasDirective(ds: seq<Directive>, name: string) { exists i :: 0 <= i < |ds| && IsNamed(ds[i], name) }

  lemma HasDirectiveSnoc(ds: seq<Directive>, name: string)
    requires ds != []
    ensures HasDirective(ds, name) <==> HasDirective(ds[..|ds| - 1], name) || IsNamed(ds[|ds| - 1], name)
  {
    hide IsNamed;
    assert HasDirective(ds[..|ds| - 1], name) ==> HasDirective(ds, name) by {
      if HasDirective(ds[..|ds| - 1], name) {
        var i :| 0 <= i < |ds| - 1 && IsNamed(ds[..|ds| - 1][i], name);
        assert IsNamed(ds[i], name);
      }
    }
  }

  lemma ApplyFlags(c: Control, d: Directive)
    ensures var r := Apply(c, d);
            && (r.noStore <==> c.noStore || IsNamed(d, "no-store"))
            && (r.noCache <==> c.noCache || IsNamed(d, "no-cache"))
            && (r.mustRevalidate <==> c.mustRevalidate || IsNamed(d, "must-revalidate"))
            && (r.isPrivate <==> c.isPrivate || IsNamed(d, "private"))
  {
    hide IsNamed, Numeric;
    NamesDiffer(d);
  }

  /** Presence of a directive anywhere in the field sets its flag. */
  lemma {:induction false} FlagsMeaning(ds: seq<Directive>)
    ensures var c := ApplyAll(ds);
            && (c.noStore <==> HasDirective(ds, "no-store"))
            && (c.noCache <==> HasDirective(ds, "no-cache"))
            && (c.mustRevalidate <==> HasDirective(ds, "must-revalidate"))
            && (c.isPrivate <==> HasDirective(ds, "private"))
  {
    if ds != [] {
      hide HasDirective, IsNamed, Apply;
      var n := |ds| - 1;
      FlagsMeaning(ds[..n]);
      ApplyFlags(ApplyAll(ds[..n]), ds[n]);
      HasDirectiveSnoc(ds, "no-store");
      HasDirectiveSnoc(ds, "no-cache");
      HasDirectiveSnoc(ds, "must-revalidate");
      HasDirectiveSnoc(ds, "private");
    }
  }

  /** One malformed numeric directive invalidates the whole field. */
  lemma {:induction false} InvalidMeaning(ds: seq<Directive>)
    ensures ApplyAll(ds).invalid <==> exists i :: 0 <= i < |ds| && Malformed(ds[i])
  {
    hide IsNamed, Numeric;
    if ds != [] {
      var n := |ds| - 1;
      NamesDiffer(ds[n]);
      InvalidMeaning(ds[..n]);
      assert forall i :: 0 <= i < n ==> ds[..n][i] == ds[i];
    }
  }

  /** The first well-formed max-age wins, and a later one that differs conflicts. */
  lemma {:induction false} MaxAgeMeaning(ds: seq<Directive>)
    ensures var c := ApplyAll(ds);
            && (c.maxAge.None? ==> forall i :: 0 <= i < |ds| ==> !ValidMaxAge(ds[i]))
            && (c.maxAge.Some? ==>
                exists i :: 0 <= i < |ds| && ValidMaxAge(ds[i]) && c.maxAge == Numeric(ds[i]) &&
                            forall j :: 0 <= j < i ==> !ValidMaxAge(ds[j]))
            && (c.conflictingMaxAge <==>
                exists i :: 0 <= i < |ds| && ValidMaxAge(ds[i]) && Numeric(ds[i]) != c.maxAge)
  {
    hide IsNamed, Numeric;
    if ds != [] {
      var n := |ds| - 1;
      NamesDiffer(ds[n]);
      MaxAgeMeaning(ds[..n]);
      assert forall i :: 0 <= i < n ==> ds[..n][i] == ds[i];
      var before := ApplyAll(ds[..n]);
      if before.maxAge.Some? {
        var k :| 0 <= k < n && ValidMaxAge(ds[..n][k]) && before.maxAge == Numeric(ds[..n][k]) &&
                 forall j :: 0 <= j < k ==> !ValidMaxAge(ds[..n][j]);
        assert ValidMaxAge(ds[k]) && forall j :: 0 <= j < k ==> !ValidMaxAge(ds[j]);
      } else {
        assert forall j :: 0 <= j < n ==> !ValidMaxAge(ds[..n][j]);
        assert forall j :: 0 <= j < n ==> !ValidMaxAge(ds[j]);
        assert ValidMaxAge(ds[n]) ==> ApplyAll(ds).maxAge == Numeric(ds[n]);
      }
    }
  }

  predicate ValidStaleIfError(d: Directive) { IsNamed(d, "stale-if-error") && Numeric(d).Some? }

  lemma ApplyStaleIfError(c: Control, d: Directive)
    ensures Apply(c, d).staleIfError ==
            if c.staleIfError.None? && ValidStaleIfError(d) then Numeric(d) else c.staleIfError
  {
    hide IsNamed, Numeric;
    NamesDiffer(d);
  }

  predicate NoStaleIfError(ds: seq<Directive>) { forall i :: 0 <= i < |ds| ==> !ValidStaleIfError(ds[i]) }

  lemma ApplyAllSnoc(ds: seq<Directive>, d: Directive)
    ensures ApplyAll(ds + [d]) == Apply(ApplyAll(ds), d)
  {
    hide Apply;
    assert (ds + [d])[..|ds|] == ds;
  }

  lemma {:induction false} StaleIfErrorAbsent(ds: seq<Directive>)
    requires NoStaleIfError(ds)
    ensures ApplyAll(ds).staleIfError.None?
  {
    if ds != [] {
      hide Apply, ApplyAll, ValidStaleIfError;
      var n := |ds| - 1;
      assert ds == ds[..n] + [ds[n]];
      StaleIfErrorAbsent(ds[..n]);
      ApplyAllSnoc(ds[..n], ds[n]);
      ApplyStaleIfError(ApplyAll(ds[..n]), ds[n]);
    }
  }

  /** The first well-formed stale-if-error counts, whatever follows it. */
  lemma {:induction false} StaleIfErrorMeaning(before: seq<Directive>, d: Directive, after: seq<Directive>)
    requires NoStaleIfError(before) && ValidStaleIfError(d)
    ensures ApplyAll(before + [d] + after).staleIfError == Numeric(d)
  {
    assert Numeric(d).Some?;
    hide Apply, ApplyAll, ValidStaleIfError, Numeric;
    if after == [] {
      assert before + [d] + after == before + [d];
      StaleIfErrorAbsent(before);
      ApplyAllSnoc(before, d);
      ApplyStaleIfError(ApplyAll(before), d);
    } else {
      var n := |after| - 1;
      assert before + [d] + after == (before + [d] + after[..n]) + [after[n]];
      StaleIfErrorMeaning(before, d, after[..n]);
      ApplyAllSnoc(before + [d] + after[..n], after[n]);
      ApplyStaleIfError(ApplyAll(before + [d] + after[..n]), after[n]);
    }
  }

  /** Seconds of the first well-formed max-age, read from the front. */
  function FirstMaxAge(ds: seq<Directive>): Option<nat> {
    if ds == [] then None else if ValidMaxAge(ds[0]) then Numeric(ds[0]) else FirstMaxAge(ds[1..])
  }

  /** Seconds of the first well-formed stale-if-error, read from the front. */
  function FirstStaleIfError(ds: seq<Directive>): Option<nat> {
    if ds == [] then None else if ValidStaleIfError(ds[0]) then Numeric(ds[0]) else FirstStaleIfError(ds[1..])
  }

  lemma {:induction false} FirstMaxAgeSnoc(ds: seq<Directive>, d: Directive)
    ensures FirstMaxAge(ds + [d]) ==
            if FirstMaxAge(ds).Some? then FirstMaxAge(ds) else if ValidMaxAge(d) then Numeric(d) else None
  {
    hide IsNamed, Numeric;
    if ds == [] {
      assert ds + [d] == [d] && [d][1..] == [];
    } else {
      assert (ds + [d])[1..] == ds[1..] + [d];
      FirstMaxAgeSnoc(ds[1..], d);
    }
  }

  lemma {:induction false} FirstStaleIfErrorSnoc(ds: seq<Directive>, d: Directive)
    ensures FirstStaleIfError(ds + [d]) ==
            if FirstStaleIfError(ds).Some? then FirstStaleIfError(ds)
            else if ValidStaleIfError(d) then Numeric(d) else None
  {
    hide IsNamed, Numeric;
    if ds == [] {
      assert ds + [d] == [d] && [d][1..] == [];
    } else {
      assert (ds + [d])[1..] == ds[1..] + [d];
      FirstStaleIfErrorSnoc(ds[1..], d);
    }
  }

  lemma ApplyMaxAge(c: Control, d: Directive)
    ensures Apply(c, d).maxAge == if c.maxAge.None? && ValidMaxAge(d) then Numeric(d) else c.maxAge
  {
    hide IsNamed, Numeric;
    NamesDiffer(d);
  }

  /** What parsing keeps of the numeric directives is what stands first. */
  lemma {:induction false} FirstOnesCount(ds: seq<Directive>)
    ensures ApplyAll(ds).maxAge == FirstMaxAge(ds) && ApplyAll(ds).staleIfError == FirstStaleIfError(ds)
  {
    if ds != [] {
      hide Apply, ApplyAll, ValidMaxAge, ValidStaleIfError, Numeric, FirstMaxAge, FirstStaleIfError;
      var n := |ds| - 1;
      assert ds == ds[..n] + [ds[n]];
      FirstOnesCount(ds[..n]);
      ApplyAllSnoc(ds[..n], ds[n]);
      ApplyMaxAge(ApplyAll(ds[..n]), ds[n]);
      ApplyStaleIfError(ApplyAll(ds[..n]), ds[n]);
      FirstMaxAgeSnoc(ds[..n], ds[n]);
      FirstStaleIfErrorSnoc(ds[..n], ds[n]);
    }
  }

  // ---------------------------------------------------------------- unquoted directives

  /** A directive without a value reads back as its name. */
  lemma BareDirective(name: string)
    requires PlainName(name)
    ensures ParseDirective(name) == Directive(name, false, [], true)
  {
    hide TrimOws, Find;
    Trimmed(name);
    FindIs(name, '=', |name|);
    assert name[..|name|] == name;
  }

  /** `name=token`: an unquoted value is taken as it stands, blanks around it aside. */
  lemma TokenDirective(name: string, value: string)
    requires PlainName(name) && value != [] && !IsOws(value[0]) && !IsOws(value[|value| - 1]) && value[0] != '"'
    ensures ParseDirective(name + "=" + value) == Directive(name, true, value, true)
  {
    hide TrimOws, Find, Unescape;
    var r := name + "=" + value;
    Trimmed(r);
    Trimmed(name);
    Trimmed(value);
    FindIs(r, '=', |name|);
    assert r[..|name|] == name && r[|name| + 1..] == value;
  }

  /** One character of a quoted string: as it stands, or behind a backslash. */
  datatype QuotedChar = QuotedChar(c: char, escaped: bool)

  /** Control characters and the backslash stand in a quoted string only behind a backslash. */
  predicate Legal(units: seq<QuotedChar>) {
    forall i :: 0 <= i < |units| ==>
      units[i].escaped || (units[i].c != '\\' && units[i].c >= ' ' && units[i].c != '\U{7F}')
  }

  function Spelled(units: seq<QuotedChar>): string {
    if units == [] then [] else (if units[0].escaped then "\\" else "") + [units[0].c] + Spelled(units[1..])
  }

  function Letters(units: seq<QuotedChar>): (s: string)
    ensures |s| == |units| && forall i :: 0 <= i < |units| ==> s[i] == units[i].c
  {
    if units == [] then [] else [units[0].c] + Letters(units[1..])
  }

  lemma SpelledStep(units: seq<QuotedChar>)
    requires units != []
    ensures Spelled(units) == (if units[0].escaped then "\\" else "") + [units[0].c] + Spelled(units[1..])
    ensures Letters(units) == [units[0].c] + Letters(units[1..])
  {
  }

  lemma UnescapeOne(c: char, rest: string)
    ensures Unescape(['\\', c] + rest, false) == Unescape([c] + rest, true)
    ensures c != '\\' && c >= ' ' && c != '\U{7F}' ==> Unescape([c] + rest, false) == Unescape([c] + rest, true)
    ensures Unescape([c] + rest, true) ==
            if Unescape(rest, false).Some? then Some([c] + Unescape(rest, false).value) else None
  {
    assert (['\\', c] + rest)[1..] == [c] + rest && ([c] + rest)[1..] == rest;
  }

  lemma {:induction false} SpelledReadsBack(units: seq<QuotedChar>)
    requires Legal(units)
    ensures Unescape(Spelled(units), false) == Some(Letters(units))
  {
    if units != [] {
      hide Unescape, Spelled, Letters;
      var u, tail := units[0], Spelled(units[1..]);
      SpelledReadsBack(units[1..]);
      SpelledStep(units);
      UnescapeOne(u.c, tail);
      assert "\\" + [u.c] + tail == ['\\', u.c] + tail && "" + [u.c] + tail == [u.c] + tail;
    }
  }

  lemma {:induction false} ReadsBackIsSpelled(s: string) returns (units: seq<QuotedChar>)
    requires Unescape(s, false).Some?
    ensures Legal(units) && Spelled(units) == s && Letters(units) == Unescape(s, false).value
    decreases |s|
  {
    units := [];
    if s != [] {
      var escaped := s[0] == '\\';
      var skip := if escaped then 2 else 1;
      if escaped { assert s[1..] != [] && s[1..][1..] == s[2..]; }
      var rest := ReadsBackIsSpelled(s[skip..]);
      units := [QuotedChar(s[skip - 1], escaped)] + rest;
      assert units[1..] == rest;
      assert s == s[..skip] + s[skip..];
    }
  }

  /** A quoted value, exactly: the text between the quotes spells it, with a backslash before
      any character one likes and before every backslash and control character. */
  lemma QuotedDirective(name: string, text: string, value: string)
    requires PlainName(name)
    ensures ParseDirective(name + "=" + ("\"" + text + "\"")) == Directive(name, true, value, true) <==>
            exists units :: Legal(units) && Spelled(units) == text && Letters(units) == value
  {
    hide TrimOws, Find, Unescape, Spelled, Letters, Legal;
    var q := "\"" + text + "\"";
    var r := name + "=" + q;
    Trimmed(r);
    Trimmed(name);
    Trimmed(q);
    assert forall i :: 0 <= i < |name| ==> r[i] == name[i];
    FindIs(r, '=', |name|);
    assert r[..|name|] == name && r[|name| + 1..] == q;
    assert q[1..|q| - 1] == text;
    if Unescape(text, false).Some? { var units := ReadsBackIsSpelled(text); }
    forall units | Legal(units) && Spelled(units) == text && Letters(units) == value
      ensures Unescape(text, false) == Some(value)
    {
      SpelledReadsBack(units);
    }
  }

  /** An empty value, and a quoted string that is not closed, make the directive invalid. */
  lemma BrokenDirective(name: string, value: string)
    requires PlainName(name)
    requires value == [] ||
             (value[0] == '"' && !IsOws(value[|value| - 1]) && (|value| == 1 || value[|value| - 1] != '"'))
    ensures var d := ParseDirective(name + "=" + value); d.name == name && d.hasValue && !d.valueValid
  {
    hide TrimOws, Find, Unescape;
    var r := name + "=" + value;
    Trimmed(r);
    Trimmed(name);
    if value != [] { Trimmed(value); } else { TrimmedNothing(); }
    FindIs(r, '=', |name|);
    assert r[..|name|] == name && r[|name| + 1..] == value;
  }

  lemma TrimmedNothing()
    ensures TrimOws([]) == []
  {
  }

  lemma TokenIsClosed(s: string)
    requires '"' !in s && ',' !in s
    ensures Closed(s)
  {
    NameStaysPlain(s);
  }

  lemma {:induction false} DirectivesAppend(a: seq<string>, b: seq<string>)
    ensures Directives(a + b) == Directives(a) + Directives(b)
  {
    hide ParseDirective, SplitList;
    if a == [] {
      assert a + b == b;
    } else {
      assert (a + b)[1..] == a[1..] + b;
      DirectivesAppend(a[1..], b);
      var parts := SplitList(Plain, a[0]);
      var first := seq(|parts|, i requires 0 <= i < |parts| => ParseDirective(parts[i]));
      assert first + (Directives(a[1..]) + Directives(b)) == (first + Directives(a[1..])) + Directives(b);
    }
  }

  /** The directives of a field are those of its members, one by one and in order; several
      fields count as one list. */
  lemma DirectivesOfMembers(parts: seq<string>)
    requires |parts| >= 1 && forall i :: 0 <= i < |parts| ==> Closed(parts[i])
    ensures var ds := Directives([JoinList(parts)]);
            |ds| == |parts| && forall i :: 0 <= i < |parts| ==> ds[i] == ParseDirective(parts[i])
  {
    hide ParseDirective, SplitList, JoinList, Closed;
    SplitOfJoin(parts);
    var field := JoinList(parts);
    assert [field][1..] == [];
    DirectivesNone();
  }

  lemma DirectivesNone()
    ensures Directives([]) == []
  {
  }
}
