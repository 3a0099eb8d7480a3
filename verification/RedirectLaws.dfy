/** What a followed redirect sends: verb, body and every header field by name, and
    credentials over a whole chain. */
module RedirectLaws {
  import opened Text
  import opened Headers
  import opened Url
  import opened Redirect

  /** Fields that stay with the origin they were meant for. */
  predicate OriginBound(name: string) {
    || IEquals(name, "Authorization") || IEquals(name, "Proxy-Authorization") || IEquals(name, "Cookie")
    || IEquals(name, "Host")
  }

  /** Fields that describe a body. */
  predicate BodyBound(name: string) {
    IEquals(name, "Content-Length") || IEquals(name, "Content-Type") || IEquals(name, "Content-Encoding")
  }

  /** 303, and a POST answered 301 or 302. */
  predicate DropsBody(status: int, verb: string) { status == 303 || (status in {301, 302} && verb == "POST") }

  lemma SameFold(a: string, b: string, c: string)
    requires IEquals(a, b)
    ensures IEquals(a, c) <==> IEquals(b, c)
  {
  }

  lemma FoldLiterals(a: string)
    ensures IEquals(a, "Authorization") <==> IEquals(a, "authorization")
    ensures IEquals(a, "Proxy-Authorization") <==> IEquals(a, "proxy-authorization")
    ensures IEquals(a, "Cookie") <==> IEquals(a, "cookie")
    ensures IEquals(a, "Host") <==> IEquals(a, "host")
    ensures IEquals(a, "Content-Length") <==> IEquals(a, "content-length")
    ensures IEquals(a, "Content-Type") <==> IEquals(a, "content-type")
    ensures IEquals(a, "Content-Encoding") <==> IEquals(a, "content-encoding")
  {
    FoldOf(a, "Authorization", "authorization");
    FoldOf(a, "Proxy-Authorization", "proxy-authorization");
    FoldOf(a, "Cookie", "cookie");
    FoldOf(a, "Host", "host");
    FoldOf(a, "Content-Length", "content-length");
    FoldOf(a, "Content-Type", "content-type");
    FoldOf(a, "Content-Encoding", "content-encoding");
  }

  lemma FoldOf(a: string, b: string, c: string)
    requires |b| == |c| && forall i :: 0 <= i < |b| ==> Lower(b[i]) == Lower(c[i])
    ensures IEquals(a, b) <==> IEquals(a, c)
  {
  }

  lemma DroppedByName(d: Decision, h: Header, name: string)
    requires IEquals(h.name, name)
    ensures Dropped(d, h) <==> (d.crossOrigin && OriginBound(name)) || (d.dropBody && BodyBound(name))
  {
    FoldLiterals(name);
    SameFold(h.name, name, "authorization");
    SameFold(h.name, name, "proxy-authorization");
    SameFold(h.name, name, "cookie");
    SameFold(h.name, name, "host");
    SameFold(h.name, name, "content-length");
    SameFold(h.name, name, "content-type");
    SameFold(h.name, name, "content-encoding");
    hide IEquals;
  }

  /** Every field keeps all its values in order, or loses them all. */
  lemma {:induction false} CarriedValues(d: Decision, headers: HeaderList, name: string)
    ensures GetAll(Carried(d, headers), name) ==
            if (d.crossOrigin && OriginBound(name)) || (d.dropBody && BodyBound(name)) then []
            else GetAll(headers, name)
  {
    hide IEquals, Dropped, OriginBound, BodyBound;
    if headers != [] {
      CarriedValues(d, headers[1..], name);
      var h, rest := headers[0], Carried(d, headers[1..]);
      if IEquals(h.name, name) { DroppedByName(d, h, name); }
      GetAllAppend([h], rest, name);
      assert [h][1..] == [];
      assert [] + rest == rest;
    }
  }

  /** A hop, exactly: it is taken when fewer than ten were, the status is one of the five,
      the Location resolves to a URL whose printed form parses, and no streamed body would
      have to be sent again. A 303, or a POST answered 301 or 302, becomes GET without a
      body (HEAD stays HEAD); every other request keeps verb and body. Each header field
      is carried whole, or dropped whole when it is bound to the origin left or to the body
      dropped. */
  lemma HopExactly(isIpv6: string -> bool, request: Request, response: Response, followed: nat)
    requires ColonsInIpv6(isIpv6) && Accepted(isIpv6, request.url)
    ensures var next := NextHop(isIpv6, request, response, followed);
            var location := Get(response.headers, "location");
            var to := ResolveReference(isIpv6, request.url, location);
            var bodyless := DropsBody(response.status, request.verb);
            && (next.Some? <==>
                  && followed < 10 && response.status in {301, 302, 303, 307, 308}
                  && location != "" && to.Some? && ParseUrl(isIpv6, ToString(to.value)).Some?
                  && (request.body == Streaming ==> bodyless))
            && (next.Some? ==>
                  && Some(next.value.url) == ParseUrl(isIpv6, ToString(to.value))
                  && next.value.verb == (if bodyless && request.verb != "HEAD" then "GET" else request.verb)
                  && next.value.body == (if bodyless then NoBody else request.body)
                  && (forall name ::
                        GetAll(next.value.headers, name) ==
                        if (!SameOrigin(request.url, to.value) && OriginBound(name)) || (bodyless && BodyBound(name))
                        then [] else GetAll(request.headers, name)))
  {
    hide ParseUrl, ResolveReference, ToString, Accepted, Carried, OriginBound, BodyBound, Get, GetAll, SameOrigin;
    var location := Get(response.headers, "location");
    var remaining := if followed >= MAX_REDIRECTS then 0 else MAX_REDIRECTS - followed;
    FollowsExactly(isIpv6, request.verb, request.url, response.status, location, true, remaining);
    var d := Evaluate(isIpv6, request.verb, request.url, response.status, location, true, remaining);
    forall name
      ensures GetAll(Carried(d, request.headers), name) ==
              if (d.crossOrigin && OriginBound(name)) || (d.dropBody && BodyBound(name)) then []
              else GetAll(request.headers, name)
    {
      CarriedValues(d, request.headers, name);
    }
  }

  // ---------------------------------------------------------------- credentials over a chain

  /** No field bound to an origin. */
  ghost predicate Stripped(request: Request) {
    forall name :: OriginBound(name) ==> GetAll(request.headers, name) == []
  }

  lemma HopStrips(isIpv6: string -> bool, request: Request, response: Response, followed: nat)
    requires ColonsInIpv6(isIpv6) && Accepted(isIpv6, request.url)
    requires !GluesPathToHost(request.url, Get(response.headers, "location"))
    ensures var next := NextHop(isIpv6, request, response, followed);
            next.Some? && (Stripped(request) || !SameOrigin(request.url, next.value.url)) ==> Stripped(next.value)
  {
    hide ParseUrl, ResolveReference, ToString, Accepted, OriginBound, BodyBound, Get, GetAll, SameOrigin, NextHop,
         GluesPathToHost;
    HopExactly(isIpv6, request, response, followed);
    var location := Get(response.headers, "location");
    FollowsExactly(isIpv6, request.verb, request.url, response.status, location, true, 1);
    CrossOriginIsRight(isIpv6, request.verb, request.url, response.status, location, true, 1);
  }

  /** Once a chain has crossed to another origin, no later request, not even one back to
      the first origin, carries a credential or a Host field again. */
  lemma {:induction false} CredentialsStayGone(isIpv6: string -> bool, request: Request, responses: seq<Response>,
                                               followed: nat, i: nat, k: nat)
    requires ColonsInIpv6(isIpv6) && Accepted(isIpv6, request.url) && SafeStart(request, responses)
    requires i < k < |Chain(isIpv6, request, responses, followed)|
    ensures var chain := Chain(isIpv6, request, responses, followed);
            Stripped(request) || !SameOrigin(chain[i].url, chain[i + 1].url) ==> Stripped(chain[k])
    decreases |responses|
  {
    hide NextHop, MayFollow, Accepted, GluesPathToHost, Get, SameOrigin, Stripped;
    var location := Get(responses[0].headers, "location");
    if request.url.path != "" { RootedNeverGlues(request.url, location); }
    HopMayFollow(isIpv6, request, responses[0], followed);
    HopStrips(isIpv6, request, responses[0], followed);
    var next := NextHop(isIpv6, request, responses[0], followed).value;
    MayFollowAccepted(isIpv6, request, next);
    var rest := Chain(isIpv6, next, responses[1..], followed + 1);
    assert Chain(isIpv6, request, responses, followed) == [request] + rest;
    if k > 1 {
      CredentialsStayGone(isIpv6, next, responses[1..], followed + 1, if i == 0 then 0 else i - 1, k - 1);
    }
  }
}
