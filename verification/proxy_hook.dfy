/** The server hook of `src/hooks.server.js`: every request whose pathname
    starts with `/api/proxy` is forwarded to the upstream at the hard-coded
    base `http://192.168.1.6:3000`; every other request goes on to the
    application unchanged.

    `fetch` and SvelteKit's `resolve` are parameters: the model says what they
    are called with and what is made of their answers. A thrown `fetch` is
    the `FetchThrew` outcome. */
module ProxyHook {
  import opened Wrappers
  import opened Bytes
  import opened Text
  import opened Urls

  /** The raw text the pathname is tested against. */
  const ProxyPrefix: string := "/api/proxy"

  /** The base URL `http://192.168.1.6:3000` as the URL parser reads it. */
  const UpstreamBase: Url := Url("http", Some("192.168.1.6:3000"), "/", [])

  /** Header lists are relayed as they are, names and order included. */
  type Headers = seq<(string, string)>

  /** A body is a stream of byte chunks, or text given to `new Response`. */
  datatype Body = StreamBody(chunks: seq<seq<byte>>) | TextBody(text: string)

  /** The parts of `event.request` the hook reads; a request without a body
      has `body === null`. */
  datatype Request = Request(httpMethod: string, headers: Headers, body: Option<Body>)

  /** What the hook reads from its event: the URL's pathname, its search
      parameters in order, and the request. */
  datatype Event = Event(pathname: string, searchParams: seq<(string, string)>, request: Request)

  /** The options object handed to `fetch`; `duplex` is absent unless set. */
  datatype FetchOptions = FetchOptions(httpMethod: string, headers: Headers, body: Option<Body>, duplex: Option<string>)

  /** What the awaited `fetch` gives: an upstream response, or a throw. */
  datatype FetchOutcome =
    | Fetched(status: int, statusText: string, headers: Headers, body: Option<Body>)
    | FetchThrew(reason: string)

  datatype Response = Response(status: int, statusText: string, headers: Headers, body: Option<Body>)

  /** What `handle` settles with: SvelteKit's own response, a forwarded
      request together with the response relayed for it, or a rejection
      because `new URL` threw before the `try` block. */
  datatype HookResult =
    | Passthrough(response: Response)
    | Forwarded(target: Url, options: FetchOptions, response: Response)
    | HookThrew(error: UrlError)

  predicate StartsWith(s: string, prefix: string) {
    |prefix| <= |s| && s[..|prefix|] == prefix
  }

  /** The position of the first occurrence of `pattern` in `s`. */
  function FindText(s: string, pattern: string): (r: Option<nat>)
    ensures r.Some? ==> r.value + |pattern| <= |s| && s[r.value..r.value + |pattern|] == pattern
    ensures r.Some? ==> forall i :: 0 <= i < r.value ==> !StartsWith(s[i..], pattern)
    ensures r.None? ==> forall i :: 0 <= i <= |s| ==> !StartsWith(s[i..], pattern)
    decreases |s|
  {
    if StartsWith(s, pattern) then Some(0)
    else if |s| == 0 then None
    else
      assert forall j :: 1 <= j <= |s| ==> s[j..] == s[1..][j - 1..];
      match FindText(s[1..], pattern)
      case None => None
      case Some(i) => Some(i + 1)
  }

  /** `s.replace(pattern, replacement)` with a string pattern: only the first
      occurrence is replaced. */
  function ReplaceFirst(s: string, pattern: string, replacement: string): string {
    match FindText(s, pattern)
    case None => s
    case Some(i) => s[..i] + replacement + s[i + |pattern|..]
  }

  /** `searchParams.forEach((value, key) => target.searchParams.append(key, value))`:
      each pair goes to the end, in order. */
  function AppendEach(query: seq<(string, string)>, pairs: seq<(string, string)>): (r: seq<(string, string)>)
    ensures r == query + pairs
    decreases |pairs|
  {
    if |pairs| == 0 then query
    else AppendEach(query + [pairs[0]], pairs[1..])
  }

  /** The target URL: the pathname with the prefix replaced by nothing,
      resolved against the upstream base, then the inbound search parameters
      appended. */
  function TargetUrl(pathname: string, searchParams: seq<(string, string)>): Result<Url, UrlError> {
    var target :- Resolve(ReplaceFirst(pathname, ProxyPrefix, ""), UpstreamBase);
    Success(target.(query := AppendEach(target.query, searchParams)))
  }

  /** The `fetchOptions` object. */
  function OutboundOptions(request: Request): (o: FetchOptions)
    ensures o.httpMethod == request.httpMethod && o.headers == request.headers
    ensures o.body.Some? <==> request.httpMethod != "GET" && request.httpMethod != "HEAD" && request.body.Some?
    ensures o.body.Some? ==> o.body == request.body
    ensures o.duplex == Some("half") <==> o.body.Some?
    ensures o.duplex.None? <==> o.body.None?
  {
    var body := if request.httpMethod != "GET" && request.httpMethod != "HEAD" then request.body else None;
    FetchOptions(request.httpMethod, request.headers, body, if body.Some? then Some("half") else None)
  }

  /** The statuses a response with a body may not carry (Fetch Standard). */
  predicate IsNullBodyStatus(status: int) {
    status == 101 || status == 103 || status == 204 || status == 205 || status == 304
  }

  /** Whether `new Response(body, { status, headers })` accepts the upstream
      answer; it throws a RangeError for a status outside 200..599 and a
      TypeError for a body on a null-body status, both inside the `try`. */
  predicate Relayable(outcome: FetchOutcome) {
    && outcome.Fetched?
    && 200 <= outcome.status <= 599
    && !(outcome.body.Some? && IsNullBodyStatus(outcome.status))
  }

  /** `new Response('Proxy error', { status: 500 })`; a text body gets the
      content type `text/plain;charset=UTF-8`. */
  const ProxyError: Response :=
    Response(500, "", [("content-type", "text/plain;charset=UTF-8")], Some(TextBody("Proxy error")))

  /** The response built from what `fetch` gave. */
  function Relay(outcome: FetchOutcome): (r: Response)
    ensures 200 <= r.status <= 599
    ensures r.statusText == ""
    ensures Relayable(outcome) ==>
      r.status == outcome.status && r.headers == outcome.headers && r.body == outcome.body
    ensures !Relayable(outcome) ==> r == ProxyError
  {
    match outcome
    case FetchThrew(_) => ProxyError
    case Fetched(status, _, headers, body) =>
      if Relayable(outcome) then Response(status, "", headers, body) else ProxyError
  }

  /** `handle({ event, resolve })`. */
  function Handle(event: Event, fetch: (Url, FetchOptions) -> FetchOutcome, resolve: Event -> Response): (r: HookResult)
    ensures r.Passthrough? <==> !StartsWith(event.pathname, ProxyPrefix)
    ensures r.Passthrough? ==> r.response == resolve(event)
    ensures r.Forwarded? ==> r.target.query == event.searchParams
    ensures r.Forwarded? ==> r.options == OutboundOptions(event.request)
    ensures r.Forwarded? ==> r.response == Relay(fetch(r.target, r.options))
    ensures !r.Passthrough? ==> r.Forwarded? || TargetUrl(event.pathname, event.searchParams).Failure?
  {
    if !StartsWith(event.pathname, ProxyPrefix) then Passthrough(resolve(event))
    else
      match TargetUrl(event.pathname, event.searchParams)
      case Failure(e) => HookThrew(e)
      case Success(target) =>
        var options := OutboundOptions(event.request);
        Forwarded(target, options, Relay(fetch(target, options)))
  }

  // ---------------------------------------------------------------------
  // Properties

  /** Replacing the prefix of a prefixed pathname removes exactly its first
      ten characters. */
  lemma ReplacePrefixDropsIt(pathname: string)
    requires StartsWith(pathname, ProxyPrefix)
    ensures ReplaceFirst(pathname, ProxyPrefix, "") == pathname[|ProxyPrefix|..]
  {
    assert FindText(pathname, ProxyPrefix) == Some(0);
  }

  /** A forwarded request resolves the pathname after the prefix. */
  lemma TargetOfPrefixed(pathname: string, searchParams: seq<(string, string)>)
    requires StartsWith(pathname, ProxyPrefix)
    ensures TargetUrl(pathname, searchParams).Success? ==>
      Resolve(pathname[|ProxyPrefix|..], UpstreamBase).Success? &&
      TargetUrl(pathname, searchParams).value
        == Resolve(pathname[|ProxyPrefix|..], UpstreamBase).value.(query := searchParams)
    ensures TargetUrl(pathname, searchParams).Failure? <==> Resolve(pathname[|ProxyPrefix|..], UpstreamBase).Failure?
  {
    ReplacePrefixDropsIt(pathname);
  }

  /** A prefixed request is forwarded to the resolved remainder, with the
      inbound query, exactly when the remainder resolves; otherwise the hook
      rejects with the parser's error. */
  lemma HandleOfPrefixed(e: Event, fetch: (Url, FetchOptions) -> FetchOutcome, resolve: Event -> Response)
    requires StartsWith(e.pathname, ProxyPrefix)
    ensures var u := Resolve(e.pathname[|ProxyPrefix|..], UpstreamBase);
      && (u.Failure? ==> Handle(e, fetch, resolve) == HookThrew(u.error))
      && (u.Success? ==> Handle(e, fetch, resolve).Forwarded?
                         && Handle(e, fetch, resolve).target == u.value.(query := e.searchParams))
  {
    TargetOfPrefixed(e.pathname, e.searchParams);
  }

  /** The pathname `/api/proxy` itself is forwarded to the root of the
      upstream, `http://192.168.1.6:3000/`. */
  lemma EmptyRemainderIsRoot(e: Event, fetch: (Url, FetchOptions) -> FetchOutcome, resolve: Event -> Response)
    requires e.pathname == ProxyPrefix
    ensures Handle(e, fetch, resolve).Forwarded?
    ensures Handle(e, fetch, resolve).target == UpstreamBase.(query := e.searchParams)
    ensures HrefWithoutQuery(Handle(e, fetch, resolve).target) == "http://192.168.1.6:3000/"
  {
    assert e.pathname[|ProxyPrefix|..] == "";
    HandleOfPrefixed(e, fetch, resolve);
    assert Resolve("", UpstreamBase) == Success(UpstreamBase) by {
      assert SplitScheme("").None?;
    }
    RootHref(e.searchParams);
  }

  lemma RootHref(query: seq<(string, string)>)
    ensures HrefWithoutQuery(UpstreamBase.(query := query)) == "http://192.168.1.6:3000/"
  {
  }

  /** A remainder that is a rooted path (one leading `/`) stays on the
      upstream host, with its dot segments removed; a path without dot
      segments is forwarded as it is. */
  lemma RootedRemainderStaysUpstream(e: Event, fetch: (Url, FetchOptions) -> FetchOutcome, resolve: Event -> Response)
    requires StartsWith(e.pathname, ProxyPrefix)
    requires |e.pathname| > |ProxyPrefix| && e.pathname[|ProxyPrefix|] == '/'
    requires |e.pathname| == |ProxyPrefix| + 1 || e.pathname[|ProxyPrefix| + 1] != '/'
    ensures Handle(e, fetch, resolve).Forwarded?
    ensures Handle(e, fetch, resolve).target
      == Url("http", Some("192.168.1.6:3000"), RemoveDotSegments(e.pathname[|ProxyPrefix|..]), e.searchParams)
    ensures DotFree(Segments(e.pathname[|ProxyPrefix|..])) ==>
      Handle(e, fetch, resolve).target.path == e.pathname[|ProxyPrefix|..]
  {
    var rest := e.pathname[|ProxyPrefix|..];
    HandleOfPrefixed(e, fetch, resolve);
    assert SplitScheme(rest).None?;
    if DotFree(Segments(rest)) {
      RemoveDotSegmentsKeepsCleanPath(rest);
    }
  }

  /** The prefix test is on raw text, not on path segments: `/api/proxyX`
      is forwarded, to `/X` on the upstream. */
  lemma PrefixIsNotSegmentAware(e: Event, leaf: string, fetch: (Url, FetchOptions) -> FetchOutcome, resolve: Event -> Response)
    requires e.pathname == ProxyPrefix + leaf
    requires |leaf| >= 1 && NoSlash(leaf) && !IsDotSegment(leaf)
    requires forall i :: 0 <= i < |leaf| ==> leaf[i] != ':'
    ensures Handle(e, fetch, resolve).Forwarded?
    ensures Handle(e, fetch, resolve).target == Url("http", Some("192.168.1.6:3000"), "/" + leaf, e.searchParams)
  {
    assert e.pathname[|ProxyPrefix|..] == leaf;
    HandleOfPrefixed(e, fetch, resolve);
    BareLeafResolves(leaf);
  }

  /** A single segment with no scheme is resolved next to the base's root. */
  lemma BareLeafResolves(leaf: string)
    requires |leaf| >= 1 && NoSlash(leaf) && !IsDotSegment(leaf)
    requires forall i :: 0 <= i < |leaf| ==> leaf[i] != ':'
    ensures Resolve(leaf, UpstreamBase) == Success(Url("http", Some("192.168.1.6:3000"), "/" + leaf, []))
  {
    assert IndexOf(leaf, ':').None?;
    assert SplitScheme(leaf).None?;
    var path := "/" + leaf;
    assert Directory(UpstreamBase.path) + leaf == path;
    assert path[1..] == leaf;
    assert IndexOf(leaf, '/').None?;
    assert Segments(path) == [leaf];
    RemoveDotSegmentsKeepsCleanPath(path);
  }

  /** The other half of the prefix test on raw text: when what follows
      `/api/proxy` is a dot segment, plain or percent-encoded (`/api/proxy%2e`,
      `/api/proxy.%2E`), the request goes to the root of the upstream. */
  lemma DotLeafIsRoot(e: Event, leaf: string, fetch: (Url, FetchOptions) -> FetchOutcome, resolve: Event -> Response)
    requires e.pathname == ProxyPrefix + leaf
    requires IsDotSegment(leaf)
    ensures Handle(e, fetch, resolve).Forwarded?
    ensures Handle(e, fetch, resolve).target == Url("http", Some("192.168.1.6:3000"), "/", e.searchParams)
  {
    assert e.pathname[|ProxyPrefix|..] == leaf;
    HandleOfPrefixed(e, fetch, resolve);
    DotSegmentResolvesToRoot(leaf);
  }

  /** A dot segment resolved against the base is the base's root. */
  lemma DotSegmentResolvesToRoot(leaf: string)
    requires IsDotSegment(leaf)
    ensures Resolve(leaf, UpstreamBase) == Success(Url("http", Some("192.168.1.6:3000"), "/", []))
  {
    forall i | 0 <= i < |leaf|
      ensures leaf[i] != ':' && leaf[i] != '/'
    {
      if |leaf| == 4 && IsEncodedDot(leaf[..3]) {
        assert i < 3 ==> leaf[i] == leaf[..3][i];
      } else if |leaf| == 4 {
        assert i >= 1 ==> leaf[i] == leaf[1..][i - 1];
      } else if |leaf| == 6 {
        assert i < 3 ==> leaf[i] == leaf[..3][i];
        assert i >= 3 ==> leaf[i] == leaf[3..][i - 3];
      }
    }
    assert IndexOf(leaf, ':').None?;
    assert SplitScheme(leaf).None?;
    var path := "/" + leaf;
    assert Directory(UpstreamBase.path) + leaf == path;
    assert path[1..] == leaf;
    assert IndexOf(leaf, '/').None?;
    assert Segments(path) == [leaf];
    assert [leaf][1..] == [];
    assert NormalizeFrom([], [leaf]) == [""];
    assert Join([""]) == "/";
    assert RemoveDotSegments(path) == "/";
    assert ResolveRelative(leaf, UpstreamBase) == Success(Url("http", Some("192.168.1.6:3000"), "/", []));
  }

  /** A remainder of the form `//host/...` is a network-path reference: the
      request leaves the upstream host for `host`. */
  lemma NetworkPathLeavesUpstream(e: Event, host: string, tail: string,
                                  fetch: (Url, FetchOptions) -> FetchOutcome, resolve: Event -> Response)
    requires e.pathname == ProxyPrefix + "//" + host + tail
    requires |host| >= 1 && NoSlash(host)
    requires tail == "" || tail[0] == '/'
    ensures Handle(e, fetch, resolve).Forwarded?
    ensures Handle(e, fetch, resolve).target.authority == Some(host)
  {
    var rest := e.pathname[|ProxyPrefix|..];
    assert rest == "//" + host + tail;
    HandleOfPrefixed(e, fetch, resolve);
    assert SplitScheme(rest).None?;
    NetworkPathHost(host, tail, UpstreamBase);
  }

  /** A remainder that is itself an absolute URL with a special scheme, as in
      `/api/proxyhttps://example.com/x` where no `/` follows the prefix,
      leaves the upstream host for the host it names. This holds for `http`
      too: a reference with the base's own scheme is read as the network
      path after its colon. */
  lemma SchemeRemainderLeavesUpstream(e: Event, scheme: string, host: string, tail: string,
                                      fetch: (Url, FetchOptions) -> FetchOutcome, resolve: Event -> Response)
    requires e.pathname == ProxyPrefix + scheme + "://" + host + tail
    requires IsSpecial(scheme)
    requires |host| >= 1 && NoSlash(host)
    requires tail == "" || tail[0] == '/'
    ensures Handle(e, fetch, resolve).Forwarded?
    ensures Handle(e, fetch, resolve).target.authority == Some(host)
  {
    var rest := e.pathname[|ProxyPrefix|..];
    assert rest == scheme + "://" + host + tail;
    HandleOfPrefixed(e, fetch, resolve);
    SchemeReferenceHost(scheme, host, tail, UpstreamBase);
  }

  /** A remainder of two or more slashes and nothing else names no host:
      `new URL` throws before the `try`, and the hook rejects instead of
      answering 500. */
  lemma SlashesOnlyRejects(e: Event, slashes: string, fetch: (Url, FetchOptions) -> FetchOutcome, resolve: Event -> Response)
    requires e.pathname == ProxyPrefix + slashes
    requires |slashes| >= 2 && forall i :: 0 <= i < |slashes| ==> slashes[i] == '/'
    ensures Handle(e, fetch, resolve).HookThrew?
  {
    assert e.pathname[|ProxyPrefix|..] == slashes;
    HandleOfPrefixed(e, fetch, resolve);
    SlashesOnlyFail(slashes);
  }

  lemma SlashesOnlyFail(slashes: string)
    requires |slashes| >= 2 && forall i :: 0 <= i < |slashes| ==> slashes[i] == '/'
    ensures Resolve(slashes, UpstreamBase).Failure?
  {
    assert IndexOf(slashes, ':').None?;
    assert SplitScheme(slashes).None?;
    assert slashes[..2] == "//";
    assert DropSlashes(slashes) == "";
  }

  /** Relaying keeps the upstream's status, headers and body, and drops its
      status text; every other outcome becomes the fixed 500 answer. */
  lemma ForwardedResponse(e: Event, fetch: (Url, FetchOptions) -> FetchOutcome, resolve: Event -> Response)
    requires Handle(e, fetch, resolve).Forwarded?
    ensures var r := Handle(e, fetch, resolve);
      var up := fetch(r.target, r.options);
      && (up.FetchThrew? ==> r.response == ProxyError)
      && (up.Fetched? && 200 <= up.status <= 599 && up.body.None? ==>
            r.response == Response(up.status, "", up.headers, None))
      && (up.Fetched? && 200 <= up.status <= 599 && !IsNullBodyStatus(up.status) ==>
            r.response == Response(up.status, "", up.headers, up.body))
  {
  }

  /** An absolute URL written after the prefix and a `/`, such as
      `/api/proxy/https://example.com/search`, is not sent to the host it
      names: the remainder is a rooted path, so the request stays on the
      upstream host with that whole remainder as its path. Without the `/`
      it is sent there (`SchemeRemainderLeavesUpstream`). */
  lemma AbsoluteUrlInPathStaysUpstream(e: Event, scheme: string, host: string, leaf: string,
                                       fetch: (Url, FetchOptions) -> FetchOutcome, resolve: Event -> Response)
    requires e.pathname == ProxyPrefix + "/" + scheme + "//" + host + "/" + leaf
    requires |scheme| >= 1 && NoSlash(scheme) && NoSlash(host) && NoSlash(leaf)
    requires !IsDotSegment(scheme) && !IsDotSegment(host) && !IsDotSegment(leaf)
    ensures Handle(e, fetch, resolve).Forwarded?
    ensures Handle(e, fetch, resolve).target
      == Url("http", Some("192.168.1.6:3000"), "/" + scheme + "//" + host + "/" + leaf, e.searchParams)
  {
    var rest := "/" + scheme + "//" + host + "/" + leaf;
    assert e.pathname[|ProxyPrefix|..] == rest;
    assert e.pathname[|ProxyPrefix|] == '/' && e.pathname[|ProxyPrefix| + 1] == scheme[0];
    assert rest == "/" + scheme + "/" + "" + "/" + host + "/" + leaf;
    FourSegments(scheme, "", host, leaf);
    RootedRemainderStaysUpstream(e, fetch, resolve);
  }

  /** Four clean segments joined by slashes read back as those segments. */
  lemma FourSegments(a: string, b: string, c: string, d: string)
    requires NoSlash(a) && NoSlash(b) && NoSlash(c) && NoSlash(d)
    requires !IsDotSegment(a) && !IsDotSegment(b) && !IsDotSegment(c) && !IsDotSegment(d)
    ensures DotFree(Segments("/" + a + "/" + b + "/" + c + "/" + d))
  {
    JoinFour(a, b, c, d);
    SplitJoin([a, b, c, d]);
  }

  lemma JoinFour(a: string, b: string, c: string, d: string)
    ensures Join([a, b, c, d]) == "/" + a + "/" + b + "/" + c + "/" + d
  {
    assert [d][1..] == [];
    assert Join([d]) == "/" + d;
    assert [c, d][1..] == [d];
    assert Join([c, d]) == "/" + c + "/" + d;
    assert [b, c, d][1..] == [c, d];
    assert Join([b, c, d]) == "/" + b + "/" + c + "/" + d;
    assert [a, b, c, d][1..] == [b, c, d];
  }
}
