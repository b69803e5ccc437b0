/** Resolution of a path-like reference against an absolute base URL, as
    `new URL(reference, base)` performs it in the WHATWG URL Standard. For a
    reference without query or fragment this is reference resolution in
    section 5.2 of RFC 3986 in its non-strict form (a reference carrying the
    base's own scheme is read as relative), with three rules of the WHATWG
    parser for special schemes: any run of slashes before an authority is
    skipped, an empty host is an error, and a dot written percent-encoded
    (`%2e` or `%2E`) counts as a dot in a dot segment. */
module Urls {
  import opened Wrappers
  import opened Text

  /** A parsed URL. The query is the list `searchParams` exposes: pairs in
      order, repeats kept. */
  datatype Url = Url(scheme: string, authority: Option<string>, path: string, query: seq<(string, string)>)

  /** Why `new URL` throws: a special scheme needs a non-empty host. */
  datatype UrlError = EmptyHost

  // ---------------------------------------------------------------------
  // Schemes

  predicate IsAlpha(c: char) {
    'a' <= c <= 'z' || 'A' <= c <= 'Z'
  }

  predicate IsSchemeChar(c: char) {
    IsAlpha(c) || IsDigit(c) || c == '+' || c == '-' || c == '.'
  }

  function LowerAscii(s: string): (r: string)
    ensures |r| == |s|
  {
    if |s| == 0 then ""
    else [if 'A' <= s[0] <= 'Z' then (s[0] as int + 32) as char else s[0]] + LowerAscii(s[1..])
  }

  /** The schemes the WHATWG URL Standard treats as special and requires a
      host for (`file`, which allows an empty host, is read generically). */
  predicate IsSpecial(scheme: string) {
    scheme in ["http", "https", "ws", "wss", "ftp"]
  }

  /** Splits off a leading `scheme:` (section 3.1 of RFC 3986: a letter, then
      letters, digits, `+`, `-` or `.`), lower-casing the scheme. */
  function SplitScheme(ref: string): (r: Option<(string, string)>)
    ensures r.Some? ==> |r.value.0| >= 1 && |r.value.0| + 1 + |r.value.1| == |ref|
    ensures r.Some? ==> ref[|r.value.0|] == ':' && r.value.1 == ref[|r.value.0| + 1..]
    ensures r.Some? ==> IsAlpha(ref[0])
  {
    match IndexOf(ref, ':')
    case None => None
    case Some(i) =>
      if i >= 1 && IsAlpha(ref[0]) && forall j :: 0 <= j < i ==> IsSchemeChar(ref[j])
      then Some((LowerAscii(ref[..i]), ref[i + 1..]))
      else None
  }

  // ---------------------------------------------------------------------
  // Path segments and dot-segment removal

  predicate NoSlash(s: string) {
    forall i :: 0 <= i < |s| ==> s[i] != '/'
  }

  /** `%2e` or `%2E`: a dot, percent-encoded. */
  predicate IsEncodedDot(s: string) {
    |s| == 3 && s[0] == '%' && s[1] == '2' && (s[2] == 'e' || s[2] == 'E')
  }

  /** A single-dot segment of the WHATWG URL Standard: `.`, or the
      percent-encoded dot in either case. */
  predicate IsSingleDot(seg: string) {
    seg == "." || IsEncodedDot(seg)
  }

  /** A double-dot segment: two dots, each written plain or percent-encoded. */
  predicate IsDoubleDot(seg: string) {
    || seg == ".."
    || (|seg| == 4 && seg[0] == '.' && IsEncodedDot(seg[1..]))
    || (|seg| == 4 && IsEncodedDot(seg[..3]) && seg[3] == '.')
    || (|seg| == 6 && IsEncodedDot(seg[..3]) && IsEncodedDot(seg[3..]))
  }

  predicate IsDotSegment(seg: string) {
    IsSingleDot(seg) || IsDoubleDot(seg)
  }

  predicate DotFree(segs: seq<string>) {
    forall i :: 0 <= i < |segs| ==> !IsDotSegment(segs[i])
  }

  predicate SlashFree(segs: seq<string>) {
    forall i :: 0 <= i < |segs| ==> NoSlash(segs[i])
  }

  /** Splits text at every `/`: `k` slashes give `k + 1` segments. */
  function Split(s: string): (segs: seq<string>)
    ensures |segs| >= 1 && SlashFree(segs)
    decreases |s|
  {
    match IndexOf(s, '/')
    case None => [s]
    case Some(i) => [s[..i]] + Split(s[i + 1..])
  }

  /** Writes segments back as a rooted path: `/` before each one. */
  function Join(segs: seq<string>): string {
    if |segs| == 0 then "" else "/" + segs[0] + Join(segs[1..])
  }

  /** The segments of a rooted path, after its leading `/`. */
  function Segments(path: string): seq<string>
    requires |path| >= 1 && path[0] == '/'
  {
    Split(path[1..])
  }

  /** Drops the last segment, if there is one ("shorten" in the WHATWG URL
      Standard, the last-segment removal of rule 2C in section 5.2.4 of
      RFC 3986). */
  function Shorten(segs: seq<string>): (r: seq<string>)
    ensures |r| == if |segs| == 0 then 0 else |segs| - 1
    ensures r == segs[..|r|]
  {
    if |segs| == 0 then segs else segs[..|segs| - 1]
  }

  /** Processes the segments in `rest` after the already-kept `kept`: a
      single-dot segment is dropped, a double-dot one drops the last kept
      segment, and either of them at the end leaves an empty last segment,
      so that the path ends in `/`. */
  function NormalizeFrom(kept: seq<string>, rest: seq<string>): (out: seq<string>)
    ensures DotFree(kept) ==> DotFree(out)
    ensures SlashFree(kept) && SlashFree(rest) ==> SlashFree(out)
    ensures |rest| >= 1 ==> |out| >= 1
    decreases |rest|
  {
    if |rest| == 0 then kept
    else
      var last := |rest| == 1;
      if IsSingleDot(rest[0]) then
        NormalizeFrom(if last then kept + [""] else kept, rest[1..])
      else if IsDoubleDot(rest[0]) then
        NormalizeFrom(Shorten(kept) + (if last then [""] else []), rest[1..])
      else
        NormalizeFrom(kept + [rest[0]], rest[1..])
  }

  /** remove_dot_segments of section 5.2.4 of RFC 3986 on a rooted path. */
  function RemoveDotSegments(path: string): (r: string)
    requires |path| >= 1 && path[0] == '/'
    ensures |r| >= 1 && r[0] == '/'
  {
    var segs := NormalizeFrom([], Segments(path));
    assert |segs| >= 1;
    Join(segs)
  }

  /** The base path up to and including its last `/`. */
  function Directory(path: string): (d: string)
    ensures |d| <= |path| && d == path[..|d|]
    ensures |d| >= 1 ==> d[|d| - 1] == '/'
    ensures |path| >= 1 && path[0] == '/' ==> |d| >= 1
  {
    if |path| == 0 then ""
    else if path[|path| - 1] == '/' then path
    else Directory(path[..|path| - 1])
  }

  /** Splitting at the slashes and joining again gives back the path. */
  lemma {:induction false} JoinSplit(s: string)
    ensures Join(Split(s)) == "/" + s
    decreases |s|
  {
    match IndexOf(s, '/')
    case None =>
    case Some(i) =>
      JoinSplit(s[i + 1..]);
      assert s == s[..i] + "/" + s[i + 1..];
  }

  /** Joining slash-free segments and splitting again gives back the segments. */
  lemma {:induction false} SplitJoin(segs: seq<string>)
    requires |segs| >= 1 && SlashFree(segs)
    ensures Split(Join(segs)[1..]) == segs
    decreases |segs|
  {
    var text := Join(segs)[1..];
    assert text == segs[0] + Join(segs[1..]);
    if |segs| == 1 {
      assert Join(segs[1..]) == "";
      assert NoSlash(segs[0]);
      assert text == segs[0];
      assert IndexOf(text, '/') == None;
      assert segs == [segs[0]];
    } else {
      var tail := Join(segs[1..]);
      assert tail[0] == '/';
      assert text[|segs[0]|] == '/';
      assert NoSlash(segs[0]);
      assert IndexOf(text, '/') == Some(|segs[0]|);
      assert text[|segs[0]| + 1..] == Join(segs[1..])[1..];
      SplitJoin(segs[1..]);
    }
  }

  /** Segments with no `.` or `..` come through unchanged. */
  lemma {:induction false} NormalizeDotFree(kept: seq<string>, rest: seq<string>)
    requires DotFree(rest)
    ensures NormalizeFrom(kept, rest) == kept + rest
    decreases |rest|
  {
    if |rest| > 0 {
      assert !IsDotSegment(rest[0]);
      NormalizeDotFree(kept + [rest[0]], rest[1..]);
      assert kept + [rest[0]] + rest[1..] == kept + rest;
    }
  }

  /** A path without dot segments is its own normal form. */
  lemma RemoveDotSegmentsKeepsCleanPath(path: string)
    requires |path| >= 1 && path[0] == '/'
    requires DotFree(Segments(path))
    ensures RemoveDotSegments(path) == path
  {
    NormalizeDotFree([], Segments(path));
    JoinSplit(path[1..]);
    assert [] + Segments(path) == Segments(path);
    assert "/" + path[1..] == path;
  }

  /** The normal form holds no dot segment. */
  lemma RemoveDotSegmentsIsClean(path: string)
    requires |path| >= 1 && path[0] == '/'
    ensures DotFree(Segments(RemoveDotSegments(path)))
  {
    var segs := NormalizeFrom([], Segments(path));
    SplitJoin(segs);
  }

  /** Removing dot segments twice is removing them once. */
  lemma RemoveDotSegmentsIdempotent(path: string)
    requires |path| >= 1 && path[0] == '/'
    ensures RemoveDotSegments(RemoveDotSegments(path)) == RemoveDotSegments(path)
  {
    RemoveDotSegmentsIsClean(path);
    RemoveDotSegmentsKeepsCleanPath(RemoveDotSegments(path));
  }

  // ---------------------------------------------------------------------
  // Resolution

  /** A base such as `http://192.168.1.6:3000`: a special scheme, a
      non-empty host and a rooted path. */
  predicate IsHttpBase(base: Url) {
    && IsSpecial(base.scheme)
    && base.authority.Some? && base.authority.value != ""
    && |base.path| >= 1 && base.path[0] == '/'
  }

  function DropSlashes(s: string): (r: string)
    ensures |r| <= |s| && r == s[|s| - |r|..]
    ensures |r| == 0 || r[0] != '/'
  {
    if |s| > 0 && s[0] == '/' then DropSlashes(s[1..]) else s
  }

  /** Where the authority ends: at the first `/`, or at the end. */
  function AuthorityEnd(s: string): (i: nat)
    ensures i <= |s| && NoSlash(s[..i])
    ensures i < |s| ==> s[i] == '/'
  {
    match IndexOf(s, '/')
    case None => |s|
    case Some(i) => i
  }

  /** The authority and path after the slashes of a special-scheme URL; the
      path of a special URL is never empty. */
  function WithHost(scheme: string, s: string): (r: Result<Url, UrlError>)
    ensures r.Failure? <==> AuthorityEnd(s) == 0
  {
    var end := AuthorityEnd(s);
    if end == 0 then Failure(EmptyHost)
    else Success(Url(scheme, Some(s[..end]), if end == |s| then "/" else RemoveDotSegments(s[end..]), []))
  }

  /** A reference with a non-special scheme of its own (section 5.2.2 of
      RFC 3986, the branch where the reference defines a scheme). A path
      that is not rooted is kept as written. */
  function Generic(scheme: string, rest: string): Url {
    if |rest| >= 2 && rest[..2] == "//" then
      var s := rest[2..];
      var end := AuthorityEnd(s);
      Url(scheme, Some(s[..end]), if end == |s| then "" else RemoveDotSegments(s[end..]), [])
    else if |rest| >= 1 && rest[0] == '/' then Url(scheme, None, RemoveDotSegments(rest), [])
    else Url(scheme, None, rest, [])
  }

  /** A reference without a scheme of its own, against a special base. */
  function ResolveRelative(ref: string, base: Url): (r: Result<Url, UrlError>)
    requires IsHttpBase(base)
    ensures r.Success? ==> r.value.scheme == base.scheme
    ensures ref == "" ==> r == Success(base)
    ensures |ref| >= 1 && ref[0] == '/' && (|ref| == 1 || ref[1] != '/') ==>
      r == Success(Url(base.scheme, base.authority, RemoveDotSegments(ref), []))
    ensures |ref| >= 1 && ref[0] != '/' ==>
      r == Success(Url(base.scheme, base.authority, RemoveDotSegments(Directory(base.path) + ref), []))
  {
    if |ref| >= 2 && ref[..2] == "//" then WithHost(base.scheme, DropSlashes(ref))
    else if |ref| >= 1 && ref[0] == '/' then Success(Url(base.scheme, base.authority, RemoveDotSegments(ref), []))
    else if ref == "" then Success(base)
    else Success(Url(base.scheme, base.authority, RemoveDotSegments(Directory(base.path) + ref), []))
  }

  /** `new URL(ref, base)` for a reference that carries no query or fragment. */
  function Resolve(ref: string, base: Url): (r: Result<Url, UrlError>)
    requires IsHttpBase(base)
    ensures SplitScheme(ref).None? ==> r == ResolveRelative(ref, base)
    ensures SplitScheme(ref).Some? && SplitScheme(ref).value.0 == base.scheme ==>
      r == ResolveRelative(SplitScheme(ref).value.1, base)
    ensures SplitScheme(ref).Some? && SplitScheme(ref).value.0 != base.scheme && IsSpecial(SplitScheme(ref).value.0) ==>
      r == WithHost(SplitScheme(ref).value.0, DropSlashes(SplitScheme(ref).value.1))
    ensures SplitScheme(ref).Some? && !IsSpecial(SplitScheme(ref).value.0) ==>
      r == Success(Generic(SplitScheme(ref).value.0, SplitScheme(ref).value.1))
    ensures r.Success? ==> r.value == base || r.value.query == []
  {
    match SplitScheme(ref)
    case None => ResolveRelative(ref, base)
    case Some((scheme, rest)) =>
      if scheme == base.scheme then ResolveRelative(rest, base)
      else if IsSpecial(scheme) then WithHost(scheme, DropSlashes(rest))
      else Success(Generic(scheme, rest))
  }

  /** A reference `//host/...` replaces the base's authority with `host`. */
  lemma NetworkPathHost(host: string, tail: string, base: Url)
    requires IsHttpBase(base)
    requires |host| >= 1 && NoSlash(host)
    requires tail == "" || tail[0] == '/'
    ensures ResolveRelative("//" + host + tail, base).Success?
    ensures ResolveRelative("//" + host + tail, base).value.authority == Some(host)
  {
    var s := host + tail;
    var r := "//" + s;
    assert "//" + host + tail == r;
    assert s[0] == host[0];
    assert r[..2] == "//";
    DropTwoSlashes(s);
    HostEndsAuthority(host, tail);
    var w := WithHost(base.scheme, s);
    assert w.Success? && w.value.authority == Some(host);
    assert ResolveRelative(r, base) == w;
  }

  /** A reference that starts with a special scheme written in lower case
      splits into that scheme and the text after its colon. */
  lemma SplitSpecialScheme(scheme: string, rest: string)
    requires IsSpecial(scheme)
    ensures SplitScheme(scheme + ":" + rest) == Some((scheme, rest))
  {
    var ref := scheme + ":" + rest;
    assert ref[|scheme|] == ':';
    assert forall j :: 0 <= j < |scheme| ==> ref[j] == scheme[j] && IsAlpha(scheme[j]);
    assert IndexOf(ref, ':') == Some(|scheme|);
    assert ref[..|scheme|] == scheme && ref[|scheme| + 1..] == rest;
    assert LowerAscii(scheme) == scheme;
  }

  /** A reference `scheme://host/...` with a special scheme names `host` as
      its authority, whether or not the scheme is the base's. */
  lemma SchemeReferenceHost(scheme: string, host: string, tail: string, base: Url)
    requires IsHttpBase(base) && IsSpecial(scheme)
    requires |host| >= 1 && NoSlash(host)
    requires tail == "" || tail[0] == '/'
    ensures Resolve(scheme + "://" + host + tail, base).Success?
    ensures Resolve(scheme + "://" + host + tail, base).value.authority == Some(host)
  {
    var ref := scheme + "://" + host + tail;
    var rest := "//" + host + tail;
    assert ref == scheme + ":" + rest;
    SplitSpecialScheme(scheme, rest);
    if scheme == base.scheme {
      assert Resolve(ref, base) == ResolveRelative(rest, base);
      NetworkPathHost(host, tail, base);
    } else {
      var s := host + tail;
      assert rest == "//" + s && s[0] == host[0];
      DropTwoSlashes(s);
      assert Resolve(ref, base) == WithHost(scheme, s);
      WithHostNamesHost(scheme, host, tail);
    }
  }

  lemma WithHostNamesHost(scheme: string, host: string, tail: string)
    requires |host| >= 1 && NoSlash(host)
    requires tail == "" || tail[0] == '/'
    ensures WithHost(scheme, host + tail).Success?
    ensures WithHost(scheme, host + tail).value.authority == Some(host)
  {
    HostEndsAuthority(host, tail);
  }

  lemma DropTwoSlashes(s: string)
    requires |s| >= 1 && s[0] != '/'
    ensures DropSlashes("//" + s) == s
  {
    var t := "//" + s;
    var u := "/" + s;
    assert t[0] == '/' && t[1..] == u;
    assert u[0] == '/' && u[1..] == s;
    assert DropSlashes(s) == s;
    assert DropSlashes(u) == DropSlashes(s);
    assert DropSlashes(t) == DropSlashes(u);
  }

  lemma HostEndsAuthority(host: string, tail: string)
    requires |host| >= 1 && NoSlash(host)
    requires tail == "" || tail[0] == '/'
    ensures AuthorityEnd(host + tail) == |host|
    ensures (host + tail)[..|host|] == host
  {
    var s := host + tail;
    if tail != "" {
      assert s[|host|] == '/';
    }
    assert forall i :: 0 <= i < |host| ==> s[i] == host[i];
  }

  /** The URL as text, without its query: `scheme:`, `//authority` when
      there is one, then the path. */
  function HrefWithoutQuery(u: Url): string {
    u.scheme + ":" + (match u.authority case Some(a) => "//" + a case None => "") + u.path
  }
}
