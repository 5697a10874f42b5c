/** The parts of `urllib.parse` the extractor calls: the path of `urlparse`,
    `os.path.basename` of it, and `urljoin` against the repository's base URL. */
module Urls {

  import opened Wrappers
  import opened Text

  /** `BASE_REPOSITUM` (data/ack_extractor.py:87). */
  const RepositoryBase: string := "https://" + RepositoryHost

  const RepositoryHost: string := "repositum.tuwien.at"

  predicate IsAsciiLetter(c: char) {
    ('a' <= c <= 'z') || ('A' <= c <= 'Z')
  }

  /** Characters allowed in a URL scheme. */
  predicate IsSchemeChar(c: char) {
    IsAsciiLetter(c) || ('0' <= c <= '9') || c == '+' || c == '-' || c == '.'
  }

  /** C0 controls and space, stripped from the front of a URL before it is split. */
  predicate IsC0OrSpace(c: char) {
    c as int <= 32
  }

  /** Tab, carriage return and line feed, removed anywhere in a URL before it is split. */
  predicate IsUnsafeUrlChar(c: char) {
    c == '\t' || c == '\r' || c == '\n'
  }

  function RemoveUnsafe(s: string): (r: string)
    ensures |r| <= |s|
    decreases |s|
  {
    if s == [] then []
    else (if IsUnsafeUrlChar(s[0]) then [] else [s[0]]) + RemoveUnsafe(s[1..])
  }

  /** Removing tabs and line breaks from a string that has none changes nothing. */
  lemma {:induction false} RemoveUnsafeNone(s: string)
    requires forall i :: 0 <= i < |s| ==> !IsUnsafeUrlChar(s[i])
    ensures RemoveUnsafe(s) == s
    decreases |s|
  {
    if s != [] {
      assert forall i :: 0 <= i < |s[1..]| ==> s[1..][i] == s[i + 1];
      RemoveUnsafeNone(s[1..]);
      assert s == [s[0]] + s[1..];
    }
  }

  /** The URL as `urlsplit` sees it once it has cleaned it. */
  function Cleaned(url: string): string {
    RemoveUnsafe(TrimLeft(url, IsC0OrSpace))
  }

  /** The length of the scheme `urlsplit` recognises: the text before the first
      `:` when it is non-empty, starts with an ASCII letter and holds only
      scheme characters. */
  function SchemeLength(u: string): (r: Option<nat>)
    ensures r.Some? ==> 0 < r.value < |u| && u[r.value] == ':'
    ensures r.Some? ==> forall k :: 0 <= k < r.value ==> IsSchemeChar(u[k])
  {
    match Find(u, ":")
    case None => None
    case Some(i) =>
      if i > 0 && IsAsciiLetter(u[0]) && forall k :: 0 <= k < i ==> IsSchemeChar(u[k])
      then Some(i) else None
  }

  /** The longest prefix of `s` with no character satisfying `stop`. */
  function TakeUntil(s: string, stop: char -> bool): (r: string)
    ensures r <= s
    ensures forall i :: 0 <= i < |r| ==> !stop(r[i])
    ensures |r| == |s| || stop(s[|r|])
    decreases |s|
  {
    if s == [] || stop(s[0]) then [] else [s[0]] + TakeUntil(s[1..], stop)
  }

  predicate EndsPathPart(c: char) {
    c == '?' || c == '#'
  }

  predicate EndsNetloc(c: char) {
    c == '/' || c == '?' || c == '#'
  }

  /** What follows the scheme and its `:`, or the whole URL when there is no scheme. */
  function AfterScheme(u: string): (r: string)
  {
    match SchemeLength(u)
    case Some(i) => u[i + 1..]
    case None => u
  }

  /** What follows `//netloc`: the netloc ends at the first `/`, `?` or `#`. */
  function AfterNetloc(u: string): (r: string)
    ensures |r| <= |u|
  {
    if "//" <= u then u[2 + |TakeUntil(u[2..], EndsNetloc)|..] else u
  }

  /** `urlparse(url).path`. */
  function UrlPath(url: string): (p: string)
    ensures forall i :: 0 <= i < |p| ==> !EndsPathPart(p[i])
  {
    TakeUntil(AfterNetloc(AfterScheme(Cleaned(url))), EndsPathPart)
  }

  /** `os.path.basename`: what follows the last `/`. */
  function Basename(p: string): (r: string)
    ensures '/' !in r
    ensures EndsWith(p, r)
    ensures |r| < |p| ==> p[|p| - |r| - 1] == '/'
    decreases |p|
  {
    if p == [] || p[|p| - 1] == '/' then []
    else
      var r := Basename(p[..|p| - 1]) + [p[|p| - 1]];
      assert p[..|p| - 1][|p| - 1 - (|r| - 1)..] + [p[|p| - 1]] == p[|p| - |r|..];
      r
  }

  predicate IsHash(c: char) {
    c == '#'
  }

  /** The five parts `urlsplit` finds in a cleaned URL. The scheme is
      lower-cased; an absent netloc, query or fragment is `""`, as in Python. */
  datatype Parts = Parts(scheme: string, netloc: string, path: string, query: string, fragment: string)

  /** `urlsplit`: the scheme up to the first `:`, the netloc after `//` up
      to the next `/`, `?` or `#`, the fragment after the first `#`, and
      the query between a `?` that precedes it and the fragment. */
  function Split(u: string): (p: Parts)
    ensures p.path == TakeUntil(AfterNetloc(AfterScheme(u)), EndsPathPart)
    ensures '/' !in p.netloc && '?' !in p.netloc && '#' !in p.netloc
    ensures p.netloc != [] ==> p.path == [] || p.path[0] == '/'
    ensures '#' !in p.query
  {
    var scheme := match SchemeLength(u) case Some(i) => Lower(u[..i]) case None => "";
    var rest := AfterScheme(u);
    var netloc := if "//" <= rest then TakeUntil(rest[2..], EndsNetloc) else "";
    var tail := AfterNetloc(rest);
    var path := TakeUntil(tail, EndsPathPart);
    var query := if |path| < |tail| && tail[|path|] == '?' then TakeUntil(tail[|path| + 1..], IsHash) else "";
    var beforeFragment := TakeUntil(tail, IsHash);
    var fragment := if |beforeFragment| < |tail| then tail[|beforeFragment| + 1..] else "";
    Parts(scheme, netloc, path, query, fragment)
  }

  /** `urlunsplit` of an `https` URL with a netloc: an empty query or
      fragment leaves no `?` or `#` behind. */
  function Unsplit(netloc: string, path: string, query: string, fragment: string): (url: string)
    ensures "https://" + netloc <= url
    ensures url[|"https://" + netloc|..] == (if path != [] && path[0] != '/' then "/" + path else path)
      + (if query == [] then "" else "?" + query) + (if fragment == [] then "" else "#" + fragment)
  {
    "https://" + netloc + (if path != [] && path[0] != '/' then "/" + path else path)
      + (if query == [] then "" else "?" + query) + (if fragment == [] then "" else "#" + fragment)
  }

  /** The non-empty strings of `xs`, in order. */
  function NonEmpty(xs: seq<string>): (r: seq<string>)
    ensures forall i :: 0 <= i < |r| ==> r[i] != "" && r[i] in xs
    ensures forall s :: s in xs && s != "" ==> s in r
    decreases |xs|
  {
    if xs == [] then []
    else (if xs[0] == "" then [] else [xs[0]]) + NonEmpty(xs[1..])
  }

  /** The path `urljoin` gives a relative path against the base's empty
      path: its segments, with the empty ones before the last dropped,
      after a leading `/`. */
  function MergedPath(path: string): (r: string)
    requires path != [] && path[0] != '/'
    ensures r != [] && r[0] == '/'
    ensures var pieces := SplitOn(path, '/');
      SplitOn(r[1..], '/') == NonEmpty(pieces[..|pieces| - 1]) + [pieces[|pieces| - 1]]
  {
    var pieces := SplitOn(path, '/');
    var segments := NonEmpty(pieces[..|pieces| - 1]) + [pieces[|pieces| - 1]];
    SplitOnPieces(path, '/');
    forall i | 0 <= i < |segments| ensures '/' !in segments[i] {
      if i < |segments| - 1 {
        assert segments[i] in pieces[..|pieces| - 1];
      }
    }
    SplitJoin(segments, '/');
    var r := "/" + Join(segments, "/");
    assert r[1..] == Join(segments, "/");
    r
  }

  /** `urljoin(BASE_REPOSITUM, href)`: an empty reference is the base; a
      reference with a scheme other than `https` is returned as it was
      given; one with a netloc of its own keeps it; otherwise the base's
      netloc is used, with the relative path merged onto the base's. */
  function Resolve(href: string): (url: string)
    ensures href == [] ==> url == RepositoryBase
    ensures href != [] && Split(Cleaned(href)).scheme !in {"", "https"} ==> url == href
    ensures href != [] && Split(Cleaned(href)).scheme in {"", "https"} ==> "https://" <= url
    ensures SchemeLength(Cleaned(href)).None? && !("//" <= Cleaned(href)) ==> RepositoryBase <= url
  {
    var p := Split(Cleaned(href));
    if href == [] then RepositoryBase
    else if p.scheme !in {"", "https"} then href
    else if p.netloc != [] then Unsplit(p.netloc, p.path, p.query, p.fragment)
    else if p.path == [] then Unsplit(RepositoryHost, "", p.query, p.fragment)
    else if p.path[0] == '/' then Unsplit(RepositoryHost, p.path, p.query, p.fragment)
    else Unsplit(RepositoryHost, MergedPath(p.path), p.query, p.fragment)
  }

  /** A URL that starts with a printable character and holds no tab or
      line break is its own cleaned form. */
  lemma CleanedItself(u: string)
    requires u != [] && !IsC0OrSpace(u[0])
    requires forall i :: 0 <= i < |u| ==> !IsUnsafeUrlChar(u[i])
    ensures Cleaned(u) == u
  {
    assert TrimLeft(u, IsC0OrSpace) == u;
    RemoveUnsafeNone(u);
  }

  /** A reference that is only a path resolves onto the base's netloc: a
      root-relative path as it is, a relative one merged. */
  lemma ResolvePath(href: string, path: string)
    requires href != [] && path != []
    requires Split(Cleaned(href)) == Parts("", "", path, "", "")
    ensures path[0] == '/' ==> Resolve(href) == RepositoryBase + path
    ensures path[0] != '/' ==> Resolve(href) == RepositoryBase + MergedPath(path)
  {
  }

  /** A URL that is only a path, with no scheme and no netloc, splits into that path. */
  lemma PlainPathParts(u: string)
    requires u != [] && (!IsAsciiLetter(u[0]) || ':' !in u) && !("//" <= u)
    requires forall i :: 0 <= i < |u| ==> !EndsPathPart(u[i])
    ensures Split(u) == Parts("", "", u, "", "")
  {
    if Find(u, ":").Some? {
      var i := Find(u, ":").value;
      assert u[i..i + 1] == ":";
      assert u[i] == ':';
    }
    assert SchemeLength(u).None?;
    TakeUntilAll(u, EndsPathPart);
    TakeUntilAll(u, IsHash);
  }

  /** A `hdl.handle.net` link yields the handle, with its leading `/`, as path. */
  lemma HandleNetPath(h: string)
    requires forall i :: 0 <= i < |h| ==> !EndsPathPart(h[i]) && !IsUnsafeUrlChar(h[i])
    ensures UrlPath("http://hdl.handle.net/" + h) == "/" + h
  {
    HandleNetParts();
    assert "http://hdl.handle.net/" + h == "http" + [':'] + ("//" + "hdl.handle.net" + ("/" + h));
    HostUrlPath("http", "hdl.handle.net", "/" + h);
  }

  lemma HandleNetParts()
    ensures IsAsciiLetter("http"[0]) && forall k :: 0 <= k < |"http"| ==> IsSchemeChar("http"[k])
    ensures forall i :: 0 <= i < |"hdl.handle.net"| ==> !EndsNetloc("hdl.handle.net"[i]) && !IsUnsafeUrlChar("hdl.handle.net"[i])
  {
  }

  /** `scheme://host/path...` has `/path...` as path. */
  lemma HostUrlPath(scheme: string, host: string, path: string)
    requires scheme != [] && IsAsciiLetter(scheme[0])
    requires forall k :: 0 <= k < |scheme| ==> IsSchemeChar(scheme[k])
    requires forall i :: 0 <= i < |host| ==> !EndsNetloc(host[i]) && !IsUnsafeUrlChar(host[i])
    requires path != [] && path[0] == '/'
    requires forall i :: 0 <= i < |path| ==> !EndsPathPart(path[i]) && !IsUnsafeUrlChar(path[i])
    ensures UrlPath(scheme + [':'] + ("//" + host + path)) == path
  {
    var rest := "//" + host + path;
    forall i | 0 <= i < |rest| ensures !IsUnsafeUrlChar(rest[i]) {
      if 2 <= i < 2 + |host| {
        assert rest[i] == host[i - 2];
      } else if i >= 2 + |host| {
        assert rest[i] == path[i - 2 - |host|];
      }
    }
    var u := scheme + [':'] + rest;
    calc {
      UrlPath(u);
      TakeUntil(AfterNetloc(AfterScheme(Cleaned(u))), EndsPathPart);
      { SchemeUrlClean(scheme, rest); }
      TakeUntil(AfterNetloc(AfterScheme(u)), EndsPathPart);
      { SchemeSplit(scheme, rest); }
      TakeUntil(AfterNetloc(rest), EndsPathPart);
      { AfterNetlocOf(host, path); }
      TakeUntil(path, EndsPathPart);
      { TakeUntilAll(path, EndsPathPart); }
      path;
    }
  }

  /** A URL that starts with a well-formed scheme has the scheme split off. */
  lemma SchemeSplit(scheme: string, rest: string)
    requires scheme != [] && IsAsciiLetter(scheme[0])
    requires forall k :: 0 <= k < |scheme| ==> IsSchemeChar(scheme[k])
    ensures AfterScheme(scheme + [':'] + rest) == rest
  {
    var u := scheme + [':'] + rest;
    SchemeLengthOf(scheme, rest);
    assert u[|scheme| + 1..] == rest;
  }

  lemma SchemeLengthOf(scheme: string, rest: string)
    requires scheme != [] && IsAsciiLetter(scheme[0])
    requires forall k :: 0 <= k < |scheme| ==> IsSchemeChar(scheme[k])
    ensures SchemeLength(scheme + [':'] + rest) == Some(|scheme|)
  {
    var u := scheme + [':'] + rest;
    SchemeHasNoColon(scheme);
    FindFirstChar(scheme, ':', rest);
    assert forall k :: 0 <= k < |scheme| ==> u[k] == scheme[k];
  }

  lemma SchemeHasNoColon(scheme: string)
    requires forall k :: 0 <= k < |scheme| ==> IsSchemeChar(scheme[k])
    ensures ':' !in scheme
  {
    forall k | 0 <= k < |scheme| ensures scheme[k] != ':' {
      SchemeCharIsNotColon(scheme[k]);
    }
  }

  lemma SchemeCharIsNotColon(c: char)
    requires IsSchemeChar(c)
    ensures c != ':'
  {
  }

  /** Cleaning leaves a URL that starts with a scheme and holds no tab or line break alone. */
  lemma SchemeUrlClean(scheme: string, rest: string)
    requires scheme != [] && IsAsciiLetter(scheme[0])
    requires forall k :: 0 <= k < |scheme| ==> IsSchemeChar(scheme[k])
    requires forall i :: 0 <= i < |rest| ==> !IsUnsafeUrlChar(rest[i])
    ensures Cleaned(scheme + [':'] + rest) == scheme + [':'] + rest
  {
    var u := scheme + [':'] + rest;
    calc {
      Cleaned(u);
      RemoveUnsafe(TrimLeft(u, IsC0OrSpace));
      { assert IsAsciiLetter(u[0]); }
      RemoveUnsafe(u);
      { SchemeUrlSafe(scheme, rest); RemoveUnsafeNone(u); }
      u;
    }
  }

  lemma SchemeUrlSafe(scheme: string, rest: string)
    requires forall k :: 0 <= k < |scheme| ==> IsSchemeChar(scheme[k])
    requires forall i :: 0 <= i < |rest| ==> !IsUnsafeUrlChar(rest[i])
    ensures forall i :: 0 <= i < |scheme + [':'] + rest| ==> !IsUnsafeUrlChar((scheme + [':'] + rest)[i])
  {
    var u := scheme + [':'] + rest;
    forall i | 0 <= i < |u| ensures !IsUnsafeUrlChar(u[i]) {
      if i > |scheme| {
        assert u[i] == rest[i - |scheme| - 1];
      } else if i < |scheme| {
        assert u[i] == scheme[i];
      }
    }
  }

  lemma AfterNetlocOf(host: string, path: string)
    requires forall i :: 0 <= i < |host| ==> !EndsNetloc(host[i])
    requires path != [] && path[0] == '/'
    ensures AfterNetloc("//" + host + path) == path
  {
    var u := "//" + host + path;
    assert u[2..] == host + path;
    TakeUntilStops(host, path, EndsNetloc);
  }

  lemma {:induction false} FindFirstChar(a: string, c: char, b: string)
    requires c !in a
    ensures Find(a + [c] + b, [c]) == Some(|a|)
    decreases |a|
  {
    var u := a + [c] + b;
    if a == [] {
      assert [c] <= u;
    } else {
      assert u[0] == a[0] && a[0] != c;
      assert !([c] <= u);
      assert u[1..] == a[1..] + [c] + b;
      FindFirstChar(a[1..], c, b);
    }
  }

  lemma {:induction false} TakeUntilStops(a: string, b: string, stop: char -> bool)
    requires forall i :: 0 <= i < |a| ==> !stop(a[i])
    requires b != [] && stop(b[0])
    ensures TakeUntil(a + b, stop) == a
    decreases |a|
  {
    if a == [] {
      assert a + b == b;
    } else {
      assert (a + b)[1..] == a[1..] + b;
      TakeUntilStops(a[1..], b, stop);
    }
  }

  lemma {:induction false} TakeUntilAll(a: string, stop: char -> bool)
    requires forall i :: 0 <= i < |a| ==> !stop(a[i])
    ensures TakeUntil(a, stop) == a
    decreases |a|
  {
    if a != [] { TakeUntilAll(a[1..], stop); }
  }
}
