/** `_extract_handle_from_metadata` (data/ack_extractor.py:99-134): the
    repository handle of an item, read from its identifier fields. */
module Handles {

  import opened Wrappers
  import opened Text
  import opened Urls
  import opened Metadata

  /** The handle prefix every accepted candidate starts with (line 132). */
  const HandlePrefix: string := "20.500.12708/"

  /** A value holding this is read as a repository handle URL (line 114). */
  const HandlePathMarker: string := "repositum.tuwien.at/handle/"

  /** A value holding this (and not the marker above) is read as a resolver URL (line 117). */
  const ResolverHost: string := "hdl.handle.net"

  /** Line 109: only these two keys are looked at. */
  predicate IsIdentifierKey(k: MetaValue) {
    k == Str("dc.identifier.uri") || k == Str("dc.identifier")
  }

  predicate IsSlash(c: char) {
    c == '/'
  }

  /** The characters `rstrip(").,;\"'")` removes (line 127). */
  predicate IsTrailingPunct(c: char) {
    c == ')' || c == '.' || c == ',' || c == ';' || c == '"' || c == '\''
  }

  /** `v.split(sep, 1)[-1]`: what follows the first `sep`, or all of `v` when there is none. */
  function AfterFirst(v: string, sep: string): (r: string)
    ensures Contains(v, sep) ==> |r| + |sep| <= |v| && EndsWith(v, r)
    ensures Contains(v, sep) ==> exists i: nat ::
      (OccursAt(v, sep, i) && (forall j: nat :: j < i ==> !OccursAt(v, sep, j)) && r == v[i + |sep|..])
    ensures !Contains(v, sep) ==> r == v
  {
    match Find(v, sep)
    case None => v
    case Some(i) => v[i + |sep|..]
  }

  /** Branch 1 (line 115): the text after the first `/handle/`, stripped of
      white space and then of `/`. */
  function HandleUrlCandidate(v: string): (r: string)
    ensures r == [] || (r[0] != '/' && r[|r| - 1] != '/')
  {
    Trim(StripSpace(AfterFirst(v, "/handle/")), IsSlash)
  }

  /** Branch 2 (lines 119-121): the URL path stripped of `/`, when non-empty. */
  function ResolverUrlCandidate(v: string): (r: Option<string>)
    ensures r.Some? ==> r.value != [] && r.value[0] != '/' && r.value[|r.value| - 1] != '/'
  {
    var path := ResolverPath(v);
    if path == [] then None else Some(path)
  }

  /** `urlparse(v).path.strip("/")`. */
  function ResolverPath(v: string): (r: string)
    ensures r == [] || (r[0] != '/' && r[|r| - 1] != '/')
  {
    Trim(UrlPath(v), IsSlash)
  }


  /** `20\.500\.12708/\S+` matches at index `i`. */
  predicate MatchesAt(v: string, i: nat) {
    OccursAt(v, HandlePrefix, i) && i + |HandlePrefix| < |v| && !IsSpace(v[i + |HandlePrefix|])
  }

  /** The leftmost match at or after `from` (what `re.search` finds). */
  function FirstMatch(v: string, from: nat): (r: Option<nat>)
    requires from <= |v|
    ensures r.Some? ==> from <= r.value && MatchesAt(v, r.value)
    ensures r.Some? ==> forall j: nat :: from <= j < r.value ==> !MatchesAt(v, j)
    ensures r.None? ==> forall j: nat :: from <= j ==> !MatchesAt(v, j)
    decreases |v| - from
  {
    if from == |v| then None
    else if MatchesAt(v, from) then Some(from)
    else FirstMatch(v, from + 1)
  }

  /** What the handle prefix is made of: no white space, and a last
      character (`/`) that the trailing strip leaves alone. */
  lemma HandlePrefixShape()
    ensures |HandlePrefix| == 13 && HandlePrefix[12] == '/'
    ensures forall k :: 0 <= k < |HandlePrefix| ==> !IsSpace(HandlePrefix[k])
  {
    assert HandlePrefix == ['2', '0', '.', '5', '0', '0', '.', '1', '2', '7', '0', '8', '/'];
  }

  /** `r` starts at index `i` of `v` with `p`, holds no white space and does
      not end with `) . , ; " '`. */
  predicate IsTrimmedRun(v: string, p: string, i: nat, r: string) {
    r != [] && StartsWith(r, p) && OccursAt(v, r, i)
    && (forall k :: 0 <= k < |r| ==> !IsSpace(r[k]))
    && !IsTrailingPunct(r[|r| - 1])
  }

  /** No white space in `v` from index `a` through index `k`. */
  predicate NoSpaceThrough(v: string, a: nat, k: nat)
    requires k < |v|
  {
    forall m :: a <= m <= k ==> !IsSpace(v[m])
  }

  /** The run that starts at `i` with `r` was taken greedily: what follows
      `r` in `v`, up to the next white space, is trailing punctuation only. */
  predicate GreedyRun(v: string, i: nat, r: string) {
    forall k :: i + |r| <= k < |v| && NoSpaceThrough(v, i + |r|, k) ==> IsTrailingPunct(v[k])
  }

  /** The `\S+` run after a match of `p` at `i`, with trailing `) . , ; " '` removed. */
  function TrimmedMatch(v: string, p: string, i: nat): (r: string)
    requires OccursAt(v, p, i) && p != [] && p[|p| - 1] == '/'
    requires forall k :: 0 <= k < |p| ==> !IsSpace(p[k])
    ensures IsTrimmedRun(v, p, i, r)
    ensures GreedyRun(v, i, r)
  {
    var run := TakeUntil(v[i + |p|..], IsSpace);
    var r := TrimRight(p + run, IsTrailingPunct);
    MatchedRun(v, p, i, run, r);
    RunIsGreedy(v, p, i, run, r);
    r
  }

  /** Stripping the punctuation off the end of a white-space-delimited run
      leaves only punctuation between the result and the next white space. */
  lemma RunIsGreedy(v: string, p: string, i: nat, run: string, r: string)
    requires OccursAt(v, p, i)
    requires run == TakeUntil(v[i + |p|..], IsSpace)
    requires r == TrimRight(p + run, IsTrailingPunct)
    ensures GreedyRun(v, i, r)
  {
    var m := p + run;
    forall k | i + |r| <= k < |v| && NoSpaceThrough(v, i + |r|, k) ensures IsTrailingPunct(v[k]) {
      if k < i + |m| {
        assert v[k] == m[k - i] by {
          if k >= i + |p| {
            assert m[k - i] == run[k - i - |p|];
          } else {
            assert v[i..i + |p|] == p;
          }
        }
      }
    }
  }

  lemma MatchedRun(v: string, p: string, i: nat, run: string, r: string)
    requires OccursAt(v, p, i) && p != [] && p[|p| - 1] == '/'
    requires forall k :: 0 <= k < |p| ==> !IsSpace(p[k])
    requires run == TakeUntil(v[i + |p|..], IsSpace)
    requires r == TrimRight(p + run, IsTrailingPunct)
    ensures IsTrimmedRun(v, p, i, r)
  {
    var m := p + run;
    RunInText(v, p, i, run);
    TrimKeepsPrefix(m, p);
    OccursAtPrefix(v, m, i, r);
    assert forall k :: 0 <= k < |r| ==> r[k] == m[k];
  }

  /** The prefix and the white-space-free run after it sit together in `v`. */
  lemma RunInText(v: string, p: string, i: nat, run: string)
    requires OccursAt(v, p, i)
    requires forall k :: 0 <= k < |p| ==> !IsSpace(p[k])
    requires run == TakeUntil(v[i + |p|..], IsSpace)
    ensures OccursAt(v, p + run, i)
    ensures forall k :: 0 <= k < |p + run| ==> !IsSpace((p + run)[k])
  {
    var m := p + run;
    assert m == v[i..i + |m|];
    forall k | 0 <= k < |m| ensures !IsSpace(m[k]) {
      if k >= |p| { assert m[k] == run[k - |p|]; }
    }
  }

  /** The trailing strip never eats into a prefix that ends with a kept character. */
  lemma TrimKeepsPrefix(m: string, p: string)
    requires p <= m && p != [] && !IsTrailingPunct(p[|p| - 1])
    ensures p <= TrimRight(m, IsTrailingPunct)
  {
    var r := TrimRight(m, IsTrailingPunct);
    assert |r| >= |p|;
    assert r[..|p|] == m[..|p|];
  }

  lemma OccursAtPrefix(v: string, m: string, i: nat, r: string)
    requires OccursAt(v, m, i) && r <= m
    ensures OccursAt(v, r, i)
  {
    assert v[i..i + |r|] == m[..|r|];
  }

  /** `i` is where `re.search` finds `20\.500\.12708/\S+` in `v`. */
  predicate IsFirstMatch(v: string, i: nat) {
    MatchesAt(v, i) && forall j: nat :: j < i ==> !MatchesAt(v, j)
  }

  /** Branch 3 (lines 124-128): the leftmost match of `20\.500\.12708/\S+`,
      the `\S+` taken greedily, with trailing `) . , ; " '` removed. */
  function RawCandidate(v: string): (r: Option<string>)
    ensures r.Some? ==> exists i: nat ::
      (IsFirstMatch(v, i) && IsTrimmedRun(v, HandlePrefix, i, r.value) && GreedyRun(v, i, r.value))
    ensures r.None? <==> forall j: nat :: !MatchesAt(v, j)
  {
    match FirstMatch(v, 0)
    case None => None
    case Some(i) =>
      var h := HandleRunAt(v, i);
      assert IsFirstMatch(v, i);
      Some(h)
  }

  /** The handle text of a match at `i`. */
  function HandleRunAt(v: string, i: nat): (r: string)
    requires MatchesAt(v, i)
    ensures IsTrimmedRun(v, HandlePrefix, i, r)
    ensures GreedyRun(v, i, r)
  {
    HandlePrefixShape();
    TrimmedMatch(v, HandlePrefix, i)
  }

  /** Lines 114-128: the candidate a stripped, non-empty value yields, by
      the first of the three forms it has. */
  function ValueCandidate(v: string): (r: Option<string>)
    ensures Contains(v, HandlePathMarker) ==> r == Some(HandleUrlCandidate(v))
    ensures !Contains(v, HandlePathMarker) && Contains(v, ResolverHost) ==> r == ResolverUrlCandidate(v)
    ensures !Contains(v, HandlePathMarker) && !Contains(v, ResolverHost) ==> r == RawCandidate(v)
  {
    if Contains(v, HandlePathMarker) then Some(HandleUrlCandidate(v))
    else if Contains(v, ResolverHost) then ResolverUrlCandidate(v)
    else RawCandidate(v)
  }

  /** The candidate one metadata field contributes (lines 109-128), if any. */
  function CandidateOf(m: MetaField): (r: Option<string>)
    ensures !IsIdentifierKey(m.key) ==> r == None
    ensures StripSpace(GetAsText(m.value)) == [] ==> r == None
  {
    if !IsIdentifierKey(m.key) then None
    else
      var v := StripSpace(GetAsText(m.value));
      if v == [] then None else ValueCandidate(v)
  }

  /** The list `candidates` built by lines 107-128, in metadata order. */
  function Candidates(md: seq<MetaField>): (cs: seq<string>)
    ensures |cs| <= |md|
    decreases |md|
  {
    if md == [] then []
    else
      var rest := Candidates(md[1..]);
      match CandidateOf(md[0])
      case None => rest
      case Some(c) => [c] + rest
  }

  /** Every candidate comes from some field of the metadata. */
  lemma {:induction false} CandidatesFromFields(md: seq<MetaField>, c: string)
    requires c in Candidates(md)
    ensures exists k :: 0 <= k < |md| && CandidateOf(md[k]) == Some(c)
    decreases |md|
  {
    if CandidateOf(md[0]) != Some(c) {
      assert c in Candidates(md[1..]);
      CandidatesFromFields(md[1..], c);
      var k :| 0 <= k < |md[1..]| && CandidateOf(md[1..][k]) == Some(c);
      assert md[k + 1] == md[1..][k];
    }
  }

  /** Lines 131-134: the first candidate with the handle prefix. */
  function FirstWithPrefix(cs: seq<string>): (r: Option<string>)
    ensures r.None? <==> forall k :: 0 <= k < |cs| ==> !StartsWith(cs[k], HandlePrefix)
    ensures r.Some? ==> exists i :: (0 <= i < |cs| && cs[i] == r.value && StartsWith(cs[i], HandlePrefix)
      && forall j :: 0 <= j < i ==> !StartsWith(cs[j], HandlePrefix))
    decreases |cs|
  {
    if cs == [] then None
    else if StartsWith(cs[0], HandlePrefix) then Some(cs[0])
    else
      var r := FirstWithPrefix(cs[1..]);
      assert forall k :: 1 <= k < |cs| ==> cs[k] == cs[1..][k - 1];
      if r.Some? then
        var i :| 0 <= i < |cs[1..]| && cs[1..][i] == r.value && StartsWith(cs[1..][i], HandlePrefix)
          && forall j :: 0 <= j < i ==> !StartsWith(cs[1..][j], HandlePrefix);
        assert cs[i + 1] == r.value;
        r
      else r
  }

  /** The handle of an item, or `None`. */
  function HandleOf(md: seq<MetaField>): (r: Option<string>)
    ensures r.Some? ==> StartsWith(r.value, HandlePrefix) && r.value in Candidates(md)
    ensures r.None? <==> forall c :: c in Candidates(md) ==> !StartsWith(c, HandlePrefix)
  {
    FirstWithPrefix(Candidates(md))
  }

  lemma {:induction false} CandidatesAppend(a: seq<MetaField>, b: seq<MetaField>)
    ensures Candidates(a + b) == Candidates(a) + Candidates(b)
    decreases |a|
  {
    if a == [] {
      assert a + b == b;
    } else {
      assert (a + b)[1..] == a[1..] + b;
      CandidatesAppend(a[1..], b);
    }
  }

  lemma {:induction false} FirstWithPrefixAppend(a: seq<string>, b: seq<string>)
    ensures FirstWithPrefix(a + b) == if FirstWithPrefix(a).Some? then FirstWithPrefix(a) else FirstWithPrefix(b)
    decreases |a|
  {
    if a == [] {
      assert a + b == b;
    } else {
      assert (a + b)[1..] == a[1..] + b;
      FirstWithPrefixAppend(a[1..], b);
    }
  }

  /** Metadata is read front to back: a handle found in an earlier part wins
      over anything later. */
  lemma HandleOfAppend(a: seq<MetaField>, b: seq<MetaField>)
    ensures HandleOf(a + b) == if HandleOf(a).Some? then HandleOf(a) else HandleOf(b)
  {
    CandidatesAppend(a, b);
    FirstWithPrefixAppend(Candidates(a), Candidates(b));
  }

  /** Metadata without a `dc.identifier.uri` or `dc.identifier` field has no handle. */
  lemma {:induction false} NoIdentifierNoHandle(md: seq<MetaField>)
    requires forall k :: 0 <= k < |md| ==> !IsIdentifierKey(md[k].key)
    ensures Candidates(md) == [] && HandleOf(md) == None
    decreases |md|
  {
    if md != [] {
      assert forall k :: 0 <= k < |md[1..]| ==> md[1..][k] == md[k + 1];
      NoIdentifierNoHandle(md[1..]);
    }
  }

  /** Fields with another key, or with a blank value, never change the result. */
  lemma IgnoredFieldIrrelevant(a: seq<MetaField>, m: MetaField, b: seq<MetaField>)
    requires !IsIdentifierKey(m.key) || StripSpace(GetAsText(m.value)) == []
    ensures HandleOf(a + [m] + b) == HandleOf(a + b)
  {
    HandleOfAppend(a + [m], b);
    HandleOfAppend(a, [m]);
    HandleOfAppend(a, b);
    assert Candidates([m]) == [];
  }

  lemma CandidatesStep(md: seq<MetaField>, i: nat)
    requires i < |md|
    ensures Candidates(md[..i + 1]) ==
      Candidates(md[..i]) + if CandidateOf(md[i]).Some? then [CandidateOf(md[i]).value] else []
  {
    assert md[..i + 1] == md[..i] + [md[i]];
    CandidatesAppend(md[..i], [md[i]]);
    assert [md[i]][1..] == [];
  }

  /** The loops of lines 107-134. */
  method ExtractHandle(md: seq<MetaField>) returns (handle: Option<string>)
    ensures handle == HandleOf(md)
  {
    var candidates: seq<string> := [];
    var i := 0;
    while i < |md|
      invariant 0 <= i <= |md|
      invariant candidates == Candidates(md[..i])
    {
      CandidatesStep(md, i);
      var c := CandidateOf(md[i]);
      if c.Some? {
        candidates := candidates + [c.value];
      }
      i := i + 1;
    }
    assert md[..|md|] == md;
    var k := 0;
    while k < |candidates|
      invariant 0 <= k <= |candidates|
      invariant FirstWithPrefix(candidates) == FirstWithPrefix(candidates[k..])
    {
      assert candidates[k..][1..] == candidates[k + 1..];
      if StartsWith(candidates[k], HandlePrefix) {
        return Some(candidates[k]);
      }
      k := k + 1;
    }
    handle := None;
  }

  /** A handle without white space or `/` at its ends. */
  predicate IsBareHandle(h: string) {
    StartsWith(h, HandlePrefix) && !IsSpace(h[|h| - 1]) && h[|h| - 1] != '/'
  }

  /** The resolver URL form of line 104, up to the handle. */
  const ResolverUrl: string := "http://hdl.handle.net/"

  lemma ResolverUrlShape()
    ensures ResolverUrl == "http://hdl.handle.net/"
    ensures OccursAt(ResolverUrl, ResolverHost, 7)
  {
    var u := ResolverUrl;
    assert u == ['h','t','t','p',':','/','/','h','d','l','.','h','a','n','d','l','e','.','n','e','t','/'];
    assert u[7..21] == ResolverHost;
  }

  /** Stripping white space or `/` leaves a bare handle alone. */
  lemma BareHandleUnstripped(h: string)
    requires IsBareHandle(h)
    ensures StripSpace(h) == h && Trim(h, IsSlash) == h
  {
    HandlePrefixShape();
    assert h[0] == '2';
    assert TrimLeft(h, IsSpace) == h && TrimRight(h, IsSpace) == h;
    assert TrimLeft(h, IsSlash) == h && TrimRight(h, IsSlash) == h;
  }

  /** A value without white space at its ends is looked at as it is. */
  lemma UnstrippedValue(m: MetaField, v: string)
    requires IsIdentifierKey(m.key) && m.value == Str(v)
    requires v != [] && !IsSpace(v[0]) && !IsSpace(v[|v| - 1])
    ensures CandidateOf(m) == ValueCandidate(v)
  {
    assert TrimLeft(v, IsSpace) == v;
    assert TrimRight(v, IsSpace) == v;
  }

  /** Line 103: a value `u + h`, where `u` holds the repository marker and
      ends with its first `/handle/` (as `https://repositum.tuwien.at/handle/`
      does), yields `h`. */
  lemma RepositoryUrlYieldsHandle(u: string, h: string, k: nat)
    requires OccursAt(u, HandlePathMarker, k)
    requires |u| >= 8 && Find(u, "/handle/") == Some(|u| - 8)
    requires IsBareHandle(h)
    ensures ValueCandidate(u + h) == Some(h)
  {
    ContainsInPrefix(u, HandlePathMarker, h, k);
    HandleAfterMarker(u, h);
  }

  lemma ContainsInPrefix(u: string, t: string, h: string, k: nat)
    requires OccursAt(u, t, k)
    ensures Contains(u + h, t)
  {
    var v := u + h;
    assert OccursAt(v, t, k) by {
      assert v[k..k + |t|] == u[k..k + |t|];
    }
    OccursContains(v, t, k);
  }

  lemma HandleAfterMarker(u: string, h: string)
    requires |u| >= 8 && Find(u, "/handle/") == Some(|u| - 8)
    requires IsBareHandle(h)
    ensures HandleUrlCandidate(u + h) == h
  {
    BareHandleUnstripped(h);
    var v := u + h;
    FindInPrefix(u, "/handle/", h, |u| - 8);
    assert AfterFirst(v, "/handle/") == h by {
      assert v[|u|..] == h;
    }
  }

  lemma SlashHandle(h: string)
    requires IsBareHandle(h)
    ensures Trim("/" + h, IsSlash) == h
  {
    BareHandleUnstripped(h);
    var p := "/" + h;
    assert TrimLeft(p, IsSlash) == TrimLeft(h, IsSlash) by {
      assert p[1..] == h;
    }
  }

  /** Line 104: `http://hdl.handle.net/<h>` yields `<h>` (when it does not
      also hold the repository marker, which line 114 tests first). */
  lemma ResolverUrlYieldsHandle(h: string)
    requires IsBareHandle(h)
    requires forall i :: 0 <= i < |h| ==> !EndsPathPart(h[i]) && !IsUnsafeUrlChar(h[i])
    requires !Contains(ResolverUrl + h, HandlePathMarker)
    ensures ValueCandidate(ResolverUrl + h) == Some(h)
  {
    ResolverUrlShape();
    ContainsInPrefix(ResolverUrl, ResolverHost, h, 7);
    HandleNetPath(h);
    SlashHandle(h);
  }

  /** A field whose value is `u + h` with no white space at its ends
      contributes what that value yields. */
  lemma UrlFieldCandidate(m: MetaField, u: string, h: string)
    requires IsIdentifierKey(m.key) && m.value == Str(u + h)
    requires u != [] && !IsSpace(u[0]) && h != [] && !IsSpace(h[|h| - 1])
    ensures CandidateOf(m) == ValueCandidate(u + h)
  {
    var v := u + h;
    assert v[0] == u[0] && v[|v| - 1] == h[|h| - 1];
    UnstrippedValue(m, v);
  }

  /** `Find` on a prefix already decides `Find` on any extension of it. */
  lemma {:induction false} FindInPrefix(a: string, t: string, b: string, i: nat)
    requires Find(a, t) == Some(i)
    ensures Find(a + b, t) == Some(i)
  {
    var s := a + b;
    assert OccursAt(s, t, i) by {
      assert s[i..i + |t|] == a[i..i + |t|];
    }
    forall j: nat | j < i ensures !OccursAt(s, t, j) {
      assert !OccursAt(a, t, j);
      assert j + |t| <= |a|;
      assert s[j..j + |t|] == a[j..j + |t|];
    }
    FindFirstOccurrence(s, t, i);
  }

  /** `Find` returns the first occurrence. */
  lemma FindFirstOccurrence(s: string, t: string, i: nat)
    requires OccursAt(s, t, i)
    requires forall j: nat :: j < i ==> !OccursAt(s, t, j)
    ensures Find(s, t) == Some(i)
  {
    OccursContains(s, t, i);
    var k := Find(s, t).value;
    if k < i {
    } else if k > i {
    }
  }
}
