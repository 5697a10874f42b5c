/** `_scrape_pdf_links_from_handle` (data/ack_extractor.py:136-160): the
    absolute URLs of the PDF bitstreams a handle page links to, sorted. */
module PdfLinks {

  import opened Wrappers
  import opened Text
  import opened Urls
  import opened Web

  /** Line 140. */
  function HandlePageUrl(handle: string): string {
    RepositoryBase + "/handle/" + handle
  }

  /** Lines 150-155: a bitstream link that looks like a PDF by its `href`,
      its `type` or its text. */
  predicate IsPdfLink(a: Anchor) {
    Contains(a.href, "/bitstream/")
    && (EndsWith(Lower(a.href), ".pdf") || Contains(Lower(a.typ), "pdf") || Contains(Lower(a.text), "pdf"))
  }

  /** What one anchor adds to the set (lines 151-156). */
  function LinkOf(a: Anchor): (r: Option<string>)
    ensures r.Some? <==> IsPdfLink(a)
    ensures r.Some? ==> r.value == Resolve(a.href)
  {
    if IsPdfLink(a) then Some(Resolve(a.href)) else None
  }

  /** The values `f` yields on `anchors`. */
  function Collected(anchors: seq<Anchor>, f: Anchor -> Option<string>): set<string>
    decreases |anchors|
  {
    if anchors == [] then {}
    else
      var n := |anchors| - 1;
      var rest := Collected(anchors[..n], f);
      match f(anchors[n])
      case Some(u) => rest + {u}
      case None => rest
  }

  lemma {:induction false} CollectedMembers(anchors: seq<Anchor>, f: Anchor -> Option<string>, u: string)
    ensures u in Collected(anchors, f) <==> exists k :: 0 <= k < |anchors| && f(anchors[k]) == Some(u)
    decreases |anchors|
  {
    if anchors != [] {
      var n := |anchors| - 1;
      var init := anchors[..n];
      CollectedMembers(init, f, u);
      if u in Collected(anchors, f) {
        if u in Collected(init, f) {
          var k :| 0 <= k < n && f(init[k]) == Some(u);
          assert f(anchors[k]) == Some(u);
        } else {
          assert f(anchors[n]) == Some(u);
        }
      } else {
        forall k | 0 <= k < |anchors| ensures f(anchors[k]) != Some(u) {
          if k < n {
            assert anchors[k] == init[k];
          }
        }
      }
    }
  }

  /** The set `pdfs` of line 147 once the loop of lines 148-156 has seen `anchors`. */
  function LinkSet(anchors: seq<Anchor>): set<string> {
    Collected(anchors, LinkOf)
  }

  /** The links collected are exactly the resolved `href`s of the PDF anchors. */
  lemma LinkSetMembers(anchors: seq<Anchor>, u: string)
    ensures u in LinkSet(anchors) <==> exists k :: 0 <= k < |anchors| && LinkOf(anchors[k]) == Some(u)
  {
    CollectedMembers(anchors, LinkOf, u);
  }

  /** The links the handle page offers: none without a handle (line 138),
      when the request fails (lines 158-160) or when the page does not
      answer 200 (lines 143-145). */
  function PageLinks(handle: string, site: Site): (r: set<string>)
    ensures handle == "" || HandlePageUrl(handle) !in site.pages ==> r == {}
    ensures handle != "" && HandlePageUrl(handle) in site.pages && site.pages[HandlePageUrl(handle)].status != 200 ==> r == {}
  {
    if handle == "" || HandlePageUrl(handle) !in site.pages then {}
    else
      var page := site.pages[HandlePageUrl(handle)];
      if page.status != 200 then {} else LinkSet(page.anchors)
  }

  /** Lines 136-160: the links of `PageLinks`, in `sorted` order. */
  method ScrapePdfLinks(handle: string, site: Site) returns (urls: seq<string>)
    ensures StrictlySorted(urls)
    ensures forall u :: u in urls <==> u in PageLinks(handle, site)
    ensures urls == SortedOf(PageLinks(handle, site))
  {
    if handle == "" {
      SortedUnique([], SortedOf({}));
      return [];
    }
    var url := HandlePageUrl(handle);
    if url !in site.pages {
      SortedUnique([], SortedOf({}));
      return [];
    }
    var page := site.pages[url];
    if page.status != 200 {
      SortedUnique([], SortedOf({}));
      return [];
    }
    var pdfs: set<string> := {};
    var i := 0;
    while i < |page.anchors|
      invariant 0 <= i <= |page.anchors|
      invariant pdfs == LinkSet(page.anchors[..i])
    {
      var a := page.anchors[i];
      assert page.anchors[..i + 1][..i] == page.anchors[..i];
      if IsPdfLink(a) {
        pdfs := pdfs + {Resolve(a.href)};
      }
      i := i + 1;
    }
    assert page.anchors[..i] == page.anchors;
    urls := Sorted(pdfs);
    SortedUnique(urls, SortedOf(PageLinks(handle, site)));
  }

  /** `m` is the least element of `s`. */
  predicate IsLeast(m: string, s: set<string>) {
    m in s && forall y :: y in s ==> y == m || StrLess(m, y)
  }

  /** Every non-empty set of strings has a least element. */
  lemma MinimumExists(s: set<string>)
    requires s != {}
    ensures exists m :: IsLeast(m, s)
    decreases s
  {
    var x :| x in s;
    if s == {x} {
      assert IsLeast(x, s);
    } else {
      var t := s - {x};
      MinimumExists(t);
      var m :| IsLeast(m, t);
      assert s == t + {x};
      LeastWithOneMore(m, t, x);
    }
  }

  /** Adding `x` to a set with least element `m` gives a set whose least
      element is the smaller of the two. */
  lemma LeastWithOneMore(m: string, t: set<string>, x: string)
    requires IsLeast(m, t) && x !in t
    ensures IsLeast(if StrLess(x, m) then x else m, t + {x})
  {
    StrLessTotal(x, m);
    if StrLess(x, m) {
      forall y | y in t + {x} ensures y == x || StrLess(x, y) {
        if y != x && y != m {
          StrLessTransitive(x, m, y);
        }
      }
    }
  }

  /** Every finite set of strings has a strictly sorted listing. */
  lemma SortedExists(s: set<string>)
    ensures exists xs :: StrictlySorted(xs) && forall u :: u in xs <==> u in s
    decreases s
  {
    if s == {} {
      assert StrictlySorted([]);
    } else {
      MinimumExists(s);
      var m :| IsLeast(m, s);
      SortedExists(s - {m});
      var ys :| StrictlySorted(ys) && forall u :: u in ys <==> u in s - {m};
      var xs := [m] + ys;
      forall i, j | 0 <= i < j < |xs| ensures StrLess(xs[i], xs[j]) {
        if i > 0 {
          assert xs[i] == ys[i - 1] && xs[j] == ys[j - 1];
        } else {
          assert xs[j] == ys[j - 1];
          assert xs[j] in s - {m};
        }
      }
      assert StrictlySorted(xs);
      assert forall u :: u in xs <==> u in s;
    }
  }

  /** `sorted(s)`: the one strictly sorted listing of `s`. */
  ghost function SortedOf(s: set<string>): (xs: seq<string>)
    ensures StrictlySorted(xs) && forall u :: u in xs <==> u in s
  {
    SortedExists(s);
    var xs :| StrictlySorted(xs) && forall u :: u in xs <==> u in s;
    xs
  }

  /** `sorted(s)` on a set of strings: its elements in increasing order. */
  method Sorted(s: set<string>) returns (xs: seq<string>)
    ensures xs == SortedOf(s)
  {
    xs := [];
    var rest := s;
    while rest != {}
      invariant StrictlySorted(xs)
      invariant forall u :: u in s <==> u in xs || u in rest
      invariant forall k, u :: 0 <= k < |xs| && u in rest ==> StrLess(xs[k], u)
      decreases |rest|
    {
      MinimumExists(rest);
      var m :| IsLeast(m, rest);
      xs := xs + [m];
      rest := rest - {m};
    }
    SortedUnique(xs, SortedOf(s));
  }

  /** A set has only one strictly sorted listing, so the result of `sorted`
      is fixed by the set alone. */
  lemma {:induction false} SortedUnique(xs: seq<string>, ys: seq<string>)
    requires StrictlySorted(xs) && StrictlySorted(ys)
    requires forall u :: u in xs <==> u in ys
    ensures xs == ys
    decreases |xs|
  {
    SameElementsBothEmpty(xs, ys);
    if xs != [] {
      assert xs[0] in xs && ys[0] in ys;
      if xs[0] != ys[0] {
        var j :| 0 <= j < |xs| && xs[j] == ys[0];
        var k :| 0 <= k < |ys| && ys[k] == xs[0];
        assert StrLess(xs[0], ys[0]);
        StrLessAsymmetric(xs[0], ys[0]);
        assert false;
      }
      forall u ensures u in xs[1..] <==> u in ys[1..] {
        if u in xs[1..] { TailMember(xs, ys, u); }
        if u in ys[1..] { TailMember(ys, xs, u); }
      }
      SortedUnique(xs[1..], ys[1..]);
      assert xs == [xs[0]] + xs[1..] && ys == [ys[0]] + ys[1..];
    }
  }

  lemma SameElementsBothEmpty(xs: seq<string>, ys: seq<string>)
    requires forall u :: u in xs <==> u in ys
    ensures xs == [] <==> ys == []
  {
    if xs != [] {
      assert xs[0] in xs;
    }
    if ys != [] {
      assert ys[0] in ys;
    }
  }

  lemma TailMember(xs: seq<string>, ys: seq<string>, u: string)
    requires StrictlySorted(xs) && StrictlySorted(ys) && xs != [] && ys != [] && xs[0] == ys[0]
    requires forall u :: u in xs <==> u in ys
    requires u in xs[1..]
    ensures u in ys[1..]
  {
    var j :| 1 <= j < |xs| && xs[j] == u;
    StrLessIrreflexive(u);
    assert u != xs[0];
    assert u in ys;
    var k :| 0 <= k < |ys| && ys[k] == u;
    assert ys[1..][k - 1] == u;
  }

  /** A root-relative bitstream link (`/bitstream/...`) without query or
      fragment resolves to the repository base followed by the link. */
  lemma RootRelativeLink(href: string)
    requires href != [] && href[0] == '/' && !("//" <= href)
    requires forall i :: 0 <= i < |href| ==> !IsUnsafeUrlChar(href[i]) && !EndsPathPart(href[i])
    ensures Resolve(href) == RepositoryBase + href
  {
    CleanedItself(href);
    PlainPathParts(href);
    ResolvePath(href, href);
  }

  /** An empty query or fragment is dropped: a bitstream link ending in a
      bare `?` or `#` resolves as the link without it. */
  lemma EmptySeparatorDropped(href: string, sep: char)
    requires href != [] && href[0] == '/' && !("//" <= href)
    requires forall i :: 0 <= i < |href| ==> !IsUnsafeUrlChar(href[i]) && !EndsPathPart(href[i])
    requires EndsPathPart(sep)
    ensures Resolve(href + [sep]) == RepositoryBase + href
  {
    TrailingSeparatorPlain(href, sep);
    ResolvePath(href + [sep], href);
  }

  lemma TrailingSeparatorPlain(href: string, sep: char)
    requires href != [] && href[0] == '/' && !("//" <= href)
    requires forall i :: 0 <= i < |href| ==> !IsUnsafeUrlChar(href[i]) && !EndsPathPart(href[i])
    requires EndsPathPart(sep)
    ensures Split(Cleaned(href + [sep])) == Parts("", "", href, "", "")
  {
    var u := href + [sep];
    TrailingSeparatorParts(href, sep);
    assert Split(u) == Parts("", "", href, "", "");
    TrailingSeparatorClean(href, sep);
  }

  lemma TrailingSeparatorClean(href: string, sep: char)
    requires href != [] && href[0] == '/'
    requires forall i :: 0 <= i < |href| ==> !IsUnsafeUrlChar(href[i])
    requires EndsPathPart(sep)
    ensures Cleaned(href + [sep]) == href + [sep]
  {
    var u := href + [sep];
    forall i | 0 <= i < |u| ensures !IsUnsafeUrlChar(u[i]) {
      if i < |href| { assert u[i] == href[i]; }
    }
    CleanedItself(u);
  }

  lemma TrailingSeparatorParts(href: string, sep: char)
    requires href != [] && href[0] == '/' && !("//" <= href)
    requires forall i :: 0 <= i < |href| ==> !EndsPathPart(href[i])
    requires EndsPathPart(sep)
    ensures Split(href + [sep]) == Parts("", "", href, "", "")
  {
    var u := href + [sep];
    assert !("//" <= u) by {
      if |href| >= 2 {
        assert u[1] == href[1];
      } else {
        assert u[1] == sep;
      }
    }
    assert SchemeLength(u).None?;
    assert AfterNetloc(AfterScheme(u)) == u;
    TakeUntilStops(href, [sep], EndsPathPart);
    if sep == '#' {
      TakeUntilStops(href, [sep], IsHash);
    } else {
      forall i | 0 <= i < |u| ensures !IsHash(u[i]) {
        if i < |href| { assert u[i] == href[i]; }
      }
      TakeUntilAll(u, IsHash);
    }
  }

  /** A relative link is merged onto the base's empty path, and the empty
      segment between two of its `/` is dropped. */
  lemma RelativeEmptySegment(a: string, b: string)
    requires a != [] && b != []
    requires forall i :: 0 <= i < |a| ==> !IsC0OrSpace(a[i]) && !EndsNetloc(a[i]) && a[i] != ':'
    requires forall i :: 0 <= i < |b| ==> !IsC0OrSpace(b[i]) && !EndsNetloc(b[i]) && b[i] != ':'
    ensures Resolve(a + "//" + b) == RepositoryBase + ("/" + a + "/" + b)
  {
    var u := a + "//" + b;
    RelativeParts(a, b);
    ResolvePath(u, u);
    SlashSlashMerged(a, b);
  }

  lemma RelativeParts(a: string, b: string)
    requires a != [] && b != []
    requires forall i :: 0 <= i < |a| ==> !IsC0OrSpace(a[i]) && !EndsNetloc(a[i]) && a[i] != ':'
    requires forall i :: 0 <= i < |b| ==> !IsC0OrSpace(b[i]) && !EndsNetloc(b[i]) && b[i] != ':'
    ensures Split(Cleaned(a + "//" + b)) == Parts("", "", a + "//" + b, "", "")
    ensures (a + "//" + b)[0] != '/'
  {
    var u := a + "//" + b;
    forall i | 0 <= i < |u| ensures !IsUnsafeUrlChar(u[i]) && !EndsPathPart(u[i]) && u[i] != ':' {
      if i < |a| { assert u[i] == a[i]; }
      else if i >= |a| + 2 { assert u[i] == b[i - |a| - 2]; }
    }
    assert u[0] == a[0];
    CleanedItself(u);
    PlainPathParts(u);
  }

  lemma SlashSlashMerged(a: string, b: string)
    requires a != [] && '/' !in a && '/' !in b
    ensures MergedPath(a + "//" + b) == "/" + a + "/" + b
  {
    SlashSlashPieces(a, b);
    var pieces := [a, "", b];
    assert pieces[..|pieces| - 1] == [a, ""] && pieces[|pieces| - 1] == b;
    assert [a, ""][1..] == [""] && [""][1..] == [];
    assert NonEmpty([a, ""]) == [a];
    assert [a, b][1..] == [b];
    assert Join([a, b], "/") == a + "/" + b;
  }

  lemma SlashSlashPieces(a: string, b: string)
    requires '/' !in a && '/' !in b
    ensures SplitOn(a + "//" + b, '/') == [a, "", b]
  {
    SplitOnFree(a, "//" + b, '/');
    SplitOnFree(b, "", '/');
    assert b + "" == b;
    assert ("//" + b)[1..] == "/" + b;
    assert ("/" + b)[1..] == b;
    assert SplitOn("//" + b, '/') == ["", "", b];
    assert a + "//" + b == a + ("//" + b);
    assert a + "" == a;
  }

  /** Of a `.pdf` and a `.txt` bitstream link without type or text, only
      the first is collected. */
  lemma PdfNotText(a: Anchor, b: Anchor)
    requires a == Anchor("/bitstream/x/y.pdf", "", "") && b == Anchor("/bitstream/x/y.txt", "", "")
    ensures LinkSet([a, b]) == {RepositoryBase + a.href}
  {
    PdfAnchor(a.href);
    TextAnchor(b.href);
    LinkSetOfTwo(a, b, RepositoryBase + a.href);
  }

  lemma LinkSetOfTwo(a: Anchor, b: Anchor, u: string)
    requires LinkOf(a) == Some(u) && LinkOf(b) == None
    ensures LinkSet([a, b]) == {u}
  {
    assert [a, b][..1] == [a];
    assert [a][..0] == [];
    assert Collected([a], LinkOf) == {u};
    assert Collected([a, b], LinkOf) == Collected([a], LinkOf);
  }

  lemma PdfAnchor(href: string)
    requires href == "/bitstream/x/y.pdf"
    ensures LinkOf(Anchor(href, "", "")) == Some(RepositoryBase + href)
  {
    PdfHrefQualifies(href);
    PlainBitstreamHref(href);
    RootRelativeLink(href);
  }

  lemma PdfHrefQualifies(href: string)
    requires href == "/bitstream/x/y.pdf"
    ensures IsPdfLink(Anchor(href, "", ""))
  {
    OccursContains(href, "/bitstream/", 0);
    assert Lower(href)[|href| - 4..] == ".pdf";
  }

  lemma PlainBitstreamHref(href: string)
    requires href == "/bitstream/x/y.pdf"
    ensures href != [] && href[0] == '/' && !("//" <= href)
    ensures forall i :: 0 <= i < |href| ==> !IsUnsafeUrlChar(href[i]) && !EndsPathPart(href[i])
  {
    assert href[1] == 'b';
  }

  lemma TextAnchor(href: string)
    requires href == "/bitstream/x/y.txt"
    ensures LinkOf(Anchor(href, "", "")) == None
  {
    assert Lower(href)[|href| - 1] == 't';
    assert Lower("") == "";
    assert !Contains("", "pdf");
  }
}
