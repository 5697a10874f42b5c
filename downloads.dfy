/** `_download_pdf` and `fetch_repositum_pdfs_by_handle`
    (data/ack_extractor.py:162-202): every PDF link of an item's handle page
    is streamed into the `pdfs` directory under a name no earlier file has. */
module Downloads {

  import opened Wrappers
  import opened Text
  import opened Urls
  import opened Metadata
  import opened Web
  import opened Filenames
  import opened Handles
  import opened PdfLinks

  /** `dst_dir` (line 162). */
  const PdfDir: string := "pdfs"

  /** `os.path.join(dst_dir, name)` (lines 168 and 174). */
  function PathOf(name: string): (p: string)
    ensures |p| == |PdfDir| + 1 + |name| && p[|PdfDir| + 1..] == name
  {
    PdfDir + "/" + name
  }

  lemma PathOfInjective(a: string, b: string)
    requires PathOf(a) == PathOf(b)
    ensures a == b
  {
    assert a == PathOf(a)[|PdfDir| + 1..];
  }

  /** What one download leaves behind: the path returned, if any, and the
      names in the directory afterwards. */
  datatype Outcome = Outcome(path: Option<string>, names: set<string>)

  /** The name `_download_pdf` writes to in a directory holding `names` (lines 165-174). */
  function TargetName(url: string, hint: string, names: set<string>): (n: string)
    ensures n !in names
  {
    FreeName(PdfName(url, hint), names)
  }

  /** That name is always a PDF file name. */
  lemma TargetNameShape(url: string, hint: string, names: set<string>)
    ensures IsPdfName(TargetName(url, hint, names))
  {
    var name := PdfName(url, hint);
    PdfNameShape(url, hint);
    if name in names {
      var i :| 2 <= i && FreeName(name, names) == Numbered(name, i)
        && forall j :: 2 <= j < i ==> Numbered(name, j) in names;
      NumberedPdfName(name, i);
    }
  }

  /** Lines 162-187. A request that fails before an answer (the URL is not
      in `site.files`) and a non-200 answer leave the directory alone; a
      stream that breaks after the file was opened leaves a partial file
      and returns nothing. */
  function DownloadOutcome(url: string, hint: string, names: set<string>, site: Site): (r: Outcome)
    ensures r.path.Some? <==> url in site.files && site.files[url] == Served(200)
    ensures r.path.Some? ==> r.path.value == PathOf(TargetName(url, hint, names))
    ensures names <= r.names && r.names - names <= {TargetName(url, hint, names)}
    ensures r.path.Some? ==> r.names == names + {TargetName(url, hint, names)}
    ensures url in site.files && site.files[url] == BrokenStream ==> r.names == names + {TargetName(url, hint, names)}
    ensures (url !in site.files || site.files[url].Served?) && r.path.None? ==> r.names == names
  {
    var n := TargetName(url, hint, names);
    if url !in site.files then Outcome(None, names)
    else
      match site.files[url]
      case Served(status) => if status != 200 then Outcome(None, names) else Outcome(Some(PathOf(n)), names + {n})
      case BrokenStream => Outcome(None, names + {n})
  }

  /** `p` is a file with a PDF name that is in the directory `after` but was not in `before`. */
  ghost predicate NewPdf(p: string, before: set<string>, after: set<string>) {
    exists n :: p == PathOf(n) && n in after && n !in before && IsPdfName(n)
  }

  lemma NewPdfGrows(p: string, before: set<string>, mid: set<string>, after: set<string>)
    requires NewPdf(p, before, mid) && mid <= after
    ensures NewPdf(p, before, after)
  {
  }

  /** A file new since `mid` is also new since any `before` below `mid`. */
  lemma NewPdfWiden(p: string, before: set<string>, mid: set<string>, after: set<string>)
    requires NewPdf(p, mid, after) && before <= mid
    ensures NewPdf(p, before, after)
  {
  }

  /** A file already in `mid` is not one that is new after `mid`. */
  lemma NewPdfApart(p: string, before: set<string>, mid: set<string>, q: string, after: set<string>)
    requires NewPdf(p, before, mid) && NewPdf(q, mid, after)
    ensures p != q
  {
    var x :| p == PathOf(x) && x in mid && x !in before && IsPdfName(x);
    var y :| q == PathOf(y) && y in after && y !in mid && IsPdfName(y);
    if p == q {
      PathOfInjective(x, y);
    }
  }

  /** Downloading with the hint `report` into a directory that already
      holds `report.pdf` writes `report_2.pdf`: nothing is overwritten. */
  lemma ReportNotOverwritten(url: string)
    ensures TargetName(url, "report", {"report.pdf"}) == "report_2.pdf"
  {
    ReportHintName(url);
    ReportTakenGetsTwo("report.pdf");
  }

  /** A path `_download_pdf` returns names a new PDF file. */
  lemma DownloadIsNew(url: string, hint: string, names: set<string>, site: Site)
    requires DownloadOutcome(url, hint, names, site).path.Some?
    ensures var r := DownloadOutcome(url, hint, names, site); NewPdf(r.path.value, names, r.names)
  {
    TargetNameShape(url, hint, names);
  }

  /** The hint line 199 passes for URL `u`: the title, else the URL's base name. */
  function HintFor(u: string, title: string): string {
    if title != "" then title else Basename(UrlPath(u))
  }

  /** The paths collected and the directory after lines 197-201 have run on `urls`. */
  datatype Batch = Batch(paths: seq<string>, names: set<string>)

  /** The loop of lines 197-201 with `_download_pdf` abstracted as `step`:
      each URL is downloaded into the directory the previous ones left. */
  function Run(urls: seq<string>, step: (string, set<string>) -> Outcome, names: set<string>): (b: Batch)
    ensures |b.paths| <= |urls|
    decreases |urls|
  {
    if urls == [] then Batch([], names)
    else
      var n := |urls| - 1;
      var before := Run(urls[..n], step, names);
      var d := step(urls[n], before.names);
      Batch(before.paths + (if d.path.Some? then [d.path.value] else []), d.names)
  }

  /** `_download_pdf(u, title_hint or basename(...))` against `site` (line 199). */
  function DownloadStep(title: string, site: Site): (string, set<string>) -> Outcome {
    (u: string, ns: set<string>) => DownloadOutcome(u, HintFor(u, title), ns, site)
  }

  function DownloadAll(urls: seq<string>, title: string, names: set<string>, site: Site): Batch {
    Run(urls, DownloadStep(title, site), names)
  }

  /** A step only adds to the directory. */
  ghost predicate Grows(step: (string, set<string>) -> Outcome) {
    forall u, ns :: ns <= step(u, ns).names
  }

  /** A step returns only paths of new PDF files. */
  ghost predicate YieldsNew(step: (string, set<string>) -> Outcome) {
    forall u, ns :: step(u, ns).path.Some? ==> NewPdf(step(u, ns).path.value, ns, step(u, ns).names)
  }

  lemma DownloadStepFacts(title: string, site: Site)
    ensures Grows(DownloadStep(title, site)) && YieldsNew(DownloadStep(title, site))
  {
    var step := DownloadStep(title, site);
    forall u, ns | step(u, ns).path.Some?
      ensures NewPdf(step(u, ns).path.value, ns, step(u, ns).names)
    {
      DownloadIsNew(u, HintFor(u, title), ns, site);
    }
  }

  /** The URLs of `urls` the site serves with status 200. */
  function ServedUrls(urls: seq<string>, site: Site): (r: seq<string>)
    ensures |r| <= |urls|
    ensures forall u :: u in r <==> u in urls && u in site.files && site.files[u] == Served(200)
    decreases |urls|
  {
    if urls == [] then []
    else
      var n := |urls| - 1;
      var u := urls[n];
      var rest := ServedUrls(urls[..n], site);
      assert forall x :: x in urls <==> x in urls[..n] || x == u;
      rest + (if u in site.files && site.files[u] == Served(200) then [u] else [])
  }

  /** One more URL runs on top of what the URLs before it left. */
  lemma RunStep(urls: seq<string>, i: nat, step: (string, set<string>) -> Outcome, names: set<string>)
    requires i < |urls|
    ensures var before := Run(urls[..i], step, names);
      var d := step(urls[i], before.names);
      Run(urls[..i + 1], step, names) == Batch(before.paths + (if d.path.Some? then [d.path.value] else []), d.names)
  {
    assert urls[..i + 1][..i] == urls[..i];
  }

  /** One path per URL the site serves with status 200. */
  lemma {:induction false} RunCount(urls: seq<string>, step: (string, set<string>) -> Outcome, names: set<string>, site: Site)
    requires forall u, ns :: step(u, ns).path.Some? <==> u in site.files && site.files[u] == Served(200)
    ensures |Run(urls, step, names).paths| == |ServedUrls(urls, site)|
    decreases |urls|
  {
    if urls != [] {
      RunCount(urls[..|urls| - 1], step, names, site);
    }
  }

  /** The directory only grows. */
  lemma {:induction false} RunGrows(urls: seq<string>, step: (string, set<string>) -> Outcome, names: set<string>)
    requires Grows(step)
    ensures names <= Run(urls, step, names).names
    decreases |urls|
  {
    if urls != [] {
      RunGrows(urls[..|urls| - 1], step, names);
    }
  }

  /** Every entry of `ps` is a new PDF file of `after` that was not in `before`. */
  ghost predicate AllNew(ps: seq<string>, before: set<string>, after: set<string>) {
    forall k :: 0 <= k < |ps| ==> NewPdf(ps[k], before, after)
  }

  /** Every path returned is a new PDF file of the directory. */
  lemma {:induction false} RunNew(urls: seq<string>, step: (string, set<string>) -> Outcome, names: set<string>)
    requires Grows(step) && YieldsNew(step)
    ensures AllNew(Run(urls, step, names).paths, names, Run(urls, step, names).names)
    decreases |urls|
  {
    if urls != [] {
      var n := |urls| - 1;
      var before := Run(urls[..n], step, names);
      RunNew(urls[..n], step, names);
      RunGrows(urls[..n], step, names);
      var d := step(urls[n], before.names);
      var b := Run(urls, step, names);
      forall k | 0 <= k < |b.paths| ensures NewPdf(b.paths[k], names, b.names) {
        if k < |before.paths| {
          assert b.paths[k] == before.paths[k];
          NewPdfGrows(before.paths[k], names, before.names, b.names);
        } else {
          assert b.paths[k] == d.path.value;
          NewPdfWiden(d.path.value, names, before.names, b.names);
        }
      }
    }
  }

  /** No two entries of `ps` are equal. */
  ghost predicate Distinct(ps: seq<string>) {
    forall i, j :: 0 <= i < j < |ps| ==> ps[i] != ps[j]
  }

  /** No two paths returned are the same file. */
  lemma {:induction false} RunDistinct(urls: seq<string>, step: (string, set<string>) -> Outcome, names: set<string>)
    requires Grows(step) && YieldsNew(step)
    ensures Distinct(Run(urls, step, names).paths)
    decreases |urls|
  {
    if urls != [] {
      var n := |urls| - 1;
      var before := Run(urls[..n], step, names);
      RunDistinct(urls[..n], step, names);
      RunNew(urls[..n], step, names);
      var d := step(urls[n], before.names);
      if d.path.Some? {
        assert NewPdf(d.path.value, before.names, d.names);
        AppendDistinct(before.paths, d.path.value, names, before.names, d.names);
      }
    }
  }

  /** A new file appended to distinct older ones keeps them distinct. */
  lemma AppendDistinct(ps: seq<string>, p: string, names: set<string>, mid: set<string>, after: set<string>)
    requires Distinct(ps)
    requires AllNew(ps, names, mid)
    requires NewPdf(p, mid, after)
    ensures Distinct(ps + [p])
  {
    forall k | 0 <= k < |ps| ensures ps[k] != p {
      NewPdfApart(ps[k], names, mid, p, after);
    }
  }

  /** Lines 189-202: no handle, or no links on its page, means no download;
      otherwise every link, in sorted order, is downloaded. */
  ghost function FetchPdfs(md: seq<MetaField>, title: string, names: set<string>, site: Site): (b: Batch)
    ensures HandleOf(md).None? ==> b == Batch([], names)
  {
    match HandleOf(md)
    case None => Batch([], names)
    case Some(h) => DownloadAll(SortedOf(PageLinks(h, site)), title, names, site)
  }

  /** An item whose metadata has no identifier field downloads nothing and
      leaves the directory as it was. */
  lemma NoIdentifierNoDownload(md: seq<MetaField>, title: string, names: set<string>, site: Site)
    requires forall k :: 0 <= k < |md| ==> !IsIdentifierKey(md[k].key)
    ensures FetchPdfs(md, title, names, site) == Batch([], names)
  {
    NoIdentifierNoHandle(md);
  }

  /** The paths of one item are distinct new PDF files, one per PDF link of
      its handle page that the site serves with status 200. */
  lemma FetchPdfsFacts(md: seq<MetaField>, title: string, names: set<string>, site: Site, h: string)
    requires HandleOf(md) == Some(h)
    ensures var b := FetchPdfs(md, title, names, site);
      && names <= b.names
      && |b.paths| == |ServedUrls(SortedOf(PageLinks(h, site)), site)| <= |PageLinks(h, site)|
      && AllNew(b.paths, names, b.names)
      && Distinct(b.paths)
  {
    var urls := SortedOf(PageLinks(h, site));
    var step := DownloadStep(title, site);
    DownloadStepFacts(title, site);
    RunCount(urls, step, names, site);
    RunGrows(urls, step, names);
    RunNew(urls, step, names);
    RunDistinct(urls, step, names);
    DistinctCard(urls, PageLinks(h, site));
  }

  /** A strictly sorted listing of a set is as long as the set is large. */
  lemma {:induction false} DistinctCard(xs: seq<string>, s: set<string>)
    requires StrictlySorted(xs) && forall u :: u in xs <==> u in s
    ensures |xs| == |s|
    decreases |xs|
  {
    if xs != [] {
      var n := |xs| - 1;
      forall u ensures u in xs[..n] <==> u in s - {xs[n]} {
        if u in xs[..n] {
          var k :| 0 <= k < n && xs[k] == u;
          StrLessIrreflexive(u);
        }
        if u in s - {xs[n]} {
          var k :| 0 <= k < |xs| && xs[k] == u;
          assert k != n;
          assert xs[..n][k] == u;
        }
      }
      DistinctCard(xs[..n], s - {xs[n]});
    } else {
      assert s == {};
    }
  }

  /** The `pdfs` directory, as the set of names it holds. */
  class PdfFolder {
    var names: set<string>

    constructor(existing: set<string>)
      ensures names == existing
    {
      names := existing;
    }

    /** `_download_pdf(url, hint)`. */
    method Download(url: string, hint: string, site: Site) returns (path: Option<string>)
      modifies this
      ensures Outcome(path, names) == DownloadOutcome(url, hint, old(names), site)
    {
      var name := ChooseFreeName(PdfName(url, hint), names);
      path := None;
      if url !in site.files {
        return;
      }
      match site.files[url]
      case Served(status) =>
        if status == 200 {
          names := names + {name};
          path := Some(PathOf(name));
        }
      case BrokenStream =>
        names := names + {name};
    }

    /** `fetch_repositum_pdfs_by_handle(metadata, title)`. */
    method FetchForItem(md: seq<MetaField>, title: string, site: Site) returns (paths: seq<string>)
      modifies this
      ensures Batch(paths, names) == FetchPdfs(md, title, old(names), site)
    {
      var handle := ExtractHandle(md);
      if handle.None? {
        return [];
      }
      var urls := ScrapePdfLinks(handle.value, site);
      paths := [];
      var i := 0;
      while i < |urls|
        invariant 0 <= i <= |urls|
        invariant Batch(paths, names) == DownloadAll(urls[..i], title, old(names), site)
      {
        RunStep(urls, i, DownloadStep(title, site), old(names));
        var p := Download(urls[i], HintFor(urls[i], title), site);
        if p.Some? {
          paths := paths + [p.value];
        }
        i := i + 1;
      }
      assert urls[..i] == urls;
    }
  }
}
