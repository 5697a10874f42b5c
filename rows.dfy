/** The row `query_repositum` builds for one item (data/ack_extractor.py:229-266).
    Each column is a comprehension over the item's metadata; a comprehension
    that reads a missing member or joins a `null` raises, and the item is
    then skipped (the `except` of lines 272-273). */
module Rows {

  import opened Wrappers
  import opened Text
  import opened Metadata
  import opened Filenames
  import opened Handles
  import opened Downloads

  const OrgunitKey: string := "tuw.publication.orgunit"
  const TitleKey: string := "dc.title"
  const LevelKey: string := "dc.type.qualificationlevel"
  const TypeKey: string := "dc.type"
  const DateKey: string := "dc.date.issued"
  const AuthorKey: string := "dc.contributor.author"
  const AbstractKey: string := "dc.description.abstract"
  const DoiKey: string := "tuw.publisher.doi"
  const PublisherKey: string := "tuw.relation.publisher"

  /** The filter of a comprehension: `m["key"] == key`, and
      `m.get("language") == lang` when a language is asked for. */
  predicate Selects(m: MetaField, key: string, lang: Option<string>) {
    m.key == Str(key) && (lang.None? || m.language == Str(lang.value))
  }

  /** The `value`s of the fields a comprehension selects, in metadata order. */
  function Selected(md: seq<MetaField>, key: string, lang: Option<string>): (vs: seq<MetaValue>)
    ensures |vs| <= |md|
    decreases |md|
  {
    if md == [] then []
    else (if Selects(md[0], key, lang) then [md[0].value] else []) + Selected(md[1..], key, lang)
  }

  lemma {:induction false} SelectedMembers(md: seq<MetaField>, key: string, lang: Option<string>, v: MetaValue)
    ensures v in Selected(md, key, lang) <==> exists k :: 0 <= k < |md| && Selects(md[k], key, lang) && md[k].value == v
    decreases |md|
  {
    if md != [] {
      SelectedMembers(md[1..], key, lang, v);
      if v in Selected(md[1..], key, lang) {
        var k :| 0 <= k < |md[1..]| && Selects(md[1..][k], key, lang) && md[1..][k].value == v;
        assert md[k + 1] == md[1..][k];
      }
      if exists k :: 0 <= k < |md| && Selects(md[k], key, lang) && md[k].value == v {
        var k :| 0 <= k < |md| && Selects(md[k], key, lang) && md[k].value == v;
        if k > 0 {
          assert md[1..][k - 1] == md[k];
        }
      }
    }
  }

  /** `m["value"]` used as a `str` (joined or sliced): a missing member
      raises `KeyError`, a `null` one `TypeError`. */
  function Strs(vs: seq<MetaValue>): (r: Option<seq<string>>)
    ensures r.Some? <==> forall k :: 0 <= k < |vs| ==> vs[k].Str?
    ensures r.Some? ==> |r.value| == |vs| && forall k :: 0 <= k < |vs| ==> r.value[k] == vs[k].s
    decreases |vs|
  {
    if vs == [] then Some([])
    else if !vs[0].Str? then None
    else
      match Strs(vs[1..])
      case None => None
      case Some(rest) => Some([vs[0].s] + rest)
  }

  /** `str(m["value"])`: a missing member raises `KeyError`, `null` prints as `"None"`. */
  function Printed(vs: seq<MetaValue>): (r: Option<seq<string>>)
    ensures r.Some? <==> forall k :: 0 <= k < |vs| ==> !vs[k].Absent?
    ensures r.Some? ==> |r.value| == |vs| && forall k :: 0 <= k < |vs| ==> r.value[k] == GetAsText(vs[k])
    decreases |vs|
  {
    if vs == [] then Some([])
    else if vs[0].Absent? then None
    else
      match Printed(vs[1..])
      case None => None
      case Some(rest) => Some([GetAsText(vs[0])] + rest)
  }

  /** `s[0:4]`. */
  function Prefix4(s: string): (r: string)
    ensures r <= s
    ensures |r| == if |s| <= 4 then |s| else 4
  {
    if |s| <= 4 then s else s[..4]
  }

  /** The `pub_type` column: a concatenation in metadata order, or (for
      `"publication"`) the `"".join` of a set, whose order Python leaves open. */
  datatype SubType = Ordered(s: string) | Unordered(parts: set<string>)

  /** The columns read from the metadata. `orgunit` is the `";".join` of a
      set, kept here as that set. */
  datatype Fields = Fields(
    orgunit: set<string>, title: string, pubType: SubType, dateIssued: string,
    authors: string, abstractEn: string, abstractDe: string, doi: string, publisher: string)

  /** The row appended at lines 254-266. */
  datatype Row = Row(fields: Fields, pdfPaths: string, pdfCount: nat)

  /** Lines 234-239: which `pub_type` column the harvested collection asks for. */
  function SubTypeOf(md: seq<MetaField>, pubType: string): (r: Option<SubType>)
    ensures pubType != "thesis" && pubType != "publication" ==> r == Some(Ordered(""))
    ensures pubType == "thesis" && r.Some? ==> r.value.Ordered?
    ensures pubType == "publication" && r.Some? ==> r.value.Unordered?
  {
    if pubType == "thesis" then
      match Strs(Selected(md, LevelKey, None))
      case None => None
      case Some(xs) => Some(Ordered(Concat(xs)))
    else if pubType == "publication" then
      match Strs(Selected(md, TypeKey, Some("en")))
      case None => None
      case Some(xs) => Some(Unordered(set x | x in xs))
    else Some(Ordered(""))
  }

  /** Lines 231-245: the columns, or `None` when one of the comprehensions raises. */
  function ExtractFields(md: seq<MetaField>, pubType: string): (r: Option<Fields>)
    ensures (exists k :: 0 <= k < |md| && md[k].key.Absent?) ==> r == None
    ensures r.Some? ==> SubTypeOf(md, pubType) == Some(r.value.pubType)
  {
    if exists k :: 0 <= k < |md| && md[k].key.Absent? then None
    else
      var org := Strs(Selected(md, OrgunitKey, None));
      var title := Strs(Selected(md, TitleKey, None));
      var sub := SubTypeOf(md, pubType);
      var date := Strs(Selected(md, DateKey, None));
      var authors := Strs(Selected(md, AuthorKey, None));
      var en := Printed(Selected(md, AbstractKey, Some("en")));
      var de := Printed(Selected(md, AbstractKey, Some("de")));
      var doi := Printed(Selected(md, DoiKey, None));
      var publisher := Printed(Selected(md, PublisherKey, None));
      if org.None? || title.None? || sub.None? || date.None? || authors.None?
        || en.None? || de.None? || doi.None? || publisher.None? then None
      else
        Some(Fields(set x | x in org.value :: Prefix4(x), Concat(title.value), sub.value, Concat(date.value),
          Join(authors.value, ","), Concat(en.value), Concat(de.value), Concat(doi.value), Concat(publisher.value)))
  }

  /** Lines 254-266: the row for the columns and the downloaded paths. */
  function MakeRow(f: Fields, paths: seq<string>): (r: Row)
    ensures r.pdfCount == |paths|
    ensures paths == [] ==> r.pdfPaths == ""
  {
    Row(f, Join(paths, ";"), |paths|)
  }

  /** The field `m` is read with `m["value"]` as a `str`. */
  predicate ReadAsStr(m: MetaField, pubType: string) {
    Selects(m, OrgunitKey, None) || Selects(m, TitleKey, None) || Selects(m, DateKey, None)
    || Selects(m, AuthorKey, None)
    || (pubType == "thesis" && Selects(m, LevelKey, None))
    || (pubType == "publication" && Selects(m, TypeKey, Some("en")))
  }

  /** The field `m` is read with `str(m["value"])`. */
  predicate ReadPrinted(m: MetaField) {
    Selects(m, AbstractKey, Some("en")) || Selects(m, AbstractKey, Some("de"))
    || Selects(m, DoiKey, None) || Selects(m, PublisherKey, None)
  }

  /** When Python raises on the item: a field without `key`, a field read as
      a `str` whose `value` is missing or `null`, or a field printed with
      `str` whose `value` is missing. */
  predicate Raises(md: seq<MetaField>, pubType: string) {
    exists k :: 0 <= k < |md| &&
      (md[k].key.Absent?
       || (ReadAsStr(md[k], pubType) && !md[k].value.Str?)
       || (ReadPrinted(md[k]) && md[k].value.Absent?))
  }

  lemma StrsFails(md: seq<MetaField>, key: string, lang: Option<string>)
    ensures Strs(Selected(md, key, lang)).None?
      <==> exists k :: 0 <= k < |md| && Selects(md[k], key, lang) && !md[k].value.Str?
  {
    var vs := Selected(md, key, lang);
    if Strs(vs).None? {
      var j :| 0 <= j < |vs| && !vs[j].Str?;
      SelectedMembers(md, key, lang, vs[j]);
    }
    if exists k :: 0 <= k < |md| && Selects(md[k], key, lang) && !md[k].value.Str? {
      var k :| 0 <= k < |md| && Selects(md[k], key, lang) && !md[k].value.Str?;
      SelectedMembers(md, key, lang, md[k].value);
    }
  }

  lemma PrintedFails(md: seq<MetaField>, key: string, lang: Option<string>)
    ensures Printed(Selected(md, key, lang)).None?
      <==> exists k :: 0 <= k < |md| && Selects(md[k], key, lang) && md[k].value.Absent?
  {
    var vs := Selected(md, key, lang);
    if Printed(vs).None? {
      var j :| 0 <= j < |vs| && vs[j].Absent?;
      SelectedMembers(md, key, lang, vs[j]);
    }
    if exists k :: 0 <= k < |md| && Selects(md[k], key, lang) && md[k].value.Absent? {
      var k :| 0 <= k < |md| && Selects(md[k], key, lang) && md[k].value.Absent?;
      SelectedMembers(md, key, lang, md[k].value);
    }
  }

  /** The columns are missing exactly when Python raises on the item. */
  lemma ExtractFieldsFails(md: seq<MetaField>, pubType: string)
    ensures ExtractFields(md, pubType).None? <==> Raises(md, pubType)
  {
    StrsFails(md, OrgunitKey, None);
    StrsFails(md, TitleKey, None);
    StrsFails(md, LevelKey, None);
    StrsFails(md, TypeKey, Some("en"));
    StrsFails(md, DateKey, None);
    StrsFails(md, AuthorKey, None);
    PrintedFails(md, AbstractKey, Some("en"));
    PrintedFails(md, AbstractKey, Some("de"));
    PrintedFails(md, DoiKey, None);
    PrintedFails(md, PublisherKey, None);
  }

  /** The `orgunit` parts are the first four characters of the orgunit
      values, and every orgunit value contributes its first four characters. */
  lemma OrgunitParts(md: seq<MetaField>, pubType: string, p: string)
    requires ExtractFields(md, pubType).Some?
    ensures p in ExtractFields(md, pubType).value.orgunit
      <==> exists k :: 0 <= k < |md| && Selects(md[k], OrgunitKey, None) && md[k].value.Str? && p == Prefix4(md[k].value.s)
  {
    var vs := Selected(md, OrgunitKey, None);
    var xs := Strs(vs).value;
    if p in ExtractFields(md, pubType).value.orgunit {
      var x :| x in xs && p == Prefix4(x);
      var j :| 0 <= j < |xs| && xs[j] == x;
      SelectedMembers(md, OrgunitKey, None, vs[j]);
    }
    if exists k :: 0 <= k < |md| && Selects(md[k], OrgunitKey, None) && md[k].value.Str? && p == Prefix4(md[k].value.s) {
      var k :| 0 <= k < |md| && Selects(md[k], OrgunitKey, None) && md[k].value.Str? && p == Prefix4(md[k].value.s);
      SelectedMembers(md, OrgunitKey, None, md[k].value);
      var j :| 0 <= j < |vs| && vs[j] == md[k].value;
      assert xs[j] in xs;
    }
  }

  /** The author list splits back into the authors, in metadata order, when
      no author contains a comma. */
  lemma AuthorsSplit(md: seq<MetaField>, pubType: string)
    requires ExtractFields(md, pubType).Some?
    requires Selected(md, AuthorKey, None) != []
    requires forall k :: 0 <= k < |md| && Selects(md[k], AuthorKey, None) && md[k].value.Str? ==> ',' !in md[k].value.s
    ensures SplitOn(ExtractFields(md, pubType).value.authors, ',') == Strs(Selected(md, AuthorKey, None)).value
  {
    var vs := Selected(md, AuthorKey, None);
    var xs := Strs(vs).value;
    forall j | 0 <= j < |xs| ensures ',' !in xs[j] {
      SelectedMembers(md, AuthorKey, None, vs[j]);
    }
    SplitJoin(xs, ',');
  }

  /** The `pdf_paths` column splits back into the downloaded paths when
      none of them contains `;`. */
  lemma PdfPathsSplit(f: Fields, paths: seq<string>)
    requires paths != []
    requires forall k :: 0 <= k < |paths| ==> ';' !in paths[k]
    ensures SplitOn(MakeRow(f, paths).pdfPaths, ';') == paths
  {
    SplitJoin(paths, ';');
  }

  /** A downloaded file's path never contains `;`. */
  lemma NewPdfHasNoSemicolon(p: string, before: set<string>, after: set<string>)
    requires NewPdf(p, before, after)
    ensures ';' !in p
  {
    var n :| p == PathOf(n) && n in after && n !in before && IsPdfName(n);
    SafeHasNoSemicolon(n);
    PathHasNoSemicolon(n);
  }

  lemma SafeHasNoSemicolon(n: string)
    requires AllSafe(n)
    ensures ';' !in n
  {
  }

  lemma PathHasNoSemicolon(n: string)
    requires ';' !in n
    ensures ';' !in PathOf(n)
  {
  }

  /** The row of an item with a handle: one `pdf_paths` entry per downloaded
      file, which splits back into the paths, and `pdf_count` their number. */
  lemma ItemRowPaths(md: seq<MetaField>, f: Fields, names: set<string>, site: Web.Site, h: string)
    requires HandleOf(md) == Some(h)
    requires FetchPdfs(md, f.title, names, site).paths != []
    ensures var b := FetchPdfs(md, f.title, names, site);
      var r := MakeRow(f, b.paths);
      SplitOn(r.pdfPaths, ';') == b.paths && r.pdfCount == |b.paths|
  {
    var b := FetchPdfs(md, f.title, names, site);
    FetchPdfsFacts(md, f.title, names, site, h);
    forall k | 0 <= k < |b.paths| ensures ';' !in b.paths[k] {
      NewPdfHasNoSemicolon(b.paths[k], names, b.names);
    }
    PdfPathsSplit(f, b.paths);
  }
}
