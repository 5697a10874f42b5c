/** `_safe_filename` and the file-name choice of `_download_pdf`
    (data/ack_extractor.py:93-97, 165-174). */
module Filenames {

  import opened Wrappers
  import opened Text
  import opened Urls

  /** The class `[\w\-.]`: what a file name may keep. */
  predicate IsSafeChar(c: char) {
    IsWordChar(c) || c == '-' || c == '.'
  }

  predicate IsUnsafeChar(c: char) {
    !IsSafeChar(c)
  }

  predicate IsUnderscore(c: char) {
    c == '_'
  }

  /** What `.strip("._")` removes from both ends. */
  predicate IsEdgeChar(c: char) {
    c == '.' || c == '_'
  }

  /** The characters no step of the sanitizer removes or rewrites. */
  predicate IsKeeper(c: char) {
    IsSafeChar(c) && !IsEdgeChar(c)
  }

  predicate AllSafe(s: string) {
    forall i :: 0 <= i < |s| ==> IsSafeChar(s[i])
  }

  predicate NoDoubleUnderscore(s: string) {
    forall i :: 0 <= i < |s| - 1 ==> !(s[i] == '_' && s[i + 1] == '_')
  }

  /** `re.sub(r"[^\w\-.]+", "_", s)`: every maximal run of unsafe characters becomes one `_`. */
  function ReplaceUnsafeRuns(s: string): (r: string)
    ensures AllSafe(r)
    ensures r == [] <==> s == []
    ensures r != [] ==> (IsSafeChar(s[0]) ==> r[0] == s[0]) && (!IsSafeChar(s[0]) ==> r[0] == '_')
    decreases |s|
  {
    if s == [] then []
    else if IsSafeChar(s[0]) then [s[0]] + ReplaceUnsafeRuns(s[1..])
    else "_" + ReplaceUnsafeRuns(TrimLeft(s[1..], IsUnsafeChar))
  }

  /** `re.sub(r"_+", "_", s)`: every run of underscores becomes one. */
  function CollapseUnderscores(s: string): (r: string)
    ensures r == [] <==> s == []
    ensures r != [] ==> r[0] == s[0]
    decreases |s|
  {
    if s == [] then []
    else if s[0] == '_' then "_" + CollapseUnderscores(TrimLeft(s[1..], IsUnderscore))
    else [s[0]] + CollapseUnderscores(s[1..])
  }

  /** After collapsing, no two underscores are adjacent. */
  lemma {:induction false} CollapseNoDouble(s: string)
    ensures NoDoubleUnderscore(CollapseUnderscores(s))
    decreases |s|
  {
    if s != [] {
      var t := if s[0] == '_' then TrimLeft(s[1..], IsUnderscore) else s[1..];
      var rest := CollapseUnderscores(t);
      CollapseNoDouble(t);
      var r := [s[0]] + rest;
      assert CollapseUnderscores(s) == r;
      assert s[0] == '_' ==> rest == [] || rest[0] != '_';
      forall i | 0 <= i < |r| - 1 ensures !(r[i] == '_' && r[i + 1] == '_') {
        if i > 0 { assert r[i] == rest[i - 1] && r[i + 1] == rest[i]; }
      }
    }
  }

  /** Collapsing only removes characters. */
  lemma {:induction false} CollapseSafe(s: string)
    requires AllSafe(s)
    ensures AllSafe(CollapseUnderscores(s))
    decreases |s|
  {
    if s != [] {
      var t := if s[0] == '_' then TrimLeft(s[1..], IsUnderscore) else s[1..];
      assert AllSafe(t) by {
        forall i | 0 <= i < |t| ensures IsSafeChar(t[i]) { assert t[i] == s[|s| - |t| + i]; }
      }
      CollapseSafe(t);
      var rest := CollapseUnderscores(t);
      assert CollapseUnderscores(s) == [s[0]] + rest;
    }
  }

  /** Lines 94-96 after the fallback for a falsy input: strip white space,
      replace unsafe runs, collapse underscores, strip `.` and `_` at both ends. */
  function Clean(s: string): (r: string)
    ensures AllSafe(r) && NoDoubleUnderscore(r)
    ensures r == [] || (!IsEdgeChar(r[0]) && !IsEdgeChar(r[|r| - 1]))
  {
    var replaced := ReplaceUnsafeRuns(StripSpace(s));
    var collapsed := CollapseUnderscores(replaced);
    CollapseSafe(replaced);
    CollapseNoDouble(replaced);
    var r := Trim(collapsed, IsEdgeChar);
    InfixKeeps(collapsed, r);
    r
  }

  lemma InfixKeeps(s: string, r: string)
    requires AllSafe(s) && NoDoubleUnderscore(s)
    requires exists i: nat :: OccursAt(s, r, i)
    ensures AllSafe(r) && NoDoubleUnderscore(r)
  {
    var i: nat :| OccursAt(s, r, i);
    assert forall k :: 0 <= k < |r| ==> r[k] == s[i + k];
  }

  /** `_safe_filename(s, maxlen, default)`: `None` and `""` fall back to
      `default`, and so does an input that cleans to nothing; the result is
      cut to `maxlen` characters. */
  function SafeFilename(s: Option<string>, maxlen: nat, default: string): (r: string)
    ensures |r| <= maxlen
    ensures var c := Clean(if s == None || s == Some("") then default else s.value);
            var f := if c == "" then default else c;
            r <= f && |r| == if |f| <= maxlen then |f| else maxlen
  {
    var c := Clean(if s == None || s == Some("") then default else s.value);
    var f := if c == "" then default else c;
    if |f| <= maxlen then f else f[..maxlen]
  }

  /** The fallback `_safe_filename` uses when nothing else is left. */
  const DefaultName: string := "file"

  /** The bound `_download_pdf` relies on. */
  const MaxNameLength: nat := 150

  /** A clean fallback name (such as `DefaultName`). */
  predicate IsCleanName(d: string) {
    AllSafe(d) && NoDoubleUnderscore(d) && d != [] && !IsEdgeChar(d[0])
  }

  /** With a clean fallback, the sanitizer gives a usable file name: bounded,
      non-empty, made only of `[\w\-.]`, with no doubled underscore and no
      leading `.` or `_`. */
  lemma SafeFilenameShape(s: Option<string>, maxlen: nat, default: string)
    requires IsCleanName(default)
    ensures var r := SafeFilename(s, maxlen, default);
      && |r| <= maxlen
      && (maxlen > 0 ==> r != [] && !IsEdgeChar(r[0]))
      && AllSafe(r) && NoDoubleUnderscore(r)
  {
    var input := if s == None || s == Some("") then default else s.value;
    TruncatedShape(Clean(input), maxlen, default);
  }

  /** Cutting a clean name, or the fallback, keeps it clean. */
  lemma TruncatedShape(c: string, maxlen: nat, default: string)
    requires AllSafe(c) && NoDoubleUnderscore(c) && (c == [] || !IsEdgeChar(c[0]))
    requires AllSafe(default) && NoDoubleUnderscore(default) && default != [] && !IsEdgeChar(default[0])
    ensures var f := if c == "" then default else c;
      var r := if |f| <= maxlen then f else f[..maxlen];
      && (maxlen > 0 ==> r != [] && !IsEdgeChar(r[0]))
      && AllSafe(r) && NoDoubleUnderscore(r)
  {
    var f := if c == "" then default else c;
    var r := if |f| <= maxlen then f else f[..maxlen];
    assert OccursAt(f, r, 0);
    InfixKeeps(f, r);
  }

  lemma DefaultNameShape()
    ensures IsCleanName(DefaultName) && !IsEdgeChar(DefaultName[|DefaultName| - 1])
  {
    assert DefaultName == ['f', 'i', 'l', 'e'];
  }

  /** `None`, `""`, white space only, or anything that cleans to nothing gives
      `"file"`, cut to `maxlen`. */
  lemma FallbackIsFile(s: Option<string>, maxlen: nat)
    requires s == None || Clean(s.value) == []
    ensures SafeFilename(s, maxlen, DefaultName) == (if maxlen < 4 then DefaultName[..maxlen] else DefaultName)
  {
    DefaultNameShape();
    CleanIdentity(DefaultName);
  }

  lemma WhitespaceCleansToNothing(s: string)
    requires forall i :: 0 <= i < |s| ==> IsSpace(s[i])
    ensures Clean(s) == []
  {
    assert StripSpace(s) == [];
  }

  /** The subsequence of characters that no step touches. */
  function Keepers(s: string): (r: string)
    ensures |r| <= |s|
    ensures forall i :: 0 <= i < |r| ==> IsKeeper(r[i])
    decreases |s|
  {
    if s == [] then [] else (if IsKeeper(s[0]) then [s[0]] else []) + Keepers(s[1..])
  }

  lemma {:induction false} KeepersAppend(a: string, b: string)
    ensures Keepers(a + b) == Keepers(a) + Keepers(b)
    decreases |a|
  {
    if a == [] {
      assert a + b == b;
    } else {
      assert (a + b)[1..] == a[1..] + b;
      KeepersAppend(a[1..], b);
    }
  }

  lemma {:induction false} KeepersEmpty(s: string)
    ensures Keepers(s) == [] <==> forall i :: 0 <= i < |s| ==> !IsKeeper(s[i])
    decreases |s|
  {
    if s != [] {
      KeepersEmpty(s[1..]);
      assert forall i :: 1 <= i < |s| ==> s[i] == s[1..][i - 1];
    }
  }

  lemma KeepersTrimLeft(s: string, drop: char -> bool)
    requires forall c :: drop(c) ==> !IsKeeper(c)
    ensures Keepers(TrimLeft(s, drop)) == Keepers(s)
  {
    var r := TrimLeft(s, drop);
    var k := |s| - |r|;
    var head := s[..k];
    assert s == head + r;
    KeepersAppend(head, r);
    forall i | 0 <= i < |head| ensures !IsKeeper(head[i]) { assert drop(s[i]); }
    KeepersEmpty(head);
  }

  lemma KeepersTrimRight(s: string, drop: char -> bool)
    requires forall c :: drop(c) ==> !IsKeeper(c)
    ensures Keepers(TrimRight(s, drop)) == Keepers(s)
  {
    var r := TrimRight(s, drop);
    var tail := s[|r|..];
    assert s == r + tail;
    KeepersAppend(r, tail);
    forall i | 0 <= i < |tail| ensures !IsKeeper(tail[i]) { assert drop(s[|r| + i]); }
    KeepersEmpty(tail);
  }

  lemma KeepersTrim(s: string, drop: char -> bool)
    requires forall c :: drop(c) ==> !IsKeeper(c)
    ensures Keepers(Trim(s, drop)) == Keepers(s)
  {
    KeepersTrimLeft(s, drop);
    KeepersTrimRight(TrimLeft(s, drop), drop);
  }

  lemma {:induction false} KeepersReplace(s: string)
    ensures Keepers(ReplaceUnsafeRuns(s)) == Keepers(s)
    decreases |s|
  {
    if s != [] {
      if IsSafeChar(s[0]) {
        KeepersReplace(s[1..]);
        assert Keepers([s[0]] + ReplaceUnsafeRuns(s[1..])) == Keepers([s[0]]) + Keepers(ReplaceUnsafeRuns(s[1..])) by {
          KeepersAppend([s[0]], ReplaceUnsafeRuns(s[1..]));
        }
      } else {
        var t := TrimLeft(s[1..], IsUnsafeChar);
        KeepersReplace(t);
        KeepersTrimLeft(s[1..], IsUnsafeChar);
        KeepersAppend("_", ReplaceUnsafeRuns(t));
      }
    }
  }

  lemma {:induction false} KeepersCollapse(s: string)
    ensures Keepers(CollapseUnderscores(s)) == Keepers(s)
    decreases |s|
  {
    if s != [] {
      if s[0] == '_' {
        var t := TrimLeft(s[1..], IsUnderscore);
        KeepersCollapse(t);
        KeepersTrimLeft(s[1..], IsUnderscore);
        KeepersAppend("_", CollapseUnderscores(t));
      } else {
        KeepersCollapse(s[1..]);
        KeepersAppend([s[0]], CollapseUnderscores(s[1..]));
      }
    }
  }

  /** Cleaning never loses or reorders a letter, digit or `-` (nor any other
      character of `[\w\-.]` except `.` and `_`). */
  lemma KeepersPreserved(s: string)
    ensures Keepers(Clean(s)) == Keepers(s)
  {
    KeepersTrim(s, IsSpace);
    KeepersReplace(StripSpace(s));
    KeepersCollapse(ReplaceUnsafeRuns(StripSpace(s)));
    KeepersTrim(CollapseUnderscores(ReplaceUnsafeRuns(StripSpace(s))), IsEdgeChar);
  }

  /** An input cleans to nothing exactly when it holds no keeper character;
      that is when the fallback name is used. */
  lemma CleanEmptyIff(s: string)
    ensures Clean(s) == [] <==> forall i :: 0 <= i < |s| ==> !IsKeeper(s[i])
  {
    KeepersPreserved(s);
    KeepersEmpty(s);
    var c := Clean(s);
    KeepersEmpty(c);
    if c != [] {
      assert IsKeeper(c[0]);
    }
  }

  lemma {:induction false} ReplaceIdentity(s: string)
    requires AllSafe(s)
    ensures ReplaceUnsafeRuns(s) == s
    decreases |s|
  {
    if s != [] { ReplaceIdentity(s[1..]); }
  }

  lemma {:induction false} CollapseIdentity(s: string)
    requires NoDoubleUnderscore(s)
    ensures CollapseUnderscores(s) == s
    decreases |s|
  {
    if s != [] {
      if s[0] == '_' {
        assert TrimLeft(s[1..], IsUnderscore) == s[1..];
      }
      CollapseIdentity(s[1..]);
    }
  }

  /** Cleaning is idempotent. */
  lemma CleanIdentity(s: string)
    requires AllSafe(s) && NoDoubleUnderscore(s)
    requires s == [] || (!IsEdgeChar(s[0]) && !IsEdgeChar(s[|s| - 1]))
    ensures Clean(s) == s
  {
    assert s == [] || (!IsSpace(s[0]) && !IsSpace(s[|s| - 1]));
    assert TrimLeft(s, IsSpace) == s;
    assert StripSpace(s) == s;
    ReplaceIdentity(s);
    CollapseIdentity(s);
    assert TrimLeft(s, IsEdgeChar) == s;
  }

  lemma CleanIdempotent(s: string)
    ensures Clean(Clean(s)) == Clean(s)
  {
    CleanIdentity(Clean(s));
  }

  /** Index of the last `c` in `s`, or -1 when there is none. */
  function LastIndex(s: string, c: char): (r: int)
    ensures -1 <= r < |s|
    ensures r >= 0 ==> s[r] == c
    ensures forall j :: r < j < |s| ==> s[j] != c
    decreases |s|
  {
    if s == [] then -1 else if s[|s| - 1] == c then |s| - 1 else LastIndex(s[..|s| - 1], c)
  }

  /** `os.path.splitext`: the extension runs from the last `.` of the last
      path component, unless only dots precede that `.` in the component. */
  function SplitExt(p: string): (parts: (string, string))
    ensures parts.0 + parts.1 == p
    ensures parts.1 == [] || (parts.1[0] == '.' && '.' !in parts.1[1..] && '/' !in parts.1)
    ensures parts.1 != [] <==>
      exists k, j :: LastIndex(p, '/') < k < j < |p| && p[k] != '.' && p[j] == '.'
  {
    var sep := LastIndex(p, '/');
    var dot := LastIndex(p, '.');
    if dot > sep && exists k :: sep < k < dot && p[k] != '.' then (p[..dot], p[dot..]) else (p, "")
  }

  /** `f"{stem}_{i}{ext}"` for the stem and extension of `name` (line 172). */
  function Numbered(name: string, i: nat): (r: string)
    ensures |r| >= |name| + 2
  {
    SplitExt(name).0 + "_" + NatToString(i) + SplitExt(name).1
  }

  lemma NumberedInjective(name: string, a: nat, b: nat)
    requires Numbered(name, a) == Numbered(name, b)
    ensures a == b
  {
    var (stem, ext) := SplitExt(name);
    var na, nb := NatToString(a), NatToString(b);
    var x := stem + "_" + na + ext;
    assert |na| == |nb|;
    assert na == x[|stem| + 1..|stem| + 1 + |na|];
    assert nb == x[|stem| + 1..|stem| + 1 + |nb|];
    NatToStringInjective(a, b);
  }

  /** The numbered names tried for 2, 3, ..., i. */
  ghost function NumberedUpTo(name: string, i: nat): set<string>
    decreases i
  {
    if i < 2 then {} else NumberedUpTo(name, i - 1) + {Numbered(name, i)}
  }

  lemma {:induction false} NumberedUpToFacts(name: string, i: nat)
    ensures |NumberedUpTo(name, i)| == if i < 2 then 0 else i - 1
    ensures forall x :: x in NumberedUpTo(name, i) ==> exists j :: 2 <= j <= i && x == Numbered(name, j)
    decreases i
  {
    if i >= 2 {
      NumberedUpToFacts(name, i - 1);
      if Numbered(name, i) in NumberedUpTo(name, i - 1) {
        var j :| 2 <= j <= i - 1 && Numbered(name, i) == Numbered(name, j);
        NumberedInjective(name, i, j);
        assert false;
      }
    }
  }

  /** When the numbered names for 2 .. i-1 are all taken, there are at
      least i-2 names in the directory. */
  lemma TakenBound(name: string, existing: set<string>, i: nat)
    requires 2 <= i && forall j :: 2 <= j < i ==> Numbered(name, j) in existing
    ensures i - 2 <= |existing|
  {
    NumberedUpToFacts(name, i - 1);
    SubsetSize(NumberedUpTo(name, i - 1), existing);
  }

  /** The first free numbered name from `i` on. */
  function FirstFree(name: string, existing: set<string>, i: nat): (r: string)
    requires 2 <= i && forall j :: 2 <= j < i ==> Numbered(name, j) in existing
    ensures r !in existing
    ensures exists k :: i <= k && r == Numbered(name, k) && forall j :: 2 <= j < k ==> Numbered(name, j) in existing
    decreases |existing| + 2 - i
  {
    TakenBound(name, existing, i);
    if Numbered(name, i) !in existing then Numbered(name, i)
    else
      TakenBound(name, existing, i + 1);
      FirstFree(name, existing, i + 1)
  }

  /** Lines 168-174: keep `name` when it is free, otherwise take
      `stem_i.ext` for the smallest i >= 2 that is free. Never a name
      already in the directory. */
  function FreeName(name: string, existing: set<string>): (r: string)
    ensures r !in existing
    ensures name !in existing ==> r == name
    ensures name in existing ==>
      exists i :: 2 <= i && r == Numbered(name, i) && forall j :: 2 <= j < i ==> Numbered(name, j) in existing
  {
    if name !in existing then name else FirstFree(name, existing, 2)
  }

  /** The free name is unique: the numbered name it picks is the least free one. */
  lemma FreeNameLeast(name: string, existing: set<string>, i: nat)
    requires name in existing && 2 <= i && Numbered(name, i) !in existing
    ensures exists k :: 2 <= k <= i && FreeName(name, existing) == Numbered(name, k)
  {
    var k :| 2 <= k && FreeName(name, existing) == Numbered(name, k)
      && forall j :: 2 <= j < k ==> Numbered(name, j) in existing;
  }

  /** The loop of lines 170-174. */
  method ChooseFreeName(name: string, existing: set<string>) returns (chosen: string)
    ensures chosen == FreeName(name, existing)
  {
    if name !in existing {
      return name;
    }
    var i := 2;
    while Numbered(name, i) in existing
      invariant 2 <= i
      invariant forall j :: 2 <= j < i ==> Numbered(name, j) in existing
      invariant FirstFree(name, existing, i) == FreeName(name, existing)
      decreases |existing| + 2 - i
    {
      TakenBound(name, existing, i + 1);
      i := i + 1;
    }
    chosen := Numbered(name, i);
  }

  lemma SubsetSize<T>(a: set<T>, b: set<T>)
    requires a <= b
    ensures |a| <= |b|
  {
    assert b == a + (b - a);
  }

  /** What `_download_pdf` sanitizes (line 165): the hint, else the URL's
      base name, else `"document"`. */
  function NameSource(url: string, hint: string): (r: string)
    ensures r != ""
    ensures hint != "" ==> r == hint
    ensures hint == "" ==> r == Basename(UrlPath(url)) || r == "document"
  {
    var base := Basename(UrlPath(url));
    if hint != "" then hint else if base != "" then base else "document"
  }

  /** Lines 166-167: `.pdf` is appended unless the name already ends in `.pdf` in any case. */
  function WithPdfSuffix(safe: string): (r: string)
    ensures safe <= r && |r| <= |safe| + 4
    ensures EndsWith(Lower(r), ".pdf")
  {
    if EndsWith(Lower(safe), ".pdf") then safe else safe + ".pdf"
  }

  /** The name `_download_pdf` starts from before it looks for collisions. */
  function PdfName(url: string, hint: string): (r: string)
    ensures SafeFilename(Some(NameSource(url, hint)), MaxNameLength, DefaultName) <= r
    ensures EndsWith(Lower(r), ".pdf")
  {
    WithPdfSuffix(SafeFilename(Some(NameSource(url, hint)), MaxNameLength, DefaultName))
  }

  /** A name whose last four characters read `.pdf` in any case, with
      something before them that does not start with `.`. */
  predicate IsPdfName(name: string) {
    |name| >= 5 && name[0] != '.' && EndsWith(Lower(name), ".pdf") && AllSafe(name)
  }

  lemma LowerDot(c: char)
    ensures LowerChar(c) == '.' <==> c == '.'
    ensures LowerChar(c) == 'p' ==> c != '.'
    ensures LowerChar(c) == 'd' ==> c != '.'
    ensures LowerChar(c) == 'f' ==> c != '.'
  {
  }

  /** Every name `_download_pdf` derives ends in `.pdf` in some case and is a safe file name. */
  lemma PdfNameShape(url: string, hint: string)
    ensures IsPdfName(PdfName(url, hint))
    ensures |PdfName(url, hint)| <= MaxNameLength + 4
  {
    DefaultNameShape();
    SafeFilenameShape(Some(NameSource(url, hint)), MaxNameLength, DefaultName);
    SuffixShape(SafeFilename(Some(NameSource(url, hint)), MaxNameLength, DefaultName));
  }

  lemma SuffixShape(safe: string)
    requires safe != [] && !IsEdgeChar(safe[0]) && AllSafe(safe)
    ensures IsPdfName(WithPdfSuffix(safe))
    ensures |WithPdfSuffix(safe)| <= |safe| + 4
  {
    var name := WithPdfSuffix(safe);
    if EndsWith(Lower(safe), ".pdf") {
      if |safe| == 4 {
        assert Lower(safe)[0] == '.';
        LowerDot(safe[0]);
      }
    } else {
      var ext := ".pdf";
      assert name == safe + ext;
      assert AllSafe(name) by {
        forall i | 0 <= i < |name| ensures IsSafeChar(name[i]) {
          if i >= |safe| { assert name[i] == ext[i - |safe|]; }
        }
      }
      assert Lower(name)[|name| - 4..] == ".pdf" by {
        forall k | |safe| <= k < |name| ensures Lower(name)[k] == ext[k - |safe|] {
          assert name[k] == ext[k - |safe|];
        }
      }
    }
  }

  /** For such a name, `splitext` cuts off exactly the four-character extension. */
  lemma SplitPdfName(name: string)
    requires IsPdfName(name)
    ensures SplitExt(name) == (name[..|name| - 4], name[|name| - 4..])
  {
    var n := |name|;
    var l := Lower(name);
    assert l[n - 4..] == ".pdf";
    assert l[n - 4] == '.' && l[n - 3] == 'p' && l[n - 2] == 'd' && l[n - 1] == 'f';
    LowerDot(name[n - 4]);
    LowerDot(name[n - 3]);
    LowerDot(name[n - 2]);
    LowerDot(name[n - 1]);
    assert LastIndex(name, '.') == n - 4;
    assert LastIndex(name, '/') < 0;
    assert name[0] != '.' && 0 < n - 4;
  }

  /** Every name `_download_pdf` can return ends in `.pdf` and stays within `[\w\-.]`. */
  lemma NumberedPdfName(name: string, i: nat)
    requires IsPdfName(name)
    ensures IsPdfName(Numbered(name, i))
  {
    SplitPdfName(name);
    var n := |name|;
    var stem, ext := name[..n - 4], name[n - 4..];
    var mid := stem + "_" + NatToString(i);
    assert Numbered(name, i) == mid + ext;
    NumberedParts(name, NatToString(i));
    JoinPdfName(mid, ext);
  }

  /** The stem with `_<digits>` appended, and the `.pdf` suffix cut off a PDF name. */
  lemma NumberedParts(name: string, digits: string)
    requires IsPdfName(name)
    requires forall k :: 0 <= k < |digits| ==> '0' <= digits[k] <= '9'
    ensures var n := |name|; var mid := name[..n - 4] + "_" + digits;
      AllSafe(mid) && AllSafe(name[n - 4..]) && Lower(name[n - 4..]) == ".pdf" && mid[0] == name[0]
  {
    var n := |name|;
    var stem, ext := name[..n - 4], name[n - 4..];
    var mid := stem + "_" + digits;
    assert AllSafe(mid) by {
      forall k | 0 <= k < |mid| ensures IsSafeChar(mid[k]) {
        if k < |stem| { assert mid[k] == name[k]; }
        else if k > |stem| { assert mid[k] == digits[k - |stem| - 1]; }
      }
    }
    assert AllSafe(ext) by {
      forall k | 0 <= k < 4 ensures IsSafeChar(ext[k]) { assert ext[k] == name[n - 4 + k]; }
    }
    assert Lower(ext) == ".pdf" by {
      forall k | 0 <= k < 4 ensures Lower(ext)[k] == Lower(name)[n - 4 + k] { }
      assert Lower(name)[n - 4..] == ".pdf";
    }
    assert mid[0] == name[0];
  }

  lemma JoinPdfName(mid: string, ext: string)
    requires mid != [] && mid[0] != '.' && AllSafe(mid) && AllSafe(ext)
    requires Lower(ext) == ".pdf"
    ensures IsPdfName(mid + ext)
  {
    var m := mid + ext;
    assert AllSafe(m) by {
      forall k | 0 <= k < |m| ensures IsSafeChar(m[k]) {
        if k < |mid| { assert m[k] == mid[k]; } else { assert m[k] == ext[k - |mid|]; }
      }
    }
    assert Lower(m)[|m| - 4..] == Lower(ext) by {
      forall k | 0 <= k < 4 ensures Lower(m)[|mid| + k] == Lower(ext)[k] { assert m[|mid| + k] == ext[k]; }
    }
  }

  /** A directory already holding `report.pdf` gets `report_2.pdf` for a
      second file named `report.pdf`. */
  lemma ReportTakenGetsTwo(name: string)
    requires name == "report.pdf"
    ensures FreeName(name, {name}) == "report_2.pdf"
  {
    ReportIsPdfName(name);
    SplitPdfName(name);
    assert name[..6] == "report" && name[6..] == ".pdf";
    assert NatToString(2) == "2";
    var n2 := Numbered(name, 2);
    assert n2 == "report" + "_" + "2" + ".pdf";
    assert n2 != name by { assert n2[6] != name[6]; }
  }

  lemma ReportIsPdfName(name: string)
    requires name == "report.pdf"
    ensures IsPdfName(name)
  {
    assert Lower(name) == name;
    assert AllSafe(name);
  }

  /** The hint `report` becomes the file name `report.pdf`. */
  lemma ReportHintName(url: string)
    ensures PdfName(url, "report") == "report.pdf"
  {
    ReportSafe("report");
    ReportSuffix("report");
  }

  lemma ReportSafe(r: string)
    requires r == "report"
    ensures SafeFilename(Some(r), MaxNameLength, DefaultName) == r
  {
    assert AllSafe(r) && NoDoubleUnderscore(r);
    CleanIdentity(r);
  }

  lemma ReportSuffix(r: string)
    requires r == "report"
    ensures WithPdfSuffix(r) == "report.pdf"
  {
    assert Lower(r)[2] == 'p';
    assert !EndsWith(Lower(r), ".pdf");
  }
}
