# Repository harvester rules, in Dafny

`data/ack_extractor.py` harvests the publications of one organisational unit
from the TU Wien repository (Repositum). It pages through the repository's
REST search, turns each item's flat `{key, value, language}` metadata into one
row, and downloads the PDFs linked from the item's handle page. Once the network,
the HTML parser and the file system are replaced by inputs, its remaining
logic is a set of deterministic rules. This project models those rules and
proves what they guarantee:

- **File names** (`filenames.dfy`, module `Filenames`): `_safe_filename`
  (replace runs of characters outside `[\w\-.]` with `_`, collapse `_` runs,
  strip `.`/`_` at both ends, fall back to `"file"`, truncate). Also the name
  `_download_pdf` derives (`.pdf` forced on) and its collision loop over
  `stem_2.ext`, `stem_3.ext`, …
- **Handles** (`handles.dfy`, `urls.dfy`): `_extract_handle_from_metadata`
  reads the three value shapes in priority order: a `/handle/` URL, a
  `hdl.handle.net` URL, and a raw `20.500.12708/…` match. It returns the
  first candidate with the `20.500.12708/` prefix. `urlparse(...).path`,
  `os.path.basename` and `urljoin` against the repository base are modelled
  for the URL forms the extractor meets.
- **PDF links** (`pdflinks.dfy`): the anchor filter of
  `_scrape_pdf_links_from_handle`. The set is built by a loop, and `sorted`
  is a method proved to return the one strictly increasing listing of that
  set.
- **Downloads** (`downloads.dfy`): `_download_pdf` and
  `fetch_repositum_pdfs_by_handle`. The `pdfs` directory is a class holding
  the set of names in it. The web site is a map from URL to reply.
- **Abstracts** (`abstracts.dfy`): `fetch_abstract`'s three-stage fallback.
  The stages are an oracle that may also raise, and the answer records which
  stages were asked.
- **Rows** (`rows.dfy`): the column comprehensions of `query_repositum`,
  including when they raise (the item is then skipped), and the row with
  `pdf_paths`/`pdf_count`.
- **Harvest** (`harvest.dfy`): the `while True` loop of `query_repositum`.
  A `RestServer` class answers from a script of replies and logs every
  offset it is asked for. A `Harvester` class runs the loop against it and
  appends to its `rows`. The loop is proved equal to a step function
  `Harvest`, and the lemmas about that function give the retry,
  frozen-total, empty-page, offset-reaches-total and `max_items` behaviour.

`wrappers.dfy`, `text.dfy`, `metadata.dfy` and `web.dfy` hold the shared
types and the Python string operations used (`strip`, `lower`, `in`, `find`,
`join`, `split`, `<` on `str`).

## Model

| member | source | states |
|---|---|---|
| Filenames.ReplaceUnsafeRuns | data/ack_extractor.py:95 | the result holds only `[\w\-.]` characters, is empty exactly when the input is, and starts with the input's first character or with `_` |
| Filenames.CollapseUnderscores | data/ack_extractor.py:96 | `_+` → `_` is empty exactly when its input is, and keeps the input's first character |
| Filenames.CollapseNoDouble | data/ack_extractor.py:96 | after `_+` → `_` no two underscores are adjacent |
| Filenames.Clean | data/ack_extractor.py:94-96 | the cleaned name holds only `[\w\-.]`, has no `__`, and neither starts nor ends with `.` or `_` |
| Filenames.SafeFilename | data/ack_extractor.py:93-97 | the result is the cleaned input, or the fallback when the input is falsy or cleans to nothing, cut to exactly `min(len, maxlen)` characters |
| Filenames.SafeFilenameShape | data/ack_extractor.py:93-97 | with a clean fallback the result is bounded by `maxlen`, non-empty when `maxlen > 0`, made of `[\w\-.]` only, without `__`, and does not start with `.` or `_` |
| Filenames.FallbackIsFile | data/ack_extractor.py:93-97 | `None`, or an input that cleans to nothing, gives `"file"` cut to `maxlen` |
| Filenames.WhitespaceCleansToNothing | data/ack_extractor.py:94 | a white-space-only input cleans to nothing, so it too falls back to `"file"` |
| Filenames.CleanEmptyIff | data/ack_extractor.py:94-97 | an input cleans to nothing exactly when it holds no letter, digit, `-` or other kept character |
| Filenames.KeepersPreserved | data/ack_extractor.py:94-96 | cleaning keeps every letter, digit and `-` of the input, in order |
| Filenames.CleanIdempotent | data/ack_extractor.py:94-96 | cleaning a cleaned name changes nothing |
| Filenames.SplitExt | data/ack_extractor.py:170 | `os.path.splitext`: stem and extension concatenate back to the name; the extension is empty or a `.` followed by no `.` and no `/`; it is non-empty exactly when the last path component has a `.` after a non-dot character |
| Filenames.Numbered | data/ack_extractor.py:172 | `f"{stem}_{i}{ext}"` is at least two characters longer than the name, so it is never the name itself |
| Filenames.NumberedInjective | data/ack_extractor.py:172 | distinct counters give distinct `stem_i.ext` names |
| Filenames.FirstFree | data/ack_extractor.py:171-174 | the search from `i` returns a name not in the directory, the first `stem_k.ext` with `k >= i` that is free |
| Filenames.FreeName | data/ack_extractor.py:168-174 | the chosen name is never an existing one; it is the name itself when free, else `stem_i.ext` for the smallest free `i >= 2` |
| Filenames.FreeNameLeast | data/ack_extractor.py:171-174 | when `stem_i.ext` is free, the chosen counter is at most `i` |
| Filenames.ChooseFreeName | data/ack_extractor.py:169-174 | the `while` loop over `i` returns exactly `FreeName` and terminates because the directory is finite |
| Filenames.PdfNameShape | data/ack_extractor.py:165-167 | the derived name ends in `.pdf` in some case, has at most 154 characters, is made of `[\w\-.]` and does not start with `.` |
| Filenames.SplitPdfName | data/ack_extractor.py:170 | for such a name `splitext` cuts off exactly its last four characters |
| Filenames.NumberedPdfName | data/ack_extractor.py:170-174 | every `stem_i.ext` of such a name still ends in `.pdf` and stays within `[\w\-.]` |
| Filenames.ReportHintName | data/ack_extractor.py:165-167 | the hint `report` becomes `report.pdf` |
| Filenames.ReportTakenGetsTwo | data/ack_extractor.py:169-174 | with `report.pdf` already present, the free name is `report_2.pdf` |
| Filenames.NameSource | data/ack_extractor.py:165 | `title_hint or basename(urlparse(url).path) or "document"` is never empty: the hint when there is one, else the basename or `"document"` |
| Filenames.WithPdfSuffix | data/ack_extractor.py:166-167 | the name is kept and at most `.pdf` is appended, so the result ends in `.pdf` in some case |
| Filenames.PdfName | data/ack_extractor.py:165-167 | the sanitized name is a prefix of the derived name, which ends in `.pdf` in some case |
| Urls.UrlPath | data/ack_extractor.py:119 | `urlparse(v).path` never contains `?` or `#` |
| Urls.Basename | data/ack_extractor.py:165 | `os.path.basename` is a suffix without `/`, preceded by `/` when shorter than the path |
| Urls.MergedPath | data/ack_extractor.py:156 | a relative path merged onto the base's empty path starts with `/`, and its segments are the reference's with the empty ones before the last removed |
| Urls.Resolve | data/ack_extractor.py:156 | `urljoin`: an empty reference gives the base; a scheme other than `https` returns the reference as given; otherwise the result starts with the lower-cased `https://`, and a reference with no scheme and no `//` stays on the repository base |
| Urls.ResolvePath | data/ack_extractor.py:156 | a reference that is only a path gets the base's netloc: a root-relative path as it is, a relative path merged |
| Urls.HandleNetPath | data/ack_extractor.py:118-119 | `http://hdl.handle.net/<h>` has path `/<h>` |
| Handles.AfterFirst | data/ack_extractor.py:115 | `split("/handle/", 1)[-1]` is exactly the text after the first occurrence of the separator, or the whole value when there is none |
| Handles.HandleUrlCandidate | data/ack_extractor.py:114-115 | the branch-1 candidate has no `/` at either end |
| Handles.ResolverPath | data/ack_extractor.py:119 | the stripped path neither starts nor ends with `/` |
| Handles.ResolverUrlCandidate | data/ack_extractor.py:119-121 | a resolver URL contributes only a non-empty path without `/` at its ends |
| Handles.FirstMatch | data/ack_extractor.py:124 | `re.search` finds the leftmost index where `20.500.12708/` is followed by a non-space, or reports there is none |
| Handles.RawCandidate | data/ack_extractor.py:124-128 | a raw candidate starts at the leftmost match, begins with the prefix, holds no white space and does not end in `) . , ; " '`; the `\S+` run was taken greedily, so everything after the candidate up to the next white space is such punctuation; there is none exactly when nothing matches |
| Handles.ValueCandidate | data/ack_extractor.py:113-128 | the three forms are tried in order: a value holding `repositum.tuwien.at/handle/` always yields its branch-1 candidate; otherwise one holding `hdl.handle.net` yields the resolver path; otherwise the raw match |
| Handles.CandidateOf | data/ack_extractor.py:108-112 | fields keyed other than `dc.identifier.uri`/`dc.identifier`, or with a blank value, contribute nothing |
| Handles.Candidates | data/ack_extractor.py:107-128 | there is at most one candidate per field |
| Handles.CandidatesFromFields | data/ack_extractor.py:107-128 | every candidate comes from some field of the metadata |
| Handles.FirstWithPrefix | data/ack_extractor.py:130-134 | the result is `None` exactly when no candidate starts with `20.500.12708/`; otherwise it is the first candidate that does |
| Handles.HandleOf | data/ack_extractor.py:99-134 | a handle starts with `20.500.12708/` and is one of the candidates; there is none exactly when no candidate has the prefix |
| Handles.ExtractHandle | data/ack_extractor.py:107-134 | the two loops compute `HandleOf`, the first prefixed candidate in metadata order |
| Handles.HandleOfAppend | data/ack_extractor.py:107-134 | a handle found in an earlier part of the metadata wins over anything later |
| Handles.NoIdentifierNoHandle | data/ack_extractor.py:108-109 | metadata without identifier fields has no candidates and no handle |
| Handles.IgnoredFieldIrrelevant | data/ack_extractor.py:108-112 | inserting a field with another key or a blank value never changes the handle |
| Handles.RepositoryUrlYieldsHandle | data/ack_extractor.py:113-115 | `https://repositum.tuwien.at/handle/<h>` yields `<h>` |
| Handles.ResolverUrlYieldsHandle | data/ack_extractor.py:116-121 | `http://hdl.handle.net/<h>` yields `<h>` when the repository marker is absent |
| Handles.UrlFieldCandidate | data/ack_extractor.py:110 | a value without white space at its ends is classified as it is |
| PdfLinks.LinkSetMembers | data/ack_extractor.py:147-156 | a URL is collected exactly when some anchor is a `/bitstream/` link that ends in `.pdf` or mentions `pdf` in its type or text, and resolves to it |
| PdfLinks.IsPdfLink | data/ack_extractor.py:150-155 | an anchor qualifies when its `href` holds `/bitstream/` and the lower-cased `href` ends in `.pdf` or the lower-cased type or text holds `pdf` |
| PdfLinks.LinkOf | data/ack_extractor.py:150-156 | an anchor contributes exactly when it is a PDF bitstream link (`IsPdfLink`: `/bitstream/` in `href`, and `.pdf` at the end of the lower-cased `href` or `pdf` in the lower-cased type or text), and then contributes its `urljoin` with the base |
| PdfLinks.PageLinks | data/ack_extractor.py:136-160 | no handle, a failed request or a non-200 page gives no links |
| PdfLinks.RootRelativeLink | data/ack_extractor.py:156 | `/bitstream/…` without `?` or `#` resolves to the repository base followed by the link |
| PdfLinks.EmptySeparatorDropped | data/ack_extractor.py:156 | a bitstream link ending in a bare `?` or `#` resolves as the link without it |
| PdfLinks.RelativeEmptySegment | data/ack_extractor.py:156 | the relative link `a//b` resolves to the base followed by `/a/b` |
| PdfLinks.PdfNotText | data/ack_extractor.py:148-156 | of a `.pdf` and a `.txt` bitstream link, only the `.pdf` one is collected |
| PdfLinks.SortedOf | data/ack_extractor.py:157 | `sorted(pdfs)` is strictly increasing and has the set's elements |
| PdfLinks.SortedUnique | data/ack_extractor.py:157 | a set has only one strictly increasing listing |
| PdfLinks.Sorted | data/ack_extractor.py:157 | the selection loop returns that listing |
| PdfLinks.ScrapePdfLinks | data/ack_extractor.py:136-160 | the result is strictly sorted and holds exactly the page's PDF links; an empty handle, a failed request or a non-200 page gives `[]` |
| Downloads.TargetName | data/ack_extractor.py:165-174 | the name written to is never one already in the directory |
| Downloads.TargetNameShape | data/ack_extractor.py:165-174 | that name always ends in `.pdf` in some case |
| Downloads.ReportNotOverwritten | data/ack_extractor.py:165-174 | the hint `report` in a directory holding `report.pdf` writes `report_2.pdf` |
| Downloads.DownloadOutcome | data/ack_extractor.py:162-187 | a path is returned exactly on a 200 reply, and it is `pdfs/<free name>`; the directory gains that name on a 200 reply and on a broken stream (which returns no path), and is unchanged when the request fails or the status is not 200 |
| Downloads.DownloadIsNew | data/ack_extractor.py:168-184 | a returned path names a PDF file that was not in the directory before |
| Downloads.Run | data/ack_extractor.py:197-201 | there are never more paths than URLs |
| Downloads.RunStep | data/ack_extractor.py:197-201 | the paths after `i + 1` URLs are the paths after `i`, followed by the `i`-th URL's path when it has one: the scraped order is kept |
| Downloads.ServedUrls | data/ack_extractor.py:198-201 | the URLs served with status 200, in scraped order |
| Downloads.RunCount | data/ack_extractor.py:197-201 | one path per URL the site serves with 200 |
| Downloads.RunNew | data/ack_extractor.py:197-201 | every returned path is a PDF file new to the directory |
| Downloads.RunDistinct | data/ack_extractor.py:197-201 | no two returned paths are the same file |
| Downloads.DistinctCard | data/ack_extractor.py:157 | a sorted listing is exactly as long as the link set |
| Downloads.FetchPdfs | data/ack_extractor.py:189-202 | no handle means no paths and an unchanged directory |
| Downloads.NoIdentifierNoDownload | data/ack_extractor.py:191-193 | metadata with no identifier field gives no paths and an unchanged directory |
| Downloads.FetchPdfsFacts | data/ack_extractor.py:189-202 | an item's paths are distinct new PDF files, one per link served with 200, never more than the links |
| Downloads.PdfFolder.Download | data/ack_extractor.py:162-187 | the method returns and leaves what `DownloadOutcome` says |
| Downloads.PdfFolder.FetchForItem | data/ack_extractor.py:189-202 | the method returns and leaves what `FetchPdfs` says |
| Abstracts.Chain | data/ack_extractor.py:67-76 | stages are asked in order; every stage before the last one asked returned a falsy value; a result is the last asked stage's truthy answer; an escaping exception came from the last stage asked and returns nothing; no result and no exception means all stages were asked and were falsy |
| Abstracts.FetchAbstract | data/ack_extractor.py:62-66 | an empty or missing DOI returns `None` and asks no stage |
| Abstracts.FetchAbstractFirst | data/ack_extractor.py:62-76 | the answer is the first truthy stage's, and exactly the stages up to it were asked |
| Abstracts.FetchAbstractRaises | data/ack_extractor.py:16-76 | an exception a stage does not catch (a reply without `message` at line 23, a section without `<p>` at line 55), after only falsy stages, leaves `fetch_abstract` and stops the chain there |
| Abstracts.FetchAbstractNone | data/ack_extractor.py:67-76 | when all three stages are falsy the answer is `None` after asking all three |
| Abstracts.ChainAskedOnly | data/ack_extractor.py:67-76 | stages that were not asked cannot influence the answer |
| Abstracts.FetchAbstractAskedOnly | data/ack_extractor.py:62-76 | the same, for `fetch_abstract` |
| Rows.SelectedMembers | data/ack_extractor.py:233-245 | a comprehension's values are exactly those of the fields with the key (and language) asked for |
| Rows.Strs | data/ack_extractor.py:232-241 | joining `m["value"]` fails exactly when one of them is missing or `null`, and otherwise keeps their order |
| Rows.Printed | data/ack_extractor.py:242-245 | `str(m["value"])` fails exactly when one is missing, and prints `null` as `None` |
| Rows.Prefix4 | data/ack_extractor.py:232 | `value[0:4]` is the prefix of length `min(len, 4)`: the value itself when it is that short |
| Rows.ExtractFieldsFails | data/ack_extractor.py:231-245 | the columns are missing exactly when Python raises on the item |
| Rows.ExtractFields | data/ack_extractor.py:230-245 | a field without a `key` makes the item fail, and the `pub_type` column is the one `SubTypeOf` reads |
| Rows.SubTypeOf | data/ack_extractor.py:234-239 | a thesis harvest reads an ordered `pub_type`, a publication harvest an unordered set, and any other type gives `""` |
| Rows.OrgunitParts | data/ack_extractor.py:232 | the orgunit parts are exactly the ≤4-character prefixes of the orgunit values |
| Rows.AuthorsSplit | data/ack_extractor.py:241 | the `,`-joined author list splits back into the authors, in metadata order, when no author holds a comma |
| Rows.MakeRow | data/ack_extractor.py:254-266 | `pdf_count` is the number of paths; no paths give an empty `pdf_paths` |
| Rows.PdfPathsSplit | data/ack_extractor.py:264-265 | `pdf_paths` splits back into the paths when none holds `;` |
| Rows.NewPdfHasNoSemicolon | data/ack_extractor.py:264 | a downloaded file's path never contains `;` |
| Rows.ItemRowPaths | data/ack_extractor.py:248-265 | an item's `pdf_paths` splits back into its downloaded paths and `pdf_count` is their number |
| Harvest.NextTotal | data/ack_extractor.py:222 | once `total` is read it is never changed |
| Harvest.CapReached | data/ack_extractor.py:269 | `max_items and processed >= max_items`, with 0 standing for `None` |
| Harvest.Request | data/ack_extractor.py:208-219 | one request at the offset, or two at the same offset exactly when the first one answered with a status other than 200; the reply used is that of the last request |
| Harvest.ItemStep | data/ack_extractor.py:229-274 | an item is either skipped (nothing changes) or appends exactly one row and counts once |
| Harvest.ItemSkipped | data/ack_extractor.py:230-273 | an item without `metadata`, or whose columns raise, is skipped: no row, no count, no download |
| Harvest.ItemKept | data/ack_extractor.py:230-271 | a readable item downloads its PDFs, appends its row, counts once, and stops the page when the count reaches the cap |
| Harvest.Items | data/ack_extractor.py:229-274 | earlier rows stay; rows added equal items counted; with a positive cap, processing never passes it and stops exactly on reaching it |
| Harvest.OnPage | data/ack_extractor.py:221-278 | after a page, the loop continues only with a non-empty page, an offset advanced by the page length and a total not yet reached; a page never makes the loop give up |
| Harvest.OnPageAfterItems | data/ack_extractor.py:224-278 | a non-empty page with a known total stops on the cap when the items reach it; otherwise the offset advances by the page length and the loop stops exactly when a nonzero total is reached |
| Harvest.PageStep | data/ack_extractor.py:207-278 | one pass makes one or two requests at the current offset; it gives up exactly when both the request and its retry answer with a status other than 200; the offset only grows |
| Harvest.Harvest | data/ack_extractor.py:205-278 | the loop as passes of `PageStep` until one stops; its properties are the lemmas below and `Harvester.Query` |
| Harvest.HarvestKeepsRows | data/ack_extractor.py:205-278 | rows already in `rows_out` are unchanged, one row is appended per processed item, and at least one request is made |
| Harvest.HarvestKeepsTotal | data/ack_extractor.py:222 | `total` stays at its first value to the end |
| Harvest.HarvestCap | data/ack_extractor.py:268-271 | with a positive `max_items`, no more items are processed, and the harvest stops on the cap exactly when it is reached |
| Harvest.HarvestStops | data/ack_extractor.py:213-278 | the harvest gives up exactly when its last two requests, both for the final offset, answered with a status other than 200; completion means a nonzero total was reached |
| Harvest.ItemsCappedStays | data/ack_extractor.py:269-271 | items after the one reaching the cap are not processed |
| Harvest.RestServer.Get | data/ack_extractor.py:208-212 | a request logs its offset and answers the next scripted reply |
| Harvest.RestServer.RequestPage | data/ack_extractor.py:208-219 | the request and its one retry do what `Request` says |
| Harvest.Harvester.ProcessItem | data/ack_extractor.py:229-274 | the method does what `ItemStep` says |
| Harvest.Harvester.ProcessPage | data/ack_extractor.py:229-274 | the method does what `Items` says |
| Harvest.Harvester.Query | data/ack_extractor.py:205-278 | the loop ends as `Harvest` says, leaving its rows, its request log and its directory |
| HarvestScenarios.ItemsAllKept | data/ack_extractor.py:229-268 | without a cap, a page of readable items adds one row per item |
| HarvestScenarios.TwoPagesOfFive | data/ack_extractor.py:205-278 | a total of 5 served as pages of 3 and 2 gives 5 rows after exactly two requests, at offsets 0 and 3 |
| HarvestScenarios.CapOfTwo | data/ack_extractor.py:268-271 | `max_items` 2 against a total of 10 gives 2 rows after a single request |

## Left out

- Network I/O, `requests` sessions, the `Retry`/`HTTPAdapter` setup, timeouts, `time.sleep`, and all `print` diagnostics. Replies are inputs: a script for the REST endpoint, a map of pages and files for the web site.
- HTML parsing: a handle page is its status and its list of anchors (`href`, `type`, text). The three abstract services are an oracle, so their Crossref/DOI JSON and Springer HTML are not modelled.
- JSON decoding: a REST reply is a decoded page. A body whose root is not an object raises in the source; it is not modelled. `numberOfItems` is missing, `null` or an integer. Metadata values are strings, `null` or missing, never other JSON types.
- Text.IsWordChar: Python's Unicode `\w` is exact only below U+0100; code points above are treated as non-word characters.
- Text.LowerChar: `str.lower()` is modelled for ASCII and Latin-1 letters only.
- Urls.UrlPath, Urls.Resolve: `urlsplit` and `urljoin` against the repository base are modelled (scheme lower-casing, netloc, query, fragment, dropping an empty `?` or `#`, merging a relative path and dropping its empty inner segments, returning a foreign-scheme reference untouched). Dot segments (`..`, `.`) are not normalised, and params (`;` in the last segment) are not split off, so a bare trailing `;` is kept where `urlunparse` drops it.
- Urls.Resolve: a netloc with an unbalanced `[` or `]` makes `urlsplit` raise `ValueError`. The exception is not a `RequestException`, so it passes the handler at line 158, and the handler at line 272 skips the whole item. The model resolves such a link like any other, and the item gets its row. The same `ValueError` from `urlparse` at lines 119 and 165, which also ends in the item being skipped, is not modelled either.
- Streaming to disk, chunking, `os.makedirs` and the file contents: the directory is the set of names in it. A stream that breaks after the file was opened adds the name and returns nothing.
- Downloads.DownloadOutcome: `os.makedirs` (line 164) and `open` (line 180) never fail in the model. In the source an `OSError` from either is not a `RequestException`, so it escapes `_download_pdf` and the handler at line 272 skips the whole item without a row; the model always appends the row.
- The order of `";".join` over the orgunit set (line 232) and `"".join` over the `dc.type` set (line 237): Python's set order is unspecified, so the model keeps the set of parts.
- The CSV output, the DataFrame and the module-level driver (lines 283-320, including the commented-out post-processing).
- `fetch_abstract_from_doi`, `fetch_abstract_from_doi_negotiation` and `fetch_abstract_from_springer` themselves: each becomes one oracle answer. `Returns(None)` stands for a failed request or a missing abstract, and `Raises` for an exception the stage does not catch (the `KeyError` of line 23, the `AttributeError` of line 55). Which replies make a stage raise is part of the oracle.
- A transport error inside `query_repositum`'s own `requests.get` is not caught there; the model ends the harvest with the `Crashed` stop instead of an exception. The same applies to the `min(…, None)` of line 228 when the first page's `numberOfItems` is `null`.
- Harvest.Harvest: the server's script is finite, and a server whose script is used up is unreachable, which ends the harvest with `Crashed`. When `numberOfItems` is 0 or missing, the source stops only on an empty page, on `max_items` or on giving up, so a server that sends non-empty pages forever (a harvest that does not terminate) is not modelled.
