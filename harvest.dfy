/** `query_repositum` (data/ack_extractor.py:205-278): page through the
    repository's REST search, one request per page at the current offset,
    and append one row per item to the caller's list. The server is a
    script of replies and records the offsets it is asked for, so the
    number and order of requests are part of what is specified. */
module Harvest {

  import opened Wrappers
  import opened Metadata
  import opened Web
  import opened Handles
  import opened Downloads
  import opened Rows

  /** The `numberOfItems` member of a page: missing, `null`, or a number. */
  datatype CountField = NoCount | NullCount | Count(n: int)

  /** One entry of `items`; `metadata` is `None` when the member is missing. */
  datatype Item = Item(metadata: Option<seq<MetaField>>)

  /** The decoded JSON of a page. A missing or `null` `items` member is the
      empty list here: line 224 treats all three alike. */
  datatype Page = Page(numberOfItems: CountField, items: seq<Item>)

  /** The answer to one request: a status and a body, or a transport error
      (which `query_repositum` does not catch). */
  datatype Reply = Reply(status: int, page: Page) | Unreachable

  /** Why the loop ended. `Crashed` is an exception leaving `query_repositum`. */
  datatype Stop = Exhausted | Complete | GaveUp | Capped | Crashed

  /** The loop's variables (line 206 and `offset`), the offsets requested so
      far, the caller's `rows_out` and the names in the `pdfs` directory. */
  datatype State = State(offset: int, processed: nat, total: Option<int>, log: seq<int>, rows: seq<Row>, names: set<string>)

  /** The server's script, how an item's columns are read and its PDFs
      fetched, and the argument `max_items` (0 stands for `None` as well). */
  datatype Config = Config(
    script: seq<Reply>,
    extract: seq<MetaField> -> Option<Fields>,
    fetch: (seq<MetaField>, string, set<string>) -> Batch,
    maxItems: int)

  /** `query_repositum(url, pub_type, ..., max_items)` against a site: the
      columns of lines 231-245 and `fetch_repositum_pdfs_by_handle`. */
  ghost function Repository(script: seq<Reply>, site: Site, pubType: string, maxItems: int): Config {
    Config(script, md => ExtractFields(md, pubType), (md, title, names) => FetchPdfs(md, title, names, site), maxItems)
  }

  /** The `i`-th reply; a server whose script is used up is unreachable. */
  function ReplyAt(script: seq<Reply>, i: nat): (r: Reply)
    ensures r.Reply? ==> i < |script|
  {
    if i < |script| then script[i] else Unreachable
  }

  /** Line 222: `total` is read from the first page and then kept; a missing
      `numberOfItems` reads as 0, a `null` one leaves `total` at `None`. */
  function NextTotal(total: Option<int>, c: CountField): (r: Option<int>)
    ensures total.Some? ==> r == total
  {
    if total.Some? then total
    else
      match c
      case NoCount => Some(0)
      case NullCount => None
      case Count(n) => Some(n)
  }

  /** Line 269: `max_items and processed >= max_items`. */
  predicate CapReached(maxItems: int, processed: nat) {
    maxItems != 0 && processed >= maxItems
  }

  /** The state after some items of a page, and whether the cap stopped the loop. */
  datatype Progress = Progress(capped: bool, st: State)

  /** Lines 230-273 for one item: an item without `metadata` or whose
      columns raise is skipped; otherwise its PDFs are downloaded and its
      row is appended. */
  ghost function ItemStep(cfg: Config, item: Item, st: State): (p: Progress)
    ensures p.st.offset == st.offset && p.st.total == st.total && p.st.log == st.log
    ensures (p.st.rows == st.rows && p.st.processed == st.processed && !p.capped)
      || (st.rows <= p.st.rows && |p.st.rows| == |st.rows| + 1 && p.st.processed == st.processed + 1
          && p.capped == CapReached(cfg.maxItems, p.st.processed))
  {
    match item.metadata
    case None => Progress(false, st)
    case Some(md) =>
      match cfg.extract(md)
      case None => Progress(false, st)
      case Some(f) =>
        var b := cfg.fetch(md, f.title, st.names);
        var st' := st.(rows := st.rows + [MakeRow(f, b.paths)], names := b.names, processed := st.processed + 1);
        Progress(CapReached(cfg.maxItems, st'.processed), st')
  }

  /** Lines 229-274 on the items of a page, up to the item that reaches the cap. */
  ghost function Items(cfg: Config, items: seq<Item>, st: State): (p: Progress)
    ensures p.st.offset == st.offset && p.st.total == st.total && p.st.log == st.log
    ensures st.rows <= p.st.rows && |p.st.rows| - |st.rows| == p.st.processed - st.processed
    ensures cfg.maxItems > 0 && st.processed < cfg.maxItems ==>
      p.st.processed <= cfg.maxItems && (p.capped <==> p.st.processed == cfg.maxItems)
    decreases |items|
  {
    if items == [] then Progress(false, st)
    else
      var n := |items| - 1;
      var p := Items(cfg, items[..n], st);
      if p.capped then p else ItemStep(cfg, items[n], p.st)
  }

  /** What one pass of the `while True` loop ends in. */
  datatype Step = Continue(st: State) | Done(stop: Stop, st: State)

  /** Lines 221-278 once a page has arrived. */
  ghost function OnPage(cfg: Config, page: Page, st: State): (s: Step)
    ensures s.st.log == st.log
    ensures st.rows <= s.st.rows && |s.st.rows| - |st.rows| == s.st.processed - st.processed
    ensures st.total.Some? ==> s.st.total == st.total
    ensures s.Continue? ==> page.items != [] && s.st.offset == st.offset + |page.items|
    ensures s.Continue? ==> s.st.total.Some? && !(s.st.total.value != 0 && s.st.offset >= s.st.total.value)
    ensures s.Done? && s.stop == Complete ==> s.st.total.Some? && s.st.total.value != 0 && s.st.offset >= s.st.total.value
    ensures cfg.maxItems > 0 && st.processed < cfg.maxItems ==>
      s.st.processed <= cfg.maxItems && (s.Done? && s.stop == Capped <==> s.st.processed == cfg.maxItems)
    ensures !(s.Done? && s.stop == GaveUp)
  {
    var total := NextTotal(st.total, page.numberOfItems);
    var st1 := st.(total := total);
    if page.items == [] then Done(Exhausted, st1)
    else if total.None? then Done(Crashed, st1)
    else
      var p := Items(cfg, page.items, st1);
      if p.capped then Done(Capped, p.st)
      else
        var st2 := p.st.(offset := p.st.offset + |page.items|);
        if total.value != 0 && st2.offset >= total.value then Done(Complete, st2) else Continue(st2)
  }

  /** The reply a pass works with and the request log after it. */
  datatype Asked = Asked(reply: Reply, log: seq<int>)

  /** A reply that arrived with a status other than 200. */
  predicate NotOk(r: Reply) {
    r.Reply? && r.status != 200
  }

  /** Lines 208-219: request the page at `offset`, and once more at the same
      offset if the status is not 200. */
  function Request(script: seq<Reply>, log: seq<int>, offset: int): (a: Asked)
    ensures a.log == log + [offset] || a.log == log + [offset, offset]
    ensures a.reply.Reply? ==> |a.log| <= |script|
    ensures a.log == log + [offset, offset] <==> NotOk(ReplyAt(script, |log|))
    ensures a.reply == ReplyAt(script, |a.log| - 1)
  {
    var first := ReplyAt(script, |log|);
    if NotOk(first) then Asked(ReplyAt(script, |log| + 1), log + [offset, offset])
    else Asked(first, log + [offset])
  }

  /** One pass of the loop: a transport error escapes, a second non-200
      answer gives up (line 219), and a page is processed. */
  ghost function PageStep(cfg: Config, st: State): (s: Step)
    ensures s.st.log == st.log + [st.offset] || s.st.log == st.log + [st.offset, st.offset]
    ensures s.Continue? ==> |s.st.log| <= |cfg.script|
    ensures st.rows <= s.st.rows && |s.st.rows| - |st.rows| == s.st.processed - st.processed
    ensures st.total.Some? ==> s.st.total == st.total
    ensures s.Done? && s.stop == GaveUp ==> s.st.log == st.log + [st.offset, st.offset]
    ensures s.Done? && s.stop == GaveUp <==>
      NotOk(ReplyAt(cfg.script, |st.log|)) && NotOk(ReplyAt(cfg.script, |st.log| + 1))
    ensures s.Done? && s.stop == Complete ==> s.st.total.Some? && s.st.total.value != 0 && s.st.offset >= s.st.total.value
    ensures s.Continue? ==> s.st.offset > st.offset
    ensures cfg.maxItems > 0 && st.processed < cfg.maxItems ==>
      s.st.processed <= cfg.maxItems && (s.Done? && s.stop == Capped <==> s.st.processed == cfg.maxItems)
  {
    var a := Request(cfg.script, st.log, st.offset);
    var st' := st.(log := a.log);
    if a.reply.Unreachable? then Done(Crashed, st')
    else if a.reply.status != 200 then Done(GaveUp, st')
    else OnPage(cfg, a.reply.page, st')
  }

  /** How the harvest ends and the state it leaves. */
  datatype Finished = Finished(stop: Stop, st: State)

  /** Lines 205-278: pages until a pass of the loop stops. It terminates
      because the script is finite and a used-up script answers
      `Unreachable`; with a `numberOfItems` of 0 or missing, the source
      itself stops only on an empty page, on `max_items` or on giving up. */
  ghost function Harvest(cfg: Config, st: State): Finished
    decreases |cfg.script| - |st.log|
  {
    match PageStep(cfg, st)
    case Done(stop, st') => Finished(stop, st')
    case Continue(st') => Harvest(cfg, st')
  }

  /** The rows already in `rows_out` stay as they were, one row is added per
      item processed, and the requests of earlier calls stay in the log. */
  lemma {:induction false} HarvestKeepsRows(cfg: Config, st: State)
    ensures var r := Harvest(cfg, st);
      st.rows <= r.st.rows && |r.st.rows| - |st.rows| == r.st.processed - st.processed && st.log < r.st.log
    decreases |cfg.script| - |st.log|
  {
    match PageStep(cfg, st)
    case Done(_, _) =>
    case Continue(st') => HarvestKeepsRows(cfg, st');
  }

  /** Once read, `total` never changes. */
  lemma {:induction false} HarvestKeepsTotal(cfg: Config, st: State)
    requires st.total.Some?
    ensures Harvest(cfg, st).st.total == st.total
    decreases |cfg.script| - |st.log|
  {
    match PageStep(cfg, st)
    case Done(_, _) =>
    case Continue(st') => HarvestKeepsTotal(cfg, st');
  }

  /** With a positive `max_items`, no more items are processed than that,
      and the harvest stops on the cap exactly when it is reached. */
  lemma {:induction false} HarvestCap(cfg: Config, st: State)
    requires cfg.maxItems > 0 && st.processed < cfg.maxItems
    ensures var r := Harvest(cfg, st);
      r.st.processed <= cfg.maxItems && (r.stop == Capped <==> r.st.processed == cfg.maxItems)
    decreases |cfg.script| - |st.log|
  {
    match PageStep(cfg, st)
    case Done(_, _) =>
    case Continue(st') =>
      if st'.processed == cfg.maxItems {
        assert false;
      }
      HarvestCap(cfg, st');
  }

  /** The harvest gives up exactly when the last two requests, both for the
      current offset, were answered with a status other than 200, and stops
      on `total` only once the offset has reached a nonzero total. */
  lemma {:induction false} HarvestStops(cfg: Config, st: State)
    ensures var r := Harvest(cfg, st);
      (r.stop == GaveUp ==> |r.st.log| >= 2 && r.st.log[|r.st.log| - 1] == r.st.log[|r.st.log| - 2] == r.st.offset)
      && (r.stop == GaveUp <==>
            (|r.st.log| >= 2 && NotOk(ReplyAt(cfg.script, |r.st.log| - 2)) && NotOk(ReplyAt(cfg.script, |r.st.log| - 1))))
      && (r.stop == Complete ==> r.st.total.Some? && r.st.total.value != 0 && r.st.offset >= r.st.total.value)
    decreases |cfg.script| - |st.log|
  {
    match PageStep(cfg, st)
    case Done(_, st') =>
      var a := Request(cfg.script, st.log, st.offset);
      assert st'.log == a.log;
      if a.log == st.log + [st.offset] {
        assert !NotOk(ReplyAt(cfg.script, |st'.log| - 1));
      }
    case Continue(st') => HarvestStops(cfg, st');
  }

  /** The REST endpoint: it answers requests from its script, in order, and
      records the offset of each request. */
  class RestServer {
    const script: seq<Reply>
    var log: seq<int>

    constructor(script: seq<Reply>)
      ensures this.script == script && log == []
    {
      this.script := script;
      log := [];
    }

    /** Lines 208-219: the request and its single retry. */
    method RequestPage(offset: int) returns (reply: Reply)
      modifies this
      ensures Asked(reply, log) == Request(script, old(log), offset)
    {
      reply := Get(offset);
      if reply.Reply? && reply.status != 200 {
        reply := Get(offset);
      }
    }

    /** `requests.get(f"{url}&offset={offset}")`. */
    method Get(offset: int) returns (r: Reply)
      modifies this
      ensures log == old(log) + [offset]
      ensures r == ReplyAt(script, |old(log)|)
    {
      r := ReplyAt(script, |log|);
      log := log + [offset];
    }
  }

  /** `query_repositum` with its collaborators: the server, the `pdfs`
      directory, the site serving handle pages and PDFs, and the caller's
      `rows_out`, which it appends to in place. */
  class Harvester {
    const server: RestServer
    const folder: PdfFolder
    const site: Site
    var rows: seq<Row>

    constructor(server: RestServer, folder: PdfFolder, site: Site, rows: seq<Row>)
      ensures this.server == server && this.folder == folder && this.site == site && this.rows == rows
    {
      this.server := server;
      this.folder := folder;
      this.site := site;
      this.rows := rows;
    }

    /** The state the specification follows, read off the objects. */
    ghost function Current(offset: int, processed: nat, total: Option<int>): State
      reads this, server, folder
    {
      State(offset, processed, total, server.log, rows, folder.names)
    }

    /** Lines 229-274 on one item; `capped` when the row reached `max_items`. */
    method ProcessItem(item: Item, pubType: string, maxItems: int, ghost offset: int, ghost total: Option<int>, processed: nat)
      returns (capped: bool, processed': nat)
      modifies this, folder
      ensures ItemStep(Repository(server.script, site, pubType, maxItems), item,
                State(offset, processed, total, server.log, old(rows), old(folder.names)))
        == Progress(capped, State(offset, processed', total, server.log, rows, folder.names))
    {
      ghost var cfg := Repository(server.script, site, pubType, maxItems);
      ghost var st := State(offset, processed, total, server.log, rows, folder.names);
      capped, processed' := false, processed;
      if item.metadata.None? {
        ItemSkipped(cfg, item, st);
        return;
      }
      var md := item.metadata.value;
      var fields := ExtractFields(md, pubType);
      if fields.None? {
        ItemSkipped(cfg, item, st);
        return;
      }
      var paths := folder.FetchForItem(md, fields.value.title, site);
      ItemKept(cfg, md, fields.value, st, Batch(paths, folder.names));
      rows := rows + [MakeRow(fields.value, paths)];
      processed' := processed + 1;
      capped := CapReached(maxItems, processed');
    }

    /** Lines 229-274: the items of one page, up to the one reaching `max_items`. */
    method ProcessPage(items: seq<Item>, pubType: string, maxItems: int, ghost offset: int, ghost total: Option<int>, processed: nat)
      returns (capped: bool, processed': nat)
      modifies this, folder
      ensures Items(Repository(server.script, site, pubType, maxItems), items,
                State(offset, processed, total, server.log, old(rows), old(folder.names)))
        == Progress(capped, State(offset, processed', total, server.log, rows, folder.names))
    {
      ghost var cfg := Repository(server.script, site, pubType, maxItems);
      ghost var st := State(offset, processed, total, server.log, rows, folder.names);
      capped, processed' := false, processed;
      var j := 0;
      while j < |items|
        invariant 0 <= j <= |items|
        invariant Items(cfg, items[..j], st) == Progress(false, State(offset, processed', total, server.log, rows, folder.names))
      {
        ItemsPrefix(cfg, items, j, st);
        capped, processed' := ProcessItem(items[j], pubType, maxItems, offset, total, processed');
        if capped {
          ItemsCappedStays(cfg, items, j + 1, st);
          return;
        }
        j := j + 1;
      }
      assert items[..j] == items;
    }

    /** Lines 205-278, from `offset`, with at most `maxItems` rows (0 for no limit). */
    method Query(pubType: string, offset: int, maxItems: int) returns (stop: Stop)
      modifies this, server, folder
      ensures var r := Harvest(Repository(server.script, site, pubType, maxItems), old(Current(offset, 0, None)));
        stop == r.stop && rows == r.st.rows && server.log == r.st.log && folder.names == r.st.names
    {
      ghost var cfg := Repository(server.script, site, pubType, maxItems);
      ghost var result := Harvest(cfg, Current(offset, 0, None));
      var offset := offset;
      var processed: nat := 0;
      var total: Option<int> := None;
      while true
        invariant cfg == Repository(server.script, site, pubType, maxItems)
        invariant Harvest(cfg, Current(offset, processed, total)) == result
        decreases |server.script| - |server.log|
      {
        ghost var st := Current(offset, processed, total);
        var reply := server.RequestPage(offset);
        if reply.Unreachable? || reply.status != 200 {
          HarvestDone(cfg, st);
          return if reply.Unreachable? then Crashed else GaveUp;
        }
        var page := reply.page;
        ghost var asked := Current(offset, processed, total);
        assert PageStep(cfg, st) == OnPage(cfg, page, asked);
        total := NextTotal(total, page.numberOfItems);
        if page.items == [] || total.None? {
          HarvestDone(cfg, st);
          return if page.items == [] then Exhausted else Crashed;
        }
        ghost var st1 := Current(offset, processed, total);
        var capped;
        capped, processed := ProcessPage(page.items, pubType, maxItems, offset, total, processed);
        OnPageAfterItems(cfg, page, asked, Progress(capped, Current(offset, processed, total)));
        if capped {
          HarvestDone(cfg, st);
          return Capped;
        }
        offset := offset + |page.items|;
        if total.value != 0 && offset >= total.value {
          HarvestDone(cfg, st);
          return Complete;
        }
        ghost var next := Current(offset, processed, total);
        assert OnPage(cfg, page, asked) == Continue(next);
        assert PageStep(cfg, st) == Continue(next);
        HarvestContinue(cfg, st);
      }
    }
  }

  /** A pass that stops ends the harvest. */
  lemma HarvestDone(cfg: Config, st: State)
    requires PageStep(cfg, st).Done?
    ensures Harvest(cfg, st) == Finished(PageStep(cfg, st).stop, PageStep(cfg, st).st)
  {
  }

  /** A pass that goes on leaves the rest of the harvest to the next pass. */
  lemma HarvestContinue(cfg: Config, st: State)
    requires PageStep(cfg, st).Continue?
    ensures Harvest(cfg, st) == Harvest(cfg, PageStep(cfg, st).st)
  {
  }

  /** How a pass ends once the page's items have been processed. */
  lemma OnPageAfterItems(cfg: Config, page: Page, st: State, p: Progress)
    requires page.items != [] && NextTotal(st.total, page.numberOfItems).Some?
    requires Items(cfg, page.items, st.(total := NextTotal(st.total, page.numberOfItems))) == p
    ensures p.capped ==> OnPage(cfg, page, st) == Done(Capped, p.st)
    ensures !p.capped ==> var st2 := p.st.(offset := p.st.offset + |page.items|);
      OnPage(cfg, page, st) == if p.st.total.value != 0 && st2.offset >= p.st.total.value then Done(Complete, st2) else Continue(st2)
  {
  }

  lemma ItemSkipped(cfg: Config, item: Item, st: State)
    requires item.metadata.None? || cfg.extract(item.metadata.value).None?
    ensures ItemStep(cfg, item, st) == Progress(false, st)
  {
  }

  lemma ItemKept(cfg: Config, md: seq<MetaField>, f: Fields, st: State, b: Batch)
    requires cfg.extract(md) == Some(f) && b == cfg.fetch(md, f.title, st.names)
    ensures ItemStep(cfg, Item(Some(md)), st)
      == Progress(CapReached(cfg.maxItems, st.processed + 1),
           st.(rows := st.rows + [MakeRow(f, b.paths)], names := b.names, processed := st.processed + 1))
  {
  }

  /** One more item runs on what the items before it left. */
  lemma ItemsPrefix(cfg: Config, items: seq<Item>, j: nat, st: State)
    requires j < |items|
    ensures var p := Items(cfg, items[..j], st);
      Items(cfg, items[..j + 1], st) == if p.capped then p else ItemStep(cfg, items[j], p.st)
  {
    assert items[..j + 1][..j] == items[..j];
  }

  /** Once the cap is reached, the remaining items of the page are not looked at. */
  lemma {:induction false} ItemsCappedStays(cfg: Config, items: seq<Item>, j: nat, st: State)
    requires j <= |items| && Items(cfg, items[..j], st).capped
    ensures Items(cfg, items, st) == Items(cfg, items[..j], st)
    decreases |items| - j
  {
    if j < |items| {
      ItemsPrefix(cfg, items, j, st);
      ItemsCappedStays(cfg, items, j + 1, st);
    } else {
      assert items[..j] == items;
    }
  }
}

/** Two scenarios of a harvest against a scripted server. */
module HarvestScenarios {

  import opened Wrappers
  import opened Metadata
  import opened Harvest

  /** Every item has `metadata` and its columns can be read. */
  ghost predicate AllKept(cfg: Config, items: seq<Item>) {
    forall k :: 0 <= k < |items| ==> items[k].metadata.Some? && cfg.extract(items[k].metadata.value).Some?
  }

  /** Without a cap, a page whose items can all be read adds one row per item. */
  lemma {:induction false} ItemsAllKept(cfg: Config, items: seq<Item>, st: State)
    requires cfg.maxItems == 0 && AllKept(cfg, items)
    ensures var p := Items(cfg, items, st);
      !p.capped && p.st.processed == st.processed + |items| && |p.st.rows| == |st.rows| + |items|
    decreases |items|
  {
    if items != [] {
      var n := |items| - 1;
      assert AllKept(cfg, items[..n]) by {
        forall k | 0 <= k < n ensures items[..n][k] == items[k] { }
      }
      ItemsAllKept(cfg, items[..n], st);
    }
  }

  /** A total of 5 served as pages of 3 and 2 items gives 5 rows after
      exactly two requests, at offsets 0 and 3, whatever the second page
      says about the total. */
  lemma TwoPagesOfFive(cfg: Config, p1: seq<Item>, p2: seq<Item>, c2: CountField, rows: seq<Rows.Row>, names: set<string>)
    requires cfg.maxItems == 0
    requires |p1| == 3 && |p2| == 2 && AllKept(cfg, p1) && AllKept(cfg, p2)
    requires cfg.script == [Reply(200, Page(Count(5), p1)), Reply(200, Page(c2, p2))]
    ensures var r := Harvest.Harvest(cfg, State(0, 0, None, [], rows, names));
      r.stop == Complete && |r.st.rows| == |rows| + 5 && r.st.log == [0, 3] && r.st.total == Some(5)
  {
    var st0 := State(0, 0, None, [], rows, names);
    ItemsAllKept(cfg, p1, st0.(log := [0], total := Some(5)));
    assert Request(cfg.script, [], 0) == Asked(cfg.script[0], [0]);
    var s1 := OnPage(cfg, Page(Count(5), p1), st0.(log := [0]));
    assert PageStep(cfg, st0) == s1;
    assert s1.Continue? && s1.st.offset == 3 && s1.st.log == [0] && s1.st.processed == 3;
    assert s1.st.total == Some(5) && s1.st.rows == Items(cfg, p1, st0.(log := [0], total := Some(5))).st.rows;
    var st1 := s1.st.(log := [0, 3]);
    ItemsAllKept(cfg, p2, st1);
    assert Request(cfg.script, [0], 3) == Asked(cfg.script[1], [0, 3]);
    var s2 := OnPage(cfg, Page(c2, p2), st1);
    assert PageStep(cfg, s1.st) == s2;
    assert s2.Done? && s2.stop == Complete && s2.st.log == [0, 3];
  }

  /** With `max_items` 2 and a first page of at least two readable items,
      the harvest stops after the second row, with a single request. */
  lemma CapOfTwo(cfg: Config, p1: seq<Item>, rest: seq<Reply>, rows: seq<Rows.Row>, names: set<string>)
    requires cfg.maxItems == 2
    requires |p1| >= 2 && AllKept(cfg, p1[..2])
    requires cfg.script == [Reply(200, Page(Count(10), p1))] + rest
    ensures var r := Harvest.Harvest(cfg, State(0, 0, None, [], rows, names));
      r.stop == Capped && |r.st.rows| == |rows| + 2 && r.st.log == [0]
  {
    var st := State(0, 0, Some(10), [0], rows, names);
    assert p1[1] == p1[..2][1] && p1[0] == p1[..2][0];
    ItemsPrefix(cfg, p1, 0, st);
    assert p1[..0] == [];
    var first := Items(cfg, p1[..1], st);
    assert !first.capped && first.st.processed == 1;
    ItemsPrefix(cfg, p1, 1, st);
    var second := Items(cfg, p1[..2], st);
    assert second.capped && second.st.processed == 2;
    ItemsCappedStays(cfg, p1, 2, st);
    assert Request(cfg.script, [], 0) == Asked(cfg.script[0], [0]);
    var s := PageStep(cfg, State(0, 0, None, [], rows, names));
    assert s == Done(Capped, second.st);
  }
}
