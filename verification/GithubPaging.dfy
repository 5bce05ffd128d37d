/** GitHub's caller-driven listing: a cursor is a record offset, and a resumed read takes
    the full-width page that contains it and drops the records before it. */
module GithubPaging {
  import opened Text
  import opened Selection

  /** The paging fields of a ListWorkItems request; oversized is whether a filter applies
      after the fetch (NeedsOversizedCandidateScan). */
  datatype Request = Request(limit: int, oversized: bool, page: int, maxCandidates: int)

  datatype Page<T> = Page(items: seq<T>, candidates: nat, hasNext: bool, nextCursor: string)

  function Width(req: Request): (w: nat)
    ensures 1 <= w <= 100
  {
    if req.limit <= 0 then 30
    else if req.oversized || req.limit > 100 then 100
    else req.limit
  }

  datatype Position = Position(page: nat, offset: nat, skipped: nat)

  /** githubWorkItemPagePosition. */
  function PagePosition(req: Request, width: nat, cursor: string): (r: Option<Position>)
    requires width >= 1
    ensures r.Some? ==>
              && r.value.page >= 1 && r.value.skipped < width
              && r.value.offset == PageStart(r.value.page, width) + r.value.skipped
    ensures r.None? <==> cursor != "" && (Atoi(cursor).None? || Atoi(cursor).value < 0)
    ensures r.Some? ==> r.value.offset == (if cursor == "" then Origin(req, width) else Atoi(cursor).value)
  {
    var page := if req.page < 1 then 1 else req.page;
    if cursor == "" then
      PageStartIsProduct(page, width);
      Some(Position(page, (page - 1) * width, 0))
    else if Atoi(cursor).None? || Atoi(cursor).value < 0 then None
    else
      var offset: nat := Atoi(cursor).value;
      PageHolding(offset, width);
      Some(Position(offset / width + 1, offset, offset % width))
  }

  /** The first offset a request without a cursor reads from. */
  function Origin(req: Request, width: nat): nat {
    PageStart(if req.page < 1 then 1 else req.page, width)
  }

  /** Where a request with a well-formed cursor reads from. */
  function From(req: Request, cursor: string): nat {
    if cursor != "" && Atoi(cursor).Some? && Atoi(cursor).value >= 0 then Atoi(cursor).value
    else Origin(req, Width(req))
  }

  /** A request without a cursor starts at its page, counted in pages of 30 records without a
      limit, of 100 under a filter applied after the fetch, else of the limit but at most 100. */
  lemma FirstOffset(req: Request, width: nat)
    requires width == if req.limit <= 0 then 30 else if req.oversized then 100 else Min(req.limit, 100)
    ensures From(req, "") == if req.page <= 1 then 0 else (req.page - 1) * width
  {
    PageStartIsProduct(if req.page < 1 then 1 else req.page, width);
  }

  /** What one page read from offset promises its caller: it consumed the records up to
      some point and returned exactly the matching ones among them; it consumes one before
      it continues, and stops only at the end of the listing. */
  ghost predicate Serves<T>(
    records: seq<T>, judge: T -> Verdict, req: Request, offset: nat, scanned: nat, page: Page<T>)
  {
    && (scanned > 0 ==> offset + scanned <= |records|)
    && page.items == Selected(Slice(records, offset, scanned), judge)
    && Clean(Slice(records, offset, scanned), judge)
    && (page.hasNext ==> scanned >= 1)
    && (!page.hasNext ==> offset + scanned >= |records|)
    && scanned <= page.candidates
    && (req.limit > 0 ==> |page.items| <= req.limit)
    && (req.maxCandidates > 0 ==> page.candidates <= req.maxCandidates)
  }

  /** A page that continues has its limit of matches, spent its budget, or read its server
      page to the end. */
  predicate StopsForCause<T>(req: Request, scanned: nat, skipped: nat, page: Page<T>) {
    |page.items| == req.limit || scanned == req.maxCandidates || skipped + scanned == Width(req)
  }

  /** The cursor a page hands out, if any, stands right after the records it consumed. */
  predicate Continues<T>(offset: nat, scanned: nat, page: Page<T>) {
    page.nextCursor == if page.hasNext then Itoa(offset + scanned) else ""
  }

  /** So the next call, made with that cursor and any limit, width or budget, reads from
      there. */
  lemma NextCallContinues<T>(offset: nat, scanned: nat, page: Page<T>, next: Request)
    requires Continues(offset, scanned, page) && page.hasNext
    ensures From(next, page.nextCursor) == offset + scanned
  {
    AtoiOfItoa(offset + scanned);
  }

  /** issuesToWorkItems: filters until limit matches are in hand. */
  method IssuesToWorkItems<T>(issues: seq<T>, judge: T -> Verdict, limit: int)
    returns (items: seq<T>, scanned: nat, broken: bool)
    ensures scanned <= |issues|
    ensures broken ==> scanned >= 1 && judge(issues[scanned - 1]) == Broken
    ensures !broken ==> items == Selected(issues[..scanned], judge) && Clean(issues[..scanned], judge)
    ensures !broken && limit > 0 ==> |items| <= limit
    ensures !broken && scanned < |issues| ==> limit > 0 && |items| == limit
    ensures issues != [] ==> scanned >= 1
  {
    items, scanned, broken := [], 0, false;
    while scanned < |issues|
      invariant scanned <= |issues|
      invariant items == Selected(issues[..scanned], judge) && Clean(issues[..scanned], judge)
      invariant limit > 0 ==> |items| < limit
    {
      var issue := issues[scanned];
      SelectedNext(issues, scanned, judge);
      scanned := scanned + 1;
      match judge(issue)
      case Broken => return items, scanned, true;
      case Rejected =>
      case Matched =>
        items := items + [issue];
        if limit > 0 && |items| >= limit {
          break;
        }
    }
  }

  /** The records one read may inspect: its page from the resume offset on, cut to the
      budget. */
  method Candidates<T>(records: seq<T>, width: nat, p: Position, maxCandidates: int)
    returns (issues: seq<T>, fetched: nat, budgetCapped: bool)
    requires p.page >= 1 && p.skipped < width && p.offset == PageStart(p.page, width) + p.skipped
    ensures issues != [] ==> p.offset + |issues| <= |records| && issues == records[p.offset..p.offset + |issues|]
    ensures issues == [] ==> p.offset >= |records| && fetched < width
    ensures fetched < width && !budgetCapped ==> p.offset + |issues| >= |records|
    ensures maxCandidates > 0 ==> |issues| <= maxCandidates
    ensures budgetCapped ==> |issues| == maxCandidates > 0
    ensures fetched == width && !budgetCapped ==> |issues| == width - p.skipped
    ensures fetched <= width
  {
    issues := PageOf(records, p.page, width);
    fetched := |issues|;
    PageFrom(records, p.page, width, p.skipped);
    issues := issues[Min(p.skipped, fetched)..];
    budgetCapped := maxCandidates > 0 && |issues| > maxCandidates;
    if budgetCapped {
      PrefixOfRange(records, p.offset, p.offset + |issues|, maxCandidates);
      issues := issues[..maxCandidates];
    }
  }

  method ListWorkItemsPage<T>(records: seq<T>, judge: T -> Verdict, req: Request, cursor: string)
    returns (r: Result<Page<T>>, ghost scanned: nat)
    ensures r.BadCursor? <==> !GoodCursor(cursor)
    ensures r.BadRecord? ==> !Clean(records, judge)
    ensures r.Ok? ==> Serves(records, judge, req, From(req, cursor), scanned, r.value)
                      && Continues(From(req, cursor), scanned, r.value)
    ensures r.Ok? ==> Answers(records, judge, req, cursor, r.value)
    ensures r.Ok? && r.value.hasNext ==>
              StopsForCause(req, scanned, PagePosition(req, Width(req), cursor).value.skipped, r.value)
  {
    var position := PagePosition(req, Width(req), cursor);
    if position.None? {
      return BadCursor, 0;
    }
    r, scanned := ReadPage(records, judge, req, position.value);
  }

  method ReadPage<T>(records: seq<T>, judge: T -> Verdict, req: Request, p: Position)
    returns (r: Result<Page<T>>, ghost scanned: nat)
    requires p.page >= 1 && p.skipped < Width(req) && p.offset == PageStart(p.page, Width(req)) + p.skipped
    ensures !r.BadCursor?
    ensures r.BadRecord? ==> !Clean(records, judge)
    ensures r.Ok? ==> Serves(records, judge, req, p.offset, scanned, r.value) && Continues(p.offset, scanned, r.value)
    ensures r.Ok? && r.value.hasNext ==> StopsForCause(req, scanned, p.skipped, r.value)
  {
    var width := Width(req);
    var issues, fetched, budgetCapped := Candidates(records, width, p, req.maxCandidates);
    var items, count, broken := IssuesToWorkItems(issues, judge, req.limit);
    if broken {
      assert issues[count - 1] == records[p.offset + count - 1];
      return BadRecord, 0;
    }
    scanned := count;
    SliceExact(records, p.offset, count);
    if issues != [] {
      PrefixOfRange(records, p.offset, p.offset + |issues|, count);
    }
    var hasNext := count != |issues| || fetched == width || budgetCapped;
    r := Ok(Page(items, |issues|, hasNext, if hasNext then Itoa(p.offset + count) else ""));
  }

  // ---------------------------------------------------------------- whole walks

  predicate GoodCursor(cursor: string) {
    cursor == "" || (Atoi(cursor).Some? && Atoi(cursor).value >= 0)
  }

  /** page is what ListWorkItemsPage may answer for a request with that cursor. */
  ghost predicate Answers<T>(records: seq<T>, judge: T -> Verdict, req: Request, cursor: string, page: Page<T>) {
    && GoodCursor(cursor)
    && exists scanned: nat :: Serves(records, judge, req, From(req, cursor), scanned, page)
         && Continues(From(req, cursor), scanned, page)
  }

  /** Calls made one after the other, each with the cursor the one before handed out and
      each free to ask for another limit, width or budget; all but the last have a next. */
  ghost predicate Walk<T>(records: seq<T>, judge: T -> Verdict, cursor: string, reqs: seq<Request>, pages: seq<Page<T>>)
    decreases |pages|
  {
    && |reqs| == |pages| > 0
    && Answers(records, judge, reqs[0], cursor, pages[0])
    && (|pages| > 1 ==>
          pages[0].hasNext && Walk(records, judge, pages[0].nextCursor, reqs[1..], pages[1..]))
  }

  function Items<T>(pages: seq<Page<T>>): seq<T> {
    if pages == [] then [] else pages[0].items + Items(pages[1..])
  }

  lemma {:induction false} ItemsFrom<T>(pages: seq<Page<T>>, rest: seq<T>)
    requires pages != [] && Items(pages[1..]) == rest
    ensures Items(pages) == pages[0].items + rest
  {
  }

  lemma ServesSplits<T>(records: seq<T>, judge: T -> Verdict, req: Request, offset: nat, scanned: nat, page: Page<T>)
    requires Serves(records, judge, req, offset, scanned, page)
    ensures SelectedFrom(records, offset, judge) == page.items + SelectedFrom(records, offset + scanned, judge)
    ensures !page.hasNext ==> SelectedFrom(records, offset + scanned, judge) == []
  {
    SelectedSplit(records, offset, scanned, judge);
    if !page.hasNext {
      SelectedPastEnd(records, offset + scanned, judge);
    }
  }

  /** One answered call: what it returned and, if it continues, what a call with its cursor
      has left to return, together are all there was, and less is left. */
  lemma AnswerSplits<T>(
    records: seq<T>, judge: T -> Verdict, req: Request, cursor: string, page: Page<T>, next: Request)
    requires Answers(records, judge, req, cursor, page)
    ensures page.hasNext ==>
              && SelectedFrom(records, From(req, cursor), judge)
                 == page.items + SelectedFrom(records, From(next, page.nextCursor), judge)
              && From(req, cursor) < From(next, page.nextCursor) <= |records|
    ensures !page.hasNext ==> SelectedFrom(records, From(req, cursor), judge) == page.items
  {
    var offset := From(req, cursor);
    var scanned: nat :| Serves(records, judge, req, offset, scanned, page) && Continues(offset, scanned, page);
    ServesSplits(records, judge, req, offset, scanned, page);
    if page.hasNext {
      NextCallContinues(offset, scanned, page, next);
    }
  }

  /** Following NextCursor until HasNext is false, with any limits, widths and budgets on the
      way, returns exactly the matching records from where the first call begins, in order,
      each once. */
  lemma {:induction false} WalkIsExact<T>(records: seq<T>, judge: T -> Verdict, cursor: string,
                                          reqs: seq<Request>, pages: seq<Page<T>>)
    requires Walk(records, judge, cursor, reqs, pages) && !pages[|pages| - 1].hasNext
    ensures Items(pages) == SelectedFrom(records, From(reqs[0], cursor), judge)
    decreases |pages|
  {
    if |pages| == 1 {
      AnswerSplits(records, judge, reqs[0], cursor, pages[0], reqs[0]);
      assert pages[1..] == [];
      ItemsFrom(pages, []);
    } else {
      assert reqs[1..][0] == reqs[1];
      var rest := SelectedFrom(records, From(reqs[1], pages[0].nextCursor), judge);
      AnswerSplits(records, judge, reqs[0], cursor, pages[0], reqs[1]);
      WalkIsExact(records, judge, pages[0].nextCursor, reqs[1..], pages[1..]);
      ItemsFrom(pages, rest);
    }
  }

  /** Every continuing call consumes a record, so no walk outruns the listing. */
  lemma {:induction false} WalkTerminates<T>(records: seq<T>, judge: T -> Verdict, cursor: string,
                                             reqs: seq<Request>, pages: seq<Page<T>>)
    requires Walk(records, judge, cursor, reqs, pages)
    ensures |pages| == 1 || |pages| <= |records| - From(reqs[0], cursor) + 1
    decreases |pages|
  {
    if |pages| > 1 {
      AnswerSplits(records, judge, reqs[0], cursor, pages[0], reqs[1]);
      WalkTerminates(records, judge, pages[0].nextCursor, reqs[1..], pages[1..]);
    }
  }
}
