/** Gitea's caller-driven listing: a cursor is a page number, or "page:skip" when the
    candidate budget stopped a read inside that page, and the total count header says
    whether another page follows. */
module GiteaPaging {
  import opened Text
  import opened Selection

  datatype Request = Request(limit: int, page: int, maxCandidates: int)

  datatype Page<T> = Page(items: seq<T>, candidates: nat, hasNext: bool, nextCursor: string)

  datatype Position = Position(page: nat, skip: nat)

  function Width(req: Request): (w: nat)
    ensures 1 <= w <= 50
    ensures w == if req.limit > 0 then Min(req.limit, 50) else 30
  {
    if req.limit <= 0 then 30 else if req.limit < 50 then req.limit else 50
  }

  /** The text before and after the first colon. */
  function Cut(s: string): (string, string, bool) {
    if s == "" then ("", "", false)
    else if s[0] == ':' then ("", s[1..], true)
    else
      var (before, after, found) := Cut(s[1..]);
      ([s[0]] + before, after, found)
  }

  /** parseGiteaWorkItemCursor. */
  function ParseCursor(cursor: string, width: nat): (r: Option<Position>)
    ensures r.Some? ==> r.value.page >= 1 && (r.value.skip == 0 || r.value.skip < width)
  {
    var (pagePart, skipPart, hasSkip) := Cut(cursor);
    var page := Atoi(pagePart);
    if page.None? || page.value < 1 then None
    else if !hasSkip then Some(Position(page.value, 0))
    else
      var skip := Atoi(skipPart);
      if skip.None? || skip.value < 1 || skip.value >= width then None
      else Some(Position(page.value, skip.value))
  }

  function PrintCursor(p: Position): string {
    if p.skip == 0 then Itoa(p.page) else Itoa(p.page) + ":" + Itoa(p.skip)
  }

  lemma {:induction false} CutDigits(digits: string, rest: string)
    requires Digits(digits)
    ensures Cut(digits) == (digits, "", false)
    ensures Cut(digits + ":" + rest) == (digits, rest, true)
  {
    var s := digits + ":" + rest;
    if digits == "" {
      assert s[1..] == rest;
    } else {
      CutDigits(digits[1..], rest);
      assert s[1..] == digits[1..] + ":" + rest;
      assert digits == [digits[0]] + digits[1..];
    }
  }

  /** A printed cursor is read back, under the width it was printed for and under any
      other the skip still fits in; a skip that does not fit is refused. */
  lemma CursorRoundTrip(p: Position, width: nat)
    requires p.page >= 1
    ensures ParseCursor(PrintCursor(p), width) == (if p.skip < width || p.skip == 0 then Some(p) else None)
  {
    CutDigits(Itoa(p.page), Itoa(p.skip));
    AtoiOfItoa(p.page);
    AtoiOfItoa(p.skip);
  }

  /** The record a position stands at. */
  function OffsetOf(p: Position, width: nat): nat
    requires p.page >= 1
  {
    PageStart(p.page, width) + p.skip
  }

  /** The record a cursor resumes at, if the parser accepts it. */
  function ResumesAt(cursor: string, width: nat): Option<nat> {
    var p := ParseCursor(cursor, width);
    if p.Some? then Some(OffsetOf(p.value, width)) else None
  }

  lemma CursorResumes(p: Position, width: nat)
    requires p.page >= 1 && (p.skip == 0 || p.skip < width)
    ensures ResumesAt(PrintCursor(p), width) == Some(OffsetOf(p, width))
  {
    CursorRoundTrip(p, width);
  }

  /** Where a request reads from, if its cursor is well formed. */
  function From(req: Request, cursor: string): (r: Option<Position>)
    ensures r.Some? ==> r.value.page >= 1 && r.value.skip < Width(req)
  {
    if cursor == "" then Some(Position(if req.page < 1 then 1 else req.page, 0))
    else ParseCursor(cursor, Width(req))
  }

  /** A request without a cursor starts at its page, counted in pages of 30 records without a
      limit, else of the limit but at most 50. */
  lemma FirstOffset(req: Request, width: nat)
    requires width == if req.limit > 0 then Min(req.limit, 50) else 30
    ensures var p := From(req, "");
            p.Some? && OffsetOf(p.value, Width(req)) == if req.page <= 1 then 0 else (req.page - 1) * width
  {
    PageStartIsProduct(if req.page < 1 then 1 else req.page, width);
  }

  /** What one page read from offset promises its caller, given an accurate total: it
      returned exactly the matching ones among the records it consumed, it consumes one
      before it continues, and it continues exactly short of the end of the listing. */
  ghost predicate Serves<T>(records: seq<T>, judge: T -> Verdict, req: Request, offset: nat, page: Page<T>) {
    var count := page.candidates;
    && (count > 0 ==> offset + count <= |records|)
    && page.items == Selected(Slice(records, offset, count), judge)
    && (page.hasNext ==> count >= 1)
    && (page.hasNext <==> offset + count < |records|)
    && count <= Width(req)
    && (req.maxCandidates > 0 ==> count <= req.maxCandidates)
  }

  /** The cursor a page hands out, if any, is accepted and stands right after the records
      the page consumed. */
  predicate Continues<T>(req: Request, offset: nat, page: Page<T>) {
    if page.hasNext then ResumesAt(page.nextCursor, Width(req)) == Some(offset + page.candidates)
    else page.nextCursor == ""
  }

  /** So the next call, made with that cursor and the same width, reads from there. */
  lemma NextCallContinues<T>(req: Request, offset: nat, page: Page<T>, next: Request)
    requires Continues(req, offset, page) && page.hasNext && Width(next) == Width(req)
    ensures var p := From(next, page.nextCursor);
            p.Some? && OffsetOf(p.value, Width(next)) == offset + page.candidates
  {
  }

  /** giteaIssuesToWorkItems. */
  method IssuesToWorkItems<T>(issues: seq<T>, judge: T -> Verdict, limit: int)
    returns (items: seq<T>, broken: bool)
    ensures broken ==> !Clean(issues, judge)
    ensures !broken && (limit <= 0 || |issues| <= limit) ==> items == Selected(issues, judge)
  {
    items, broken := [], false;
    for i := 0 to |issues|
      invariant items == Selected(issues[..i], judge)
      invariant limit > 0 ==> |items| < limit
    {
      SelectedNext(issues, i, judge);
      match judge(issues[i])
      case Broken => return items, true;
      case Rejected =>
      case Matched =>
        items := items + [issues[i]];
        if limit > 0 && |items| >= limit {
          SelectedShorter(issues[..i + 1], judge);
          assert |issues| <= limit ==> issues[..i + 1] == issues;
          return items, false;
        }
    }
    assert issues[..|issues|] == issues;
  }

  /** The records one read may inspect: its page from the skip on, cut to the budget. */
  method Candidates<T>(records: seq<T>, width: nat, p: Position, maxCandidates: int)
    returns (issues: seq<T>, budgetCapped: bool)
    requires p.page >= 1 && p.skip < width
    ensures issues != [] ==>
              && OffsetOf(p, width) + |issues| <= |records|
              && issues == records[OffsetOf(p, width)..OffsetOf(p, width) + |issues|]
    ensures issues == [] ==> OffsetOf(p, width) >= |records|
    ensures |issues| <= width
    ensures !budgetCapped ==>
              if PageStart(p.page, width) + width < |records|
              then OffsetOf(p, width) + |issues| == PageStart(p.page, width) + width
              else OffsetOf(p, width) + |issues| >= |records|
    ensures budgetCapped ==> 0 < p.skip + |issues| < width && |issues| == maxCandidates > 0
    ensures budgetCapped ==> OffsetOf(p, width) + |issues| < |records|
    ensures maxCandidates > 0 ==> |issues| <= maxCandidates
  {
    issues := PageOf(records, p.page, width);
    PageFrom(records, p.page, width, p.skip);
    issues := issues[Min(p.skip, |issues|)..];
    budgetCapped := maxCandidates > 0 && |issues| > maxCandidates;
    if budgetCapped {
      PrefixOfRange(records, OffsetOf(p, width), OffsetOf(p, width) + |issues|, maxCandidates);
      issues := issues[..maxCandidates];
    }
  }

  method ListWorkItemsPage<T>(records: seq<T>, total: int, judge: T -> Verdict, req: Request, cursor: string)
    returns (r: Result<Page<T>>)
    ensures r.BadCursor? <==> From(req, cursor).None?
    ensures r.BadRecord? ==> !Clean(records, judge)
    ensures r.Ok? && total == |records| ==> Answers(records, judge, req, cursor, r.value)
    ensures r.Ok? && total == |records| && r.value.hasNext ==>
              StopsForCause(req, From(req, cursor).value.skip, r.value)
  {
    var position := From(req, cursor);
    if position.None? {
      return BadCursor;
    }
    r := ReadPage(records, total, judge, req, position.value);
  }

  /** A page that continues spent its budget or read its server page to the end. */
  predicate StopsForCause<T>(req: Request, skip: nat, page: Page<T>) {
    page.candidates == req.maxCandidates || skip + page.candidates == Width(req)
  }

  method ReadPage<T>(records: seq<T>, total: int, judge: T -> Verdict, req: Request, p: Position)
    returns (r: Result<Page<T>>)
    requires p.page >= 1 && p.skip < Width(req)
    ensures !r.BadCursor?
    ensures r.BadRecord? ==> !Clean(records, judge)
    ensures r.Ok? && total == |records| ==>
              && Serves(records, judge, req, OffsetOf(p, Width(req)), r.value)
              && Continues(req, OffsetOf(p, Width(req)), r.value)
    ensures r.Ok? && total == |records| && r.value.hasNext ==> StopsForCause(req, p.skip, r.value)
  {
    var width := Width(req);
    var issues, budgetCapped := Candidates(records, width, p, req.maxCandidates);
    var hasNext, nextCursor := NextPage(p, width, total, |issues|, budgetCapped);
    var items, broken := IssuesToWorkItems(issues, judge, req.limit);
    if broken {
      assert forall i :: 0 <= i < |issues| ==> issues[i] == records[OffsetOf(p, width) + i];
      return BadRecord;
    }
    SliceExact(records, OffsetOf(p, width), |issues|);
    r := Ok(Page(items, |issues|, hasNext, nextCursor));
  }

  lemma Resumes(cursor: string, p: Position, width: nat)
    requires p.page >= 1 && (p.skip == 0 || p.skip < width) && cursor == PrintCursor(p)
    ensures ResumesAt(cursor, width) == Some(OffsetOf(p, width))
  {
    CursorResumes(p, width);
  }

  /** updateGiteaWorkItemPageInfo. */
  method NextPage(p: Position, width: nat, total: int, count: nat, budgetCapped: bool)
    returns (hasNext: bool, nextCursor: string)
    requires p.page >= 1 && width >= 1
    ensures hasNext <==> budgetCapped || PageStart(p.page, width) + width < total
    ensures !hasNext ==> nextCursor == ""
    ensures budgetCapped && 0 < p.skip + count < width ==>
              ResumesAt(nextCursor, width) == Some(OffsetOf(p, width) + count)
    ensures hasNext && !budgetCapped ==> ResumesAt(nextCursor, width) == Some(PageStart(p.page, width) + width)
  {
    PageEndIsProduct(p.page, width);
    hasNext := p.page * width < total;
    nextCursor := "";
    if hasNext {
      nextCursor := Itoa(p.page + 1);
      Resumes(nextCursor, Position(p.page + 1, 0), width);
    }
    if budgetCapped {
      hasNext := true;
      nextCursor := Itoa(p.page) + ":" + Itoa(p.skip + count);
      if 0 < p.skip + count < width {
        Resumes(nextCursor, Position(p.page, p.skip + count), width);
      }
    }
  }

  // ---------------------------------------------------------------- whole walks

  /** page is what ListWorkItemsPage may answer, under an accurate total, for a request with
      that cursor. */
  ghost predicate Answers<T>(records: seq<T>, judge: T -> Verdict, req: Request, cursor: string, page: Page<T>) {
    var p := From(req, cursor);
    && p.Some?
    && Serves(records, judge, req, OffsetOf(p.value, Width(req)), page)
    && Continues(req, OffsetOf(p.value, Width(req)), page)
  }

  /** Calls made one after the other, each with the cursor the one before handed out; all
      but the last have a next. */
  ghost predicate Walk<T>(records: seq<T>, judge: T -> Verdict, cursor: string, reqs: seq<Request>, pages: seq<Page<T>>)
    decreases |pages|
  {
    && |reqs| == |pages| > 0
    && Answers(records, judge, reqs[0], cursor, pages[0])
    && (|pages| > 1 ==>
          pages[0].hasNext && Walk(records, judge, pages[0].nextCursor, reqs[1..], pages[1..]))
  }

  /** One page width throughout, as one limit gives. */
  predicate SameWidth(reqs: seq<Request>) {
    forall i, j :: 0 <= i < j < |reqs| ==> Width(reqs[i]) == Width(reqs[j])
  }

  /** The record a request with an accepted cursor reads from. */
  function Start(req: Request, cursor: string): nat
    requires From(req, cursor).Some?
  {
    OffsetOf(From(req, cursor).value, Width(req))
  }

  function Items<T>(pages: seq<Page<T>>): seq<T> {
    if pages == [] then [] else pages[0].items + Items(pages[1..])
  }

  /** One answered call: what it returned and, if it continues, what a call of the same width
      with its cursor has left to return, together are all there was, and less is left. */
  lemma AnswerSplits<T>(
    records: seq<T>, judge: T -> Verdict, req: Request, cursor: string, page: Page<T>, next: Request)
    requires Answers(records, judge, req, cursor, page) && Width(next) == Width(req)
    ensures page.hasNext ==>
              && From(next, page.nextCursor).Some?
              && SelectedFrom(records, Start(req, cursor), judge)
                 == page.items + SelectedFrom(records, Start(next, page.nextCursor), judge)
              && Start(req, cursor) < Start(next, page.nextCursor) <= |records|
    ensures !page.hasNext ==> SelectedFrom(records, Start(req, cursor), judge) == page.items
  {
    var offset := Start(req, cursor);
    SelectedSplit(records, offset, page.candidates, judge);
    if page.hasNext {
      NextCallContinues(req, offset, page, next);
    } else {
      SelectedPastEnd(records, offset + page.candidates, judge);
    }
  }

  /** With one width and an accurate total, following NextCursor until HasNext is false
      returns exactly the matching records from where the first call begins, in order, each
      once. */
  lemma {:induction false} WalkIsExact<T>(records: seq<T>, judge: T -> Verdict, cursor: string,
                                          reqs: seq<Request>, pages: seq<Page<T>>)
    requires Walk(records, judge, cursor, reqs, pages) && SameWidth(reqs) && !pages[|pages| - 1].hasNext
    ensures Items(pages) == SelectedFrom(records, Start(reqs[0], cursor), judge)
    decreases |pages|
  {
    if |pages| == 1 {
      AnswerSplits(records, judge, reqs[0], cursor, pages[0], reqs[0]);
      assert pages[1..] == [];
    } else {
      AnswerSplits(records, judge, reqs[0], cursor, pages[0], reqs[1]);
      WalkIsExact(records, judge, pages[0].nextCursor, reqs[1..], pages[1..]);
    }
  }

  /** Every continuing call consumes a record, so no walk outruns the listing. */
  lemma {:induction false} WalkTerminates<T>(records: seq<T>, judge: T -> Verdict, cursor: string,
                                             reqs: seq<Request>, pages: seq<Page<T>>)
    requires Walk(records, judge, cursor, reqs, pages) && SameWidth(reqs)
    ensures |pages| == 1 || |pages| <= |records| - Start(reqs[0], cursor) + 1
    decreases |pages|
  {
    if |pages| > 1 {
      AnswerSplits(records, judge, reqs[0], cursor, pages[0], reqs[1]);
      WalkTerminates(records, judge, pages[0].nextCursor, reqs[1..], pages[1..]);
    }
  }

  predicate AllMatch<T>(records: seq<T>, judge: T -> Verdict) {
    forall i :: 0 <= i < |records| ==> judge(records[i]) == Matched
  }

  /** A cursor without a skip names the same page under every width. */
  lemma PageCursor(cursor: string, width: nat, page: nat)
    requires ParseCursor(cursor, 1) == Some(Position(page, 0))
    ensures ParseCursor(cursor, width) == Some(Position(page, 0)) && cursor != ""
  {
    assert Cut("").0 == "" && Atoi("").None?;
  }

  /** All of what a call inspects is returned when everything matches. */
  lemma ServesAll<T>(records: seq<T>, judge: T -> Verdict, req: Request, offset: nat, page: Page<T>)
    requires Serves(records, judge, req, offset, page) && AllMatch(records, judge)
    ensures page.items == Slice(records, offset, page.candidates)
  {
    SliceExact(records, offset, page.candidates);
    var slice := Slice(records, offset, page.candidates);
    forall i | 0 <= i < |slice| ensures judge(slice[i]) == Matched {
      assert slice[i] == records[offset + i];
    }
    AllSelected(slice, judge);
  }

  lemma FirstOfOne<T>(records: seq<T>, judge: T -> Verdict, page: Page<T>)
    requires |records| == 3 && AllMatch(records, judge)
    requires Answers(records, judge, Request(1, 1, 0), "", page)
    ensures page.items == records[0..1] && page.hasNext
    ensures ParseCursor(page.nextCursor, 1) == Some(Position(2, 0))
  {
    ServesAll(records, judge, Request(1, 1, 0), 0, page);
    SliceExact(records, 0, 1);
    var p := ParseCursor(page.nextCursor, 1).value;
    PageStartIsProduct(p.page, 1);
  }

  lemma SecondOfTwo<T>(records: seq<T>, judge: T -> Verdict, cursor: string, page: Page<T>)
    requires |records| == 3 && AllMatch(records, judge)
    requires cursor != "" && ParseCursor(cursor, 2) == Some(Position(2, 0))
    requires Answers(records, judge, Request(2, 1, 0), cursor, page)
    ensures page.items == records[2..3] && !page.hasNext
  {
    assert PageStart(2, 2) == 2;
    ServesAll(records, judge, Request(2, 1, 0), 2, page);
    SliceExact(records, 2, 1);
  }

  /** Three records, all matching, read one at a time and then two at a time: whatever the two
      calls answer, the second page of two begins after a record nobody read, and ends the
      walk. */
  lemma WiderPageLosesRecord<T>(records: seq<T>, judge: T -> Verdict, first: Page<T>, second: Page<T>)
    requires |records| == 3 && AllMatch(records, judge)
    requires Answers(records, judge, Request(1, 1, 0), "", first)
    requires Answers(records, judge, Request(2, 1, 0), first.nextCursor, second)
    ensures first.hasNext && !second.hasNext
    ensures first.items == records[0..1] && second.items == records[2..3]
  {
    FirstOfOne(records, judge, first);
    PageCursor(first.nextCursor, 2, 2);
    SecondOfTwo(records, judge, first.nextCursor, second);
  }

  /** A cursor resumes where it was handed out exactly when the page width is the same,
      or it stands in the first page and its skip fits the new width. */
  lemma ResumesIffSameWidth(p: Position, width: nat, other: nat)
    requires p.page >= 1 && p.skip < width && other >= 1
    ensures ResumesAt(PrintCursor(p), other) == Some(OffsetOf(p, width))
            <==> other == width || (p.page == 1 && p.skip < other)
  {
    CursorRoundTrip(p, other);
    if width <= other { PageStartGrows(p.page, width, other); } else { PageStartGrows(p.page, other, width); }
  }

  /** Wider pages start later, except the first. */
  lemma {:induction false} PageStartGrows(page: nat, width: nat, wider: nat)
    requires page >= 1 && width <= wider
    ensures PageStart(page, width) <= PageStart(page, wider)
    ensures page > 1 && width < wider ==> PageStart(page, width) < PageStart(page, wider)
  {
    if page > 1 {
      PageStartGrows(page - 1, width, wider);
    }
  }
}
