/** Azure DevOps' caller-driven listing: a WIQL query names the candidate ids above a
    cursor id in ascending order, workitemsbatch hydrates them 200 at a time, and the
    filters run on the hydrated items. */
module AdoPaging {
  import opened Text
  import opened Selection

  const BATCH_SIZE: nat := 200
  const CANDIDATE_SCAN_CEILING: nat := 250

  /** The paging fields of a ListWorkItems request; postFiltered is whether any filter can
      reject a WIQL candidate. */
  datatype Request = Request(limit: int, postFiltered: bool, maxCandidates: int)

  datatype Hit<T> = Hit(id: nat, item: T)

  /** What the server holds during one call: the ids the WIQL query selects, ascending,
      and the items workitemsbatch can read. An id without an item is omitted. */
  datatype Store<T> = Store(ids: seq<nat>, items: map<nat, T>)

  datatype Page<T> = Page(hits: seq<Hit<T>>, candidates: nat, hasNext: bool, nextCursor: string)

  predicate Ascending(ids: seq<nat>) {
    forall i, j :: 0 <= i < j < |ids| ==> ids[i] < ids[j]
  }

  /** adoWorkItemCandidateLimit for a caller-paged read; zero or less means no limit. */
  function CandidateLimit(req: Request): (n: int)
    ensures req.maxCandidates > 0 ==> 0 < n <= req.maxCandidates
    ensures n <= 0 ==> req.limit <= 0
    ensures req.limit > 0 ==> n >= req.limit || n == req.maxCandidates
    ensures req.limit > 0 && req.postFiltered ==> n >= CANDIDATE_SCAN_CEILING || n == req.maxCandidates
    ensures req.limit > 0 && !req.postFiltered ==> n <= req.limit
    ensures req.limit <= 0 ==> if req.maxCandidates > 0 then n == req.maxCandidates else n <= 0
  {
    var n := if req.limit > 0 && req.postFiltered && req.limit < CANDIDATE_SCAN_CEILING
             then CANDIDATE_SCAN_CEILING else req.limit;
    if req.maxCandidates > 0 && (n <= 0 || n > req.maxCandidates) then req.maxCandidates else n
  }

  /** The ids the query selects above the cursor. */
  function Above(ids: seq<nat>, after: Option<nat>): seq<nat> {
    if ids == [] then []
    else
      var last := ids[|ids| - 1];
      Above(ids[..|ids| - 1], after) + (if after.None? || last > after.value then [last] else [])
  }

  predicate Matches<T>(id: nat, items: map<nat, T>, judge: T -> Verdict) {
    id in items && judge(items[id]) == Matched
  }

  predicate Breaks<T>(id: nat, items: map<nat, T>, judge: T -> Verdict) {
    id in items && judge(items[id]) == Broken
  }

  /** The matching items among some candidate ids, in order. */
  function Chosen<T>(ids: seq<nat>, items: map<nat, T>, judge: T -> Verdict): seq<Hit<T>> {
    if ids == [] then []
    else
      var last := ids[|ids| - 1];
      Chosen(ids[..|ids| - 1], items, judge) +
      (if Matches(last, items, judge) then [Hit(last, items[last])] else [])
  }

  // ---------------------------------------------------------------- hydration

  /** The items a batch read returns for ids: those that can be read, in the order of ids. */
  function Hydrated<T>(ids: seq<nat>, items: map<nat, T>): seq<Hit<T>> {
    if ids == [] then []
    else
      var last := ids[|ids| - 1];
      Hydrated(ids[..|ids| - 1], items) + (if last in items then [Hit(last, items[last])] else [])
  }

  lemma {:induction false} HydratedHits<T>(ids: seq<nat>, items: map<nat, T>)
    ensures forall i :: 0 <= i < |Hydrated(ids, items)| ==>
              var h := Hydrated(ids, items)[i]; h.id in ids && h.id in items && h.item == items[h.id]
    ensures forall id :: id in ids && id in items ==>
              exists i :: 0 <= i < |Hydrated(ids, items)| && Hydrated(ids, items)[i].id == id
  {
    if ids != [] {
      var front, last := ids[..|ids| - 1], ids[|ids| - 1];
      HydratedHits(front, items);
      forall id | id in ids && id in items
        ensures exists i :: 0 <= i < |Hydrated(ids, items)| && Hydrated(ids, items)[i].id == id
      {
        if id == last {
          assert Hydrated(ids, items)[|Hydrated(front, items)|].id == id;
        } else {
          assert id in front;
          var i :| 0 <= i < |Hydrated(front, items)| && Hydrated(front, items)[i].id == id;
          assert Hydrated(ids, items)[i].id == id;
        }
      }
    }
  }

  /** One workitemsbatch response, in whatever order and with null entries for the ids it
      omits. */
  method BatchResponse<T>(items: map<nat, T>, ids: seq<nat>) returns (value: seq<Option<Hit<T>>>)
    ensures forall i :: 0 <= i < |value| && value[i].Some? ==>
              var h := value[i].value; h.id in ids && h.id in items && h.item == items[h.id]
    ensures forall id :: id in ids && id in items ==>
              exists i :: 0 <= i < |value| && value[i].Some? && value[i].value.id == id
  {
    value := [];
    for k := 0 to |ids|
      invariant |value| == k
      invariant forall i :: 0 <= i < k ==>
                  value[i] == if ids[i] in items then Some(Hit(ids[i], items[ids[i]])) else None
    {
      value := value + [if ids[k] in items then Some(Hit(ids[k], items[ids[k]])) else None];
    }
    forall id | id in ids && id in items
      ensures exists i :: 0 <= i < |value| && value[i].Some? && value[i].value.id == id
    {
      var i :| 0 <= i < |ids| && ids[i] == id;
      assert value[i].value.id == id;
    }
  }

  /** byID holds exactly the readable items among ids. */
  ghost predicate Indexes<T>(byID: map<nat, T>, ids: seq<nat>, items: map<nat, T>) {
    && (forall id :: id in byID <==> id in ids && id in items)
    && (forall id :: id in byID ==> byID[id] == items[id])
  }

  /** getWorkItemsBatch: at most 200 ids a call, results in the order of ids. */
  method GetWorkItemsBatch<T>(items: map<nat, T>, ids: seq<nat>) returns (ordered: seq<Hit<T>>)
    ensures ordered == Hydrated(ids, items)
  {
    var byID: map<nat, T> := map[];
    var start := 0;
    while start < |ids|
      invariant 0 <= start <= |ids|
      invariant Indexes(byID, ids[..start], items)
    {
      var end := Min(start + BATCH_SIZE, |ids|);
      var value := BatchResponse(items, ids[start..end]);
      ghost var before := byID;
      for i := 0 to |value|
        invariant forall id :: id in byID <==>
                    id in before || exists k :: 0 <= k < i && value[k].Some? && value[k].value.id == id
        invariant forall id :: id in byID ==> id in items && byID[id] == items[id]
      {
        if value[i].Some? {
          byID := byID[value[i].value.id := value[i].value.item];
        }
      }
      assert ids[..end] == ids[..start] + ids[start..end];
      start := end;
    }
    assert ids[..|ids|] == ids;
    ordered := [];
    for i := 0 to |ids|
      invariant ordered == Hydrated(ids[..i], items)
    {
      assert ids[..i + 1][..i] == ids[..i];
      if ids[i] in byID {
        ordered := ordered + [Hit(ids[i], byID[ids[i]])];
      }
    }
  }

  /** getWorkItemRefsBatch. */
  method GetWorkItemRefsBatch<T>(items: map<nat, T>, refs: seq<nat>) returns (byID: map<nat, T>)
    ensures Indexes(byID, refs, items)
  {
    var ordered := GetWorkItemsBatch(items, refs);
    HydratedHits(refs, items);
    byID := map[];
    for i := 0 to |ordered|
      invariant forall id :: id in byID <==> exists k :: 0 <= k < i && ordered[k].id == id
      invariant forall id :: id in byID ==> id in items && byID[id] == items[id]
    {
      byID := byID[ordered[i].id := ordered[i].item];
    }
  }

  // ---------------------------------------------------------------- one call

  predicate NoneBreaks<T>(ids: seq<nat>, items: map<nat, T>, judge: T -> Verdict) {
    forall i :: 0 <= i < |ids| ==> !Breaks(ids[i], items, judge)
  }

  lemma ChosenNext<T>(ids: seq<nat>, k: nat, items: map<nat, T>, judge: T -> Verdict)
    requires k < |ids|
    ensures Chosen(ids[..k + 1], items, judge) == Chosen(ids[..k], items, judge) +
            (if Matches(ids[k], items, judge) then [Hit(ids[k], items[ids[k]])] else [])
    ensures NoneBreaks(ids[..k + 1], items, judge)
            <==> NoneBreaks(ids[..k], items, judge) && !Breaks(ids[k], items, judge)
  {
    assert ids[..k + 1][..k] == ids[..k];
  }

  /** scanWorkItemCandidates: hydrates and filters a chunk at a time, and stops once limit
      matches are in hand. */
  method ScanWorkItemCandidates<T>(refs: seq<nat>, items: map<nat, T>, judge: T -> Verdict, limit: int)
    returns (hits: seq<Hit<T>>, lastScanned: int, broken: bool)
    ensures -1 <= lastScanned < |refs|
    ensures refs != [] ==> lastScanned >= 0
    ensures broken ==> lastScanned >= 0 && Breaks(refs[lastScanned], items, judge)
    ensures !broken ==> hits == Chosen(refs[..lastScanned + 1], items, judge)
    ensures !broken ==> NoneBreaks(refs[..lastScanned + 1], items, judge)
    ensures !broken && limit > 0 ==> |hits| <= limit
    ensures !broken && lastScanned < |refs| - 1 ==> limit > 0 && |hits| == limit
  {
    hits, lastScanned, broken := [], -1, false;
    var start := 0;
    while start < |refs|
      invariant 0 <= start <= |refs| && lastScanned == start - 1 && !broken
      invariant hits == Chosen(refs[..start], items, judge) && NoneBreaks(refs[..start], items, judge)
      invariant limit > 0 ==> |hits| < limit
    {
      var chunk := refs[start..Min(start + BATCH_SIZE, |refs|)];
      var hydrated := GetWorkItemRefsBatch(items, chunk);
      var stop;
      hits, lastScanned, broken, stop := ScanChunk(refs, start, chunk, hydrated, items, judge, limit, hits);
      if stop {
        return;
      }
      start := start + |chunk|;
    }
  }

  /** The inner loop, over one hydrated chunk. */
  method ScanChunk<T>(ghost refs: seq<nat>, start: nat, chunk: seq<nat>, hydrated: map<nat, T>,
                      ghost items: map<nat, T>, judge: T -> Verdict, limit: int, found: seq<Hit<T>>)
    returns (hits: seq<Hit<T>>, lastScanned: int, broken: bool, stop: bool)
    requires start + |chunk| <= |refs| && chunk == refs[start..start + |chunk|] && Indexes(hydrated, chunk, items)
    requires found == Chosen(refs[..start], items, judge) && NoneBreaks(refs[..start], items, judge)
    requires limit > 0 ==> |found| < limit
    ensures start - 1 <= lastScanned < start + |chunk|
    ensures broken ==> stop && lastScanned >= start && Breaks(refs[lastScanned], items, judge)
    ensures !broken ==> hits == Chosen(refs[..lastScanned + 1], items, judge)
    ensures !broken ==> NoneBreaks(refs[..lastScanned + 1], items, judge)
    ensures stop && !broken ==> limit > 0 && |hits| == limit
    ensures !stop ==> lastScanned == start + |chunk| - 1 && (limit > 0 ==> |hits| < limit)
  {
    hits, lastScanned, broken, stop := found, start - 1, false, false;
    for i := 0 to |chunk|
      invariant lastScanned == start + i - 1
      invariant hits == Chosen(refs[..start + i], items, judge) && NoneBreaks(refs[..start + i], items, judge)
      invariant limit > 0 ==> |hits| < limit
    {
      lastScanned := lastScanned + 1;
      var id := chunk[i];
      assert id == refs[start + i];
      assert id in hydrated <==> id in items;
      ChosenNext(refs, start + i, items, judge);
      if id in hydrated {
        match judge(hydrated[id])
        case Broken => return hits, lastScanned, true, true;
        case Rejected =>
        case Matched =>
          hits := hits + [Hit(id, hydrated[id])];
          if limit > 0 && |hits| >= limit {
            return hits, lastScanned, false, true;
          }
      }
    }
  }

  /** What one call above a cursor promises its caller: it inspected the candidates above
      it up to some point and returned exactly the matching ones among them; its cursor
      is the last one it inspected, and it stops only after the last of all. */
  ghost predicate Serves<T>(store: Store<T>, judge: T -> Verdict, after: Option<nat>, page: Page<T>) {
    var refs, k := Above(store.ids, after), page.candidates;
    && k <= |refs|
    && page.hits == Chosen(refs[..k], store.items, judge)
    && NoneBreaks(refs[..k], store.items, judge)
    && (page.hasNext ==> k >= 1 && page.nextCursor == Itoa(refs[k - 1]))
    && (!page.hasNext ==> k == |refs| && page.nextCursor == "")
  }

  /** The cursor a request carries; none when it is the first. */
  function After(cursor: string): Option<nat> {
    if cursor != "" && Atoi(cursor).Some? && Atoi(cursor).value >= 0 then Some(Atoi(cursor).value) else None
  }

  method ListWorkItems<T>(store: Store<T>, judge: T -> Verdict, req: Request, cursor: string)
    returns (r: Result<Page<T>>)
    ensures r.BadCursor? <==> cursor != "" && After(cursor).None?
    ensures r.BadRecord? ==> !NoneBreaks(Above(store.ids, After(cursor)), store.items, judge)
    ensures r.Ok? ==> Serves(store, judge, After(cursor), r.value)
    ensures r.Ok? && req.limit > 0 ==> |r.value.hits| <= req.limit
    ensures r.Ok? && req.maxCandidates > 0 ==> r.value.candidates <= req.maxCandidates
    ensures r.Ok? && r.value.hasNext ==> |r.value.hits| == req.limit || r.value.candidates == CandidateLimit(req)
  {
    if cursor != "" && (Atoi(cursor).None? || Atoi(cursor).value < 0) {
      return BadCursor;
    }
    var above := Above(store.ids, After(cursor));
    var limit := CandidateLimit(req);
    var refs := if limit > 0 then above[..Min(limit, |above|)] else above;
    var hits, lastScanned, broken := ScanWorkItemCandidates(refs, store.items, judge, req.limit);
    if broken {
      assert above[lastScanned] == refs[lastScanned];
      return BadRecord;
    }
    assert above[..lastScanned + 1] == refs[..lastScanned + 1];
    var scannedEverything := lastScanned == |refs| - 1;
    var fetchWasCapped := limit > 0 && |refs| == limit;
    var hasNext := limit > 0 && (!scannedEverything || fetchWasCapped);
    r := Ok(Page(hits, lastScanned + 1, hasNext, if hasNext && lastScanned >= 0 then Itoa(refs[lastScanned]) else ""));
  }

  // ---------------------------------------------------------------- whole walks

  /** Calls made one after the other, each above the last one's cursor, against whatever
      the store holds at each; the last one reports no next page. */
  ghost predicate Walk<T>(stores: seq<Store<T>>, judge: T -> Verdict, after: Option<nat>, pages: seq<Page<T>>)
    decreases |pages|
  {
    && |stores| == |pages| > 0
    && Ascending(stores[0].ids)
    && Serves(stores[0], judge, after, pages[0])
    && (if |pages| == 1 then !pages[0].hasNext
        else pages[0].hasNext && Walk(stores[1..], judge, After(pages[0].nextCursor), pages[1..]))
  }

  function Hits<T>(pages: seq<Page<T>>): seq<Hit<T>> {
    if pages == [] then [] else pages[0].hits + Hits(pages[1..])
  }

  predicate AscendingHits<T>(hits: seq<Hit<T>>) {
    forall i, j :: 0 <= i < j < |hits| ==> hits[i].id < hits[j].id
  }

  predicate Exceeds(id: nat, after: Option<nat>) {
    after.Some? ==> id > after.value
  }

  lemma {:induction false} AboveMembers(ids: seq<nat>, after: Option<nat>)
    ensures forall id :: id in Above(ids, after) <==> id in ids && Exceeds(id, after)
    ensures Ascending(ids) ==> Ascending(Above(ids, after))
  {
    if ids != [] {
      var front, last := ids[..|ids| - 1], ids[|ids| - 1];
      AboveMembers(front, after);
      assert ids == front + [last];
      if Ascending(ids) {
        var earlier := Above(front, after);
        assert forall i :: 0 <= i < |earlier| ==> earlier[i] in earlier;
        assert forall id :: id in front ==> id < last;
      }
    }
  }

  lemma {:induction false} ChosenMembers<T>(ids: seq<nat>, items: map<nat, T>, judge: T -> Verdict)
    ensures forall h :: h in Chosen(ids, items, judge) <==>
              h.id in ids && Matches(h.id, items, judge) && h.item == items[h.id]
  {
    if ids != [] {
      ChosenMembers(ids[..|ids| - 1], items, judge);
      assert ids == ids[..|ids| - 1] + [ids[|ids| - 1]];
    }
  }

  lemma {:induction false} ChosenAscends<T>(ids: seq<nat>, items: map<nat, T>, judge: T -> Verdict)
    requires Ascending(ids)
    ensures AscendingHits(Chosen(ids, items, judge))
  {
    if ids != [] {
      var front, last := ids[..|ids| - 1], ids[|ids| - 1];
      ChosenAscends(front, items, judge);
      var earlier := Chosen(front, items, judge);
      forall i | 0 <= i < |earlier| ensures earlier[i].id < last {
        ChosenMember(front, items, judge, i);
      }
    }
  }

  lemma {:induction false} ChosenMember<T>(ids: seq<nat>, items: map<nat, T>, judge: T -> Verdict, i: nat)
    requires i < |Chosen(ids, items, judge)|
    ensures Chosen(ids, items, judge)[i].id in ids
  {
    var front := ids[..|ids| - 1];
    if i < |Chosen(front, items, judge)| {
      ChosenMember(front, items, judge, i);
    }
  }

  /** The cursor a page hands out stands at its last candidate. */
  lemma CursorAfterPage<T>(store: Store<T>, judge: T -> Verdict, after: Option<nat>, page: Page<T>)
    requires Serves(store, judge, after, page) && page.hasNext
    ensures After(page.nextCursor) == Some(Above(store.ids, after)[page.candidates - 1])
    ensures Exceeds(After(page.nextCursor).value, after)
  {
    AtoiOfItoa(Above(store.ids, after)[page.candidates - 1]);
    AboveMembers(store.ids, after);
  }

  /** Every hit of a page lies above the cursor it was asked from and at or below the
      cursor it hands out. */
  lemma PageBounds<T>(store: Store<T>, judge: T -> Verdict, after: Option<nat>, page: Page<T>)
    requires Serves(store, judge, after, page) && Ascending(store.ids)
    ensures AscendingHits(page.hits)
    ensures forall h :: h in page.hits ==>
              && Exceeds(h.id, after) && h.id in store.ids
              && Matches(h.id, store.items, judge) && h.item == store.items[h.id]
    ensures page.hasNext ==> forall h :: h in page.hits ==> h.id <= After(page.nextCursor).value
  {
    var refs := Above(store.ids, after);
    AboveMembers(store.ids, after);
    ChosenMembers(refs[..page.candidates], store.items, judge);
    ChosenAscends(refs[..page.candidates], store.items, judge);
    assert forall id :: id in refs[..page.candidates] ==> id in refs;
    if page.hasNext {
      CursorAfterPage(store, judge, after, page);
    }
  }

  /** However the store changes between calls, the hits of a walk ascend strictly: no item
      is returned twice. */
  lemma {:induction false} WalkAscends<T>(
    stores: seq<Store<T>>, judge: T -> Verdict, after: Option<nat>, pages: seq<Page<T>>)
    requires Walk(stores, judge, after, pages)
    ensures AscendingHits(Hits(pages))
    ensures forall h :: h in Hits(pages) ==> Exceeds(h.id, after)
    decreases |pages|
  {
    PageBounds(stores[0], judge, after, pages[0]);
    if |pages| > 1 {
      var next := After(pages[0].nextCursor);
      CursorAfterPage(stores[0], judge, after, pages[0]);
      WalkAscends(stores[1..], judge, next, pages[1..]);
      forall i, j | 0 <= i < j < |Hits(pages)| ensures Hits(pages)[i].id < Hits(pages)[j].id {
        var first, rest := pages[0].hits, Hits(pages[1..]);
        if i < |first| <= j {
          assert first[i] in first && rest[j - |first|] in rest;
        }
      }
    } else {
      assert pages[1..] == [];
    }
  }

  /** Every hit of a walk matched in the store of the call that returned it. */
  lemma {:induction false} WalkIsSound<T>(
    stores: seq<Store<T>>, judge: T -> Verdict, after: Option<nat>, pages: seq<Page<T>>, h: Hit<T>)
    requires Walk(stores, judge, after, pages) && h in Hits(pages)
    ensures exists i :: 0 <= i < |stores| && h.id in stores[i].ids
              && Matches(h.id, stores[i].items, judge) && h.item == stores[i].items[h.id]
    decreases |pages|
  {
    if h in pages[0].hits {
      PageBounds(stores[0], judge, after, pages[0]);
    } else if |pages| > 1 {
      WalkIsSound(stores[1..], judge, After(pages[0].nextCursor), pages[1..], h);
      var i :| 0 <= i < |stores[1..]| && h.id in stores[1..][i].ids
        && Matches(h.id, stores[1..][i].items, judge) && h.item == stores[1..][i].items[h.id];
      assert stores[i + 1] == stores[1..][i];
    }
  }

  /** However the store changes between calls, an item above the cursor that is listed and
      matches throughout the walk is returned. */
  lemma {:induction false} WalkIsComplete<T>(
    stores: seq<Store<T>>, judge: T -> Verdict, after: Option<nat>, pages: seq<Page<T>>, id: nat)
    requires Walk(stores, judge, after, pages) && Exceeds(id, after)
    requires forall i :: 0 <= i < |stores| ==> id in stores[i].ids && Matches(id, stores[i].items, judge)
    ensures exists h :: h in Hits(pages) && h.id == id
    decreases |pages|
  {
    var store, page := stores[0], pages[0];
    var refs := Above(store.ids, after);
    AboveMembers(store.ids, after);
    ChosenMembers(refs[..page.candidates], store.items, judge);
    if id in refs[..page.candidates] {
      assert Hit(id, store.items[id]) in page.hits;
      assert Hit(id, store.items[id]) in Hits(pages);
    } else {
      assert refs == refs[..page.candidates] + refs[page.candidates..];
      assert id in refs[page.candidates..];
      CursorAfterPage(store, judge, after, page);
      WalkIsComplete(stores[1..], judge, After(page.nextCursor), pages[1..], id);
      var h :| h in Hits(pages[1..]) && h.id == id;
      assert h in Hits(pages);
    }
  }

  lemma HasMember<T>(s: seq<T>)
    requires s != []
    ensures exists x :: x in s
  {
    assert s[0] in s;
  }

  lemma {:induction false} SameHits<T>(a: seq<Hit<T>>, b: seq<Hit<T>>)
    requires AscendingHits(a) && AscendingHits(b)
    requires forall h :: h in a <==> h in b
    ensures a == b
  {
    if a == [] {
      if b != [] {
        HasMember(b);
        assert false;
      }
    } else {
      assert a[|a| - 1] in a;
      var x, y := a[|a| - 1], b[|b| - 1];
      assert x in b && y in a;
      var front, back := a[..|a| - 1], b[..|b| - 1];
      assert a == front + [x] && b == back + [y];
      assert x == y;
      forall h ensures h in front <==> h in back {
        if h in front { assert h in a && h.id < x.id; }
        if h in back { assert h in b && h.id < y.id; }
      }
      SameHits(front, back);
    }
  }

  /** Each call's query may select more or fewer candidates, as long as none that matches
      is lost. */
  ghost predicate KeepsMatches<T>(stores: seq<Store<T>>, full: Store<T>, judge: T -> Verdict) {
    forall i :: 0 <= i < |stores| ==>
      && stores[i].items == full.items
      && (forall id :: id in stores[i].ids ==> id in full.ids)
      && (forall id :: id in full.ids && Matches(id, full.items, judge) ==> id in stores[i].ids)
  }

  /** Over a fixed store a walk returns precisely the matching items above its cursor, in
      ascending id order, each once, whatever the limits, budgets, chunks and omitted
      items, and whichever matching-preserving query served each call. */
  lemma WalkIsExact<T>(
    stores: seq<Store<T>>, full: Store<T>, judge: T -> Verdict, after: Option<nat>, pages: seq<Page<T>>)
    requires Walk(stores, judge, after, pages) && Ascending(full.ids)
    requires KeepsMatches(stores, full, judge)
    ensures Hits(pages) == Chosen(Above(full.ids, after), full.items, judge)
  {
    var expected := Chosen(Above(full.ids, after), full.items, judge);
    WalkAscends(stores, judge, after, pages);
    AboveMembers(full.ids, after);
    ChosenMembers(Above(full.ids, after), full.items, judge);
    ChosenAscends(Above(full.ids, after), full.items, judge);
    forall h ensures h in Hits(pages) <==> h in expected {
      if h in Hits(pages) {
        WalkIsSound(stores, judge, after, pages, h);
      }
      if h in expected {
        WalkIsComplete(stores, judge, after, pages, h.id);
        var g :| g in Hits(pages) && g.id == h.id;
        WalkIsSound(stores, judge, after, pages, g);
      }
    }
    SameHits(Hits(pages), expected);
  }

  /** A finished walk over a fixed store has evaluated every candidate. */
  lemma {:induction false} WalkInspectsAll<T>(
    store: Store<T>, stores: seq<Store<T>>, judge: T -> Verdict, after: Option<nat>, pages: seq<Page<T>>)
    requires Walk(stores, judge, after, pages)
    requires forall i :: 0 <= i < |stores| ==> stores[i] == store
    ensures forall id :: id in store.ids && Exceeds(id, after) ==> !Breaks(id, store.items, judge)
    decreases |pages|
  {
    var refs, page := Above(store.ids, after), pages[0];
    AboveMembers(store.ids, after);
    if |pages| > 1 {
      CursorAfterPage(store, judge, after, page);
      WalkInspectsAll(store, stores[1..], judge, After(page.nextCursor), pages[1..]);
    }
    forall id | id in store.ids && Exceeds(id, after) ensures !Breaks(id, store.items, judge) {
      var i :| 0 <= i < |refs| && refs[i] == id;
      if i < page.candidates {
        assert refs[..page.candidates][i] == id;
      } else {
        assert refs[page.candidates - 1] < refs[i];
      }
    }
  }

  /** Every continuing call moves the cursor past a listed item, so over a fixed store no
      walk is longer than the listing. */
  lemma {:induction false} WalkTerminates<T>(
    store: Store<T>, stores: seq<Store<T>>, judge: T -> Verdict, after: Option<nat>, pages: seq<Page<T>>)
    requires Walk(stores, judge, after, pages)
    requires forall i :: 0 <= i < |stores| ==> stores[i] == store
    ensures |pages| <= |Above(store.ids, after)| + 1
    decreases |pages|
  {
    if |pages| > 1 {
      var refs, k, next := Above(store.ids, after), pages[0].candidates, After(pages[0].nextCursor);
      CursorAfterPage(store, judge, after, pages[0]);
      AboveShrinks(store.ids, after, next.value);
      WalkTerminates(store, stores[1..], judge, next, pages[1..]);
    }
  }

  lemma {:induction false} AboveShrinks(ids: seq<nat>, after: Option<nat>, id: nat)
    requires id in Above(ids, after) && Exceeds(id, after)
    ensures |Above(ids, Some(id))| < |Above(ids, after)|
  {
    if ids != [] {
      var front := ids[..|ids| - 1];
      AboveNotLonger(front, after, id);
      if id in Above(front, after) {
        AboveShrinks(front, after, id);
      }
    }
  }

  lemma {:induction false} AboveNotLonger(ids: seq<nat>, after: Option<nat>, id: nat)
    requires Exceeds(id, after)
    ensures |Above(ids, Some(id))| <= |Above(ids, after)|
  {
    if ids != [] {
      AboveNotLonger(ids[..|ids| - 1], after, id);
    }
  }

  // ---------------------------------------------------------------- query narrowing

  datatype Equality = Equality(field: string, value: string)

  type Fields = map<string, string>

  const NARROWED_FIELDS := {"System.AreaPath", "System.WorkItemType"}

  /** ADOQueryFieldEqualities: the required equalities that are pushed into the query. */
  function Pushed(required: seq<Equality>): seq<Equality> {
    if required == [] then []
    else (if required[0].field in NARROWED_FIELDS then [required[0]] else []) + Pushed(required[1..])
  }

  /** WIQL string equality ignores case. */
  predicate Passes(fields: Fields, pushed: seq<Equality>) {
    forall e :: e in pushed ==> e.field in fields && SameFold(fields[e.field], e.value)
  }

  /** The candidates a query with the pushed equalities selects. */
  function NarrowedIds(ids: seq<nat>, index: map<nat, Fields>, pushed: seq<Equality>): seq<nat> {
    if ids == [] then []
    else
      var last := ids[|ids| - 1];
      NarrowedIds(ids[..|ids| - 1], index, pushed) +
      (if last in index && Passes(index[last], pushed) then [last] else [])
  }

  lemma {:induction false} NarrowedMembers(ids: seq<nat>, index: map<nat, Fields>, pushed: seq<Equality>)
    ensures forall id :: id in NarrowedIds(ids, index, pushed) <==>
              id in ids && id in index && Passes(index[id], pushed)
    ensures Ascending(ids) ==> Ascending(NarrowedIds(ids, index, pushed))
  {
    if ids != [] {
      var front, last := ids[..|ids| - 1], ids[|ids| - 1];
      NarrowedMembers(front, index, pushed);
      assert ids == front + [last];
      if Ascending(ids) {
        var earlier := NarrowedIds(front, index, pushed);
        assert forall i :: 0 <= i < |earlier| ==> earlier[i] in earlier;
        assert forall id :: id in front ==> id < last;
      }
    }
  }

  lemma {:induction false} PushedMeans(required: seq<Equality>, e: Equality)
    ensures e in Pushed(required) <==>
            e in required && (e.field == "System.AreaPath" || e.field == "System.WorkItemType")
  {
    if required != [] {
      PushedMeans(required[1..], e);
    }
  }

  /** A narrowed query selects exactly the candidates whose area path and type, where the
      predicate requires one, are the required one ignoring case. */
  lemma NarrowedMeans(ids: seq<nat>, index: map<nat, Fields>, required: seq<Equality>, id: nat)
    ensures id in NarrowedIds(ids, index, Pushed(required)) <==>
            && id in ids && id in index
            && (forall e :: e in required && (e.field == "System.AreaPath" || e.field == "System.WorkItemType") ==>
                  e.field in index[id] && SameFold(index[id][e.field], e.value))
  {
    NarrowedMembers(ids, index, Pushed(required));
    forall e ensures e in Pushed(required) <==>
              e in required && (e.field == "System.AreaPath" || e.field == "System.WorkItemType")
    {
      PushedMeans(required, e);
    }
  }

  /** The field predicate's required equalities hold of every item it accepts, and the
      query's field index agrees with the items a batch read returns. */
  ghost predicate RequiredByJudge<T>(
    full: Store<T>, judge: T -> Verdict, index: map<nat, Fields>, required: seq<Equality>)
  {
    forall id :: id in full.ids && Matches(id, full.items, judge) ==>
      && id in index
      && (forall e :: e in required ==> e.field in index[id] && index[id][e.field] == e.value)
  }

  /** Each call's query was narrowed, or was not, or fell back after HTTP 400. */
  ghost predicate NarrowedOrNot<T>(
    stores: seq<Store<T>>, full: Store<T>, index: map<nat, Fields>, required: seq<Equality>)
  {
    forall i :: 0 <= i < |stores| ==>
      && stores[i].items == full.items
      && (stores[i].ids == full.ids || stores[i].ids == NarrowedIds(full.ids, index, Pushed(required)))
  }

  /** Narrowing preserves the listing: whichever of a walk's calls ran narrowed and
      whichever fell back, it returns the un-narrowed listing's matching items. */
  lemma NarrowingPreservesListing<T>(stores: seq<Store<T>>, full: Store<T>, judge: T -> Verdict,
                                     index: map<nat, Fields>, required: seq<Equality>,
                                     after: Option<nat>, pages: seq<Page<T>>)
    requires Ascending(full.ids) && RequiredByJudge(full, judge, index, required)
    requires NarrowedOrNot(stores, full, index, required)
    requires Walk(stores, judge, after, pages)
    ensures Hits(pages) == Chosen(Above(full.ids, after), full.items, judge)
  {
    NarrowedMembers(full.ids, index, Pushed(required));
    forall id | id in full.ids && Matches(id, full.items, judge)
      ensures id in NarrowedIds(full.ids, index, Pushed(required))
    {
      forall e | e in Pushed(required) ensures e.field in index[id] && SameFold(index[id][e.field], e.value) {
        PushedMeans(required, e);
      }
    }
    WalkIsExact(stores, full, judge, after, pages);
  }

  /** Narrowing never fails a listing that completes without it: no candidate a narrowed
      query selects breaks the predicate unless an un-narrowed walk would have failed. */
  lemma NarrowingNeverBreaks<T>(full: Store<T>, stores: seq<Store<T>>, judge: T -> Verdict, index: map<nat, Fields>,
                                required: seq<Equality>, after: Option<nat>, pages: seq<Page<T>>)
    requires Walk(stores, judge, after, pages)
    requires forall i :: 0 <= i < |stores| ==> stores[i] == full
    ensures NoneBreaks(Above(NarrowedIds(full.ids, index, Pushed(required)), after), full.items, judge)
  {
    var ids := NarrowedIds(full.ids, index, Pushed(required));
    NarrowedMembers(full.ids, index, Pushed(required));
    AboveMembers(ids, after);
    WalkInspectsAll(full, stores, judge, after, pages);
    forall i | 0 <= i < |Above(ids, after)| ensures !Breaks(Above(ids, after)[i], full.items, judge) {
      assert Above(ids, after)[i] in Above(ids, after);
    }
  }
}
