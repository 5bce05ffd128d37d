/** The label-history scan while events keep arriving. Every page is a numbered page of the
    history as it stands when that page is asked for: oldest first, new events join at the
    far end; newest first, they push older ones back, so pages overlap and the newest are
    not seen at all. Either way nothing at or below the highest event id seen is missed. */
module GrowingScan {
  import opened Text
  import opened LabelScan

  function Reversed(events: seq<Event>): seq<Event> {
    if events == [] then [] else [events[|events| - 1]] + Reversed(events[..|events| - 1])
  }

  lemma {:induction false} ReversedMembers(events: seq<Event>)
    ensures forall e :: e in Reversed(events) <==> e in events
  {
    if events != [] {
      ReversedMembers(events[..|events| - 1]);
      assert events == events[..|events| - 1] + [events[|events| - 1]];
    }
  }

  function Min(a: nat, b: nat): nat {
    if a < b then a else b
  }

  function Below(n: nat, skip: nat): nat {
    if skip <= n then n - skip else 0
  }

  /** The page after the first skip events, in the order served. */
  function Served(history: seq<Event>, skip: nat, width: nat, newestFirst: bool): seq<Event> {
    if newestFirst then Reversed(history[Below(|history|, skip + width)..Below(|history|, skip)])
    else history[Min(skip, |history|)..Min(skip + width, |history|)]
  }

  /** The history each page was served from: append-only, in event order. */
  ghost predicate Grows(histories: seq<seq<Event>>) {
    && (forall i :: 0 <= i < |histories| ==> Ascending(histories[i]))
    && (forall i, j :: 0 <= i < j < |histories| ==> histories[i] <= histories[j])
  }

  // ---------------------------------------------------------------- what has been seen

  /** Newest first: of the events from lo on, all that are not newer than the newest seen. */
  ghost predicate Newest(h: seq<Event>, seen: seq<Event>, lo: nat) {
    && (forall e :: e in seen ==> e in h)
    && (forall j :: lo <= j < |h| && h[j].id <= HighId(seen) ==> h[j] in seen)
  }

  ghost predicate Progress(h: seq<Event>, seen: seq<Event>, skip: nat, newestFirst: bool) {
    if newestFirst then Newest(h, seen, Below(|h|, skip)) else seen == h[..Min(skip, |h|)]
  }

  lemma {:induction false} HighIdOfConcat(a: seq<Event>, b: seq<Event>)
    ensures HighId(a + b) == HighId(a) || HighId(a + b) == HighId(b)
    ensures HighId(a) <= HighId(a + b) && HighId(b) <= HighId(a + b)
  {
    if b == [] {
      assert a + b == a;
    } else {
      assert (a + b)[..|a + b| - 1] == a + b[..|b| - 1];
      HighIdOfConcat(a, b[..|b| - 1]);
    }
  }

  /** An event not newer than one of an earlier history was in that history. */
  lemma NotNewerStays(h: seq<Event>, h': seq<Event>, seen: seq<Event>, j: nat)
    requires h <= h' && Ascending(h') && j < |h'|
    requires seen != [] && (forall e :: e in seen ==> e in h) && h'[j].id <= HighId(seen)
    ensures j < |h| && h[j] == h'[j]
  {
    HighIdIsMember(seen);
    var i :| 0 <= i < |seen| && seen[i].id == HighId(seen);
    assert seen[i] in h;
    var k :| 0 <= k < |h| && h[k] == seen[i];
    assert h'[k] == h[k];
  }

  /** A page that begins at or above where the last one ended leaves no gap. */
  lemma NewestNext(h: seq<Event>, h': seq<Event>, seen: seq<Event>, lo: nat, lo': nat, hi': nat)
    requires h <= h' && Ascending(h') && lo' <= hi' <= |h'| && lo <= hi'
    requires Newest(h, seen, lo) && (seen == [] ==> hi' == |h'|)
    ensures Newest(h', seen + Reversed(h'[lo'..hi']), lo')
  {
    var range := h'[lo'..hi'];
    var page := Reversed(range);
    var all := seen + page;
    ReversedMembers(range);
    HighIdOfConcat(seen, page);
    forall j | lo' <= j < |h'| && h'[j].id <= HighId(all) ensures h'[j] in all {
      if j < hi' {
        assert range[j - lo'] == h'[j];
        assert h'[j] in page;
      } else {
        PageIsOlder(h', lo', hi', j);
        NotNewerStays(h, h', seen, j);
      }
    }
  }

  lemma PageIsOlder(h: seq<Event>, lo: nat, hi: nat, j: nat)
    requires Ascending(h) && lo <= hi <= j < |h|
    ensures lo < hi ==> HighId(Reversed(h[lo..hi])) < h[j].id
    ensures lo == hi ==> HighId(Reversed(h[lo..hi])) == 0
  {
    var page := Reversed(h[lo..hi]);
    ReversedMembers(h[lo..hi]);
    if page != [] {
      HighIdIsMember(page);
      var i :| 0 <= i < |page| && page[i].id == HighId(page);
      assert page[i] in h[lo..hi];
    }
  }

  /** One more page, whatever arrived since the last. */
  lemma ProgressNext(h: seq<Event>, h': seq<Event>, seen: seq<Event>, skip: nat, width: nat, newestFirst: bool)
    requires h <= h' && Ascending(h') && skip <= |h| && width >= 1
    requires Progress(h, seen, skip, newestFirst) && (skip == 0 || seen != [])
    ensures Progress(h', seen + Served(h', skip, width, newestFirst), skip + width, newestFirst)
  {
    if newestFirst {
      NewestNext(h, h', seen, Below(|h|, skip), Below(|h'|, skip + width), Below(|h'|, skip));
    }
  }

  /** Nothing wanted at or below the newest event seen is missing. */
  ghost predicate Complete(h: seq<Event>, seen: seq<Event>, after: nat) {
    && (forall e :: e in seen ==> e in h)
    && (forall e :: e in h && e.id <= HighId(seen) && Fresh(e.id, after) ==> e in seen)
  }

  /** The last page ends it. */
  lemma LastPageCompletes(h: seq<Event>, seen: seq<Event>, skip: nat, newestFirst: bool, after: nat)
    requires Progress(h, seen, skip, newestFirst) && skip >= |h|
    ensures Complete(h, seen, after)
  {
    assert h[..|h|] == h;
  }

  /** So does reaching the cursor newest first. */
  lemma CursorCompletes(h: seq<Event>, seen: seq<Event>, skip: nat, width: nat, after: nat)
    requires Ascending(h) && Progress(h, seen, skip + width, true) && HitsCursor(Served(h, skip, width, true), after)
    ensures Complete(h, seen, after)
  {
    var lo, hi := Below(|h|, skip + width), Below(|h|, skip);
    var page := Served(h, skip, width, true);
    ReversedMembers(h[lo..hi]);
    var i :| 0 <= i < |page| && 0 < after && page[i].id <= after;
    assert page[i] in h[lo..hi];
    var m :| lo <= m < hi && h[m] == page[i];
  }

  /** Served oldest first a history never shows itself descending. */
  lemma OldestNeverDescends(h: seq<Event>, n: nat)
    requires Ascending(h) && n <= |h|
    ensures !Descends(h[..n])
  {
  }

  /** What a complete scan reports. */
  lemma CompleteIsWanted(q: Query, after: nat, h: seq<Event>, seen: seq<Event>)
    requires Complete(h, seen, after)
    ensures Elements(Collected(q, after, seen)) == WantedUpTo(q, after, HighId(seen), h)
  {
    CollectedIsWanted(q, after, seen);
    forall t ensures t in Wanted(q, after, seen) <==> t in WantedUpTo(q, after, HighId(seen), h) {
      if t in Wanted(q, after, seen) {
        WantedBounded(q, after, seen, t);
      }
    }
  }

  lemma PartIsWanted(q: Query, after: nat, h: seq<Event>, seen: seq<Event>)
    requires forall e :: e in seen ==> e in h
    ensures Elements(Collected(q, after, seen)) <= Wanted(q, after, h)
  {
    CollectedIsWanted(q, after, seen);
  }

  /** The first page newest first, and the whole walk oldest first, reach what was there at
      the start. */
  lemma ReachesStart(start: seq<Event>, page: seq<Event>, width: nat)
    requires Ascending(start) && width >= 1 && page == Served(start, 0, width, true)
    ensures HighId(start) <= HighId(page)
  {
    if start != [] {
      var lo := Below(|start|, width);
      ReversedMembers(start[lo..]);
      assert start[lo..|start|] == start[lo..];
      assert start[|start| - 1] in start[lo..];
      assert start[|start| - 1] in page;
      var i :| 0 <= i < |page| && page[i] == start[|start| - 1];
      HighIdBounds(page, i);
      HighIdIsMember(start);
    }
  }

  // ---------------------------------------------------------------- the scan

  /** The events in n full pages. */
  function Pages(n: nat, width: nat): nat {
    if n == 0 then 0 else Pages(n - 1, width) + width
  }

  /** Before page i: what the pages so far, the last of them from h, have seen. */
  ghost predicate Ready(histories: seq<seq<Event>>, i: nat, h: seq<Event>, seen: seq<Event>, skip: nat, width: nat,
                        newestFirst: bool)
    requires i <= |histories|
  {
    && skip == Pages(i, width) <= |h|
    && (i == 0 ==> seen == []) && (i > 0 ==> seen != [] && skip < |histories[i - 1]|)
    && (forall j :: i <= j < |histories| ==> h <= histories[j])
    && Progress(h, seen, skip, newestFirst)
    && (i > 0 && newestFirst ==> HighId(histories[0]) <= HighId(seen))
  }

  lemma ReadyNext(histories: seq<seq<Event>>, i: nat, h: seq<Event>, seen: seq<Event>, skip: nat, width: nat,
                  newestFirst: bool)
    requires Grows(histories) && i < |histories| && width >= 1
    requires Ready(histories, i, h, seen, skip, width, newestFirst)
    ensures var history := histories[i];
            var seen' := seen + Served(history, skip, width, newestFirst);
            && Progress(history, seen', skip + width, newestFirst)
            && (newestFirst ==> HighId(histories[0]) <= HighId(seen'))
            && (skip + width < |history| ==>
                  Ready(histories, i + 1, history, seen', skip + width, width, newestFirst))
  {
    var history := histories[i];
    var page := Served(history, skip, width, newestFirst);
    ProgressNext(h, history, seen, skip, width, newestFirst);
    HighIdOfConcat(seen, page);
    if i == 0 && newestFirst {
      ReachesStart(histories[0], page, width);
    }
    if skip + width < |history| {
      PageNotEmpty(history, skip, width, newestFirst);
    }
  }

  /** One turn of the scan: page i, served from histories[i]. */
  method TakePage(state: ScanState, histories: seq<seq<Event>>, i: nat, ghost h: seq<Event>, skip: nat, width: nat,
                  newestFirst: bool, quota: Option<Quota>)
    returns (done: bool, c: Cycle)
    requires Grows(histories) && i < |histories| && width >= 1 && state.Valid() && !state.truncated
    requires Ready(histories, i, h, state.seen, skip, width, newestFirst)
    modifies state
    ensures state.Valid()
    ensures done ==>
              && c.start == histories[0] && c.history == histories[i]
              && Reports(state.query, state.scan.after, c)
              && (c.truncated ==> state.scan.maxPages > 0 || state.scan.minQuota > 0.0)
    ensures !done ==>
              && !state.truncated
              && Ready(histories, i + 1, histories[i], state.seen, skip + width, width, newestFirst)
  {
    var history := histories[i];
    var page := Served(history, skip, width, newestFirst);
    var more := skip + width < |history|;
    ReadyNext(histories, i, h, state.seen, skip, width, newestFirst);
    var stop := state.ConsumePage(Batch(page, quota), more);
    c := Cycle(histories[0], history, Elements(state.transitions), state.highEventId, state.truncated);
    done := stop || !more;
    if done {
      assert histories[0] <= history;
      EndsWell(state.query, state.scan.after, histories[0], history, state.seen, skip, width, newestFirst, c,
               state.descending);
    }
  }

  /** One scan whose page i is served from histories[i]. It ends at the last page, on reaching
      its cursor, or truncated; ended is false when the histories run out first, each with
      events beyond the pages asked for. */
  method ScanGrowing(query: Query, scan: Scan, histories: seq<seq<Event>>, quotas: nat -> Option<Quota>,
                     width: nat, newestFirst: bool)
    returns (c: Cycle, ended: bool)
    requires Grows(histories) && histories != [] && width >= 1
    ensures ended ==> c.start == histories[0] && c.history in histories && Reports(query, scan.after, c)
    ensures ended && c.truncated ==> scan.maxPages > 0 || scan.minQuota > 0.0
    ensures !ended ==> Pages(|histories|, width) < |histories[|histories| - 1]|
  {
    var state := new ScanState(query, scan);
    ghost var h: seq<Event> := [];
    var i, skip := 0, 0;
    while i < |histories|
      invariant 0 <= i <= |histories| && state.Valid() && !state.truncated
      invariant state.query == query && state.scan == scan
      invariant Ready(histories, i, h, state.seen, skip, width, newestFirst)
      decreases |histories| - i
    {
      var done;
      done, c := TakePage(state, histories, i, h, skip, width, newestFirst, quotas(i));
      if done {
        return c, true;
      }
      h, skip, i := histories[i], skip + width, i + 1;
    }
    c, ended := Cycle([], [], {}, 0, true), false;
  }

  lemma PageNotEmpty(h: seq<Event>, skip: nat, width: nat, newestFirst: bool)
    requires width >= 1 && skip + width < |h|
    ensures Served(h, skip, width, newestFirst) != []
  {
    if newestFirst {
      var lo, hi := Below(|h|, skip + width), Below(|h|, skip);
      ReversedMembers(h[lo..hi]);
      assert h[lo] in h[lo..hi];
    }
  }

  /** Ending at the last page, at the cursor or truncated, the scan reports honestly. */
  lemma EndsWell(q: Query, after: nat, start: seq<Event>, h: seq<Event>, seen: seq<Event>,
                 skip: nat, width: nat, newestFirst: bool, c: Cycle, descending: bool)
    requires Ascending(h) && start <= h && Progress(h, seen, skip + width, newestFirst)
    requires descending ==> Descends(seen)
    requires c == Cycle(start, h, Elements(Collected(q, after, seen)), HighId(seen), c.truncated)
    requires newestFirst ==> HighId(start) <= HighId(seen)
    requires c.truncated || skip + width >= |h|
             || (descending && HitsCursor(Served(h, skip, width, newestFirst), after))
    ensures Reports(q, after, c)
  {
    if !newestFirst {
      OldestNeverDescends(h, Min(skip + width, |h|));
    }
    PartIsWanted(q, after, h, seen);
    if !c.truncated {
      if skip + width >= |h| {
        LastPageCompletes(h, seen, skip + width, newestFirst, after);
        assert h[..|h|] == h;
      } else {
        CursorCompletes(h, seen, skip, width, after);
      }
      CompleteIsWanted(q, after, h, seen);
      HighIdMonotone(seen, h);
      HighIdMonotone(start, h);
    }
  }
}
