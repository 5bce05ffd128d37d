/** GitHub's label-history scan: it walks the repository's issue events page by page under
    a resume cursor and a page or quota budget, and detects the served order instead of
    assuming it. A periodic caller keeps what every scan returned and moves its cursor
    only after a scan that was not truncated. */
module LabelScan {
  import opened Text

  datatype Kind = Labeled | Unlabeled | Other

  datatype Event = Event(id: nat, kind: Kind, labelName: Option<string>, issue: nat, onPullRequest: bool, at: int)

  datatype Transition = Transition(event: nat, item: string, added: bool, at: int)

  /** The label scanned for, on one item or, with none, on every issue. */
  datatype Query = Query(labelName: string, item: Option<string>)

  datatype Quota = Quota(total: nat, remaining: nat)

  datatype Scan = Scan(after: nat, maxPages: nat, minQuota: real)

  datatype Batch = Batch(events: seq<Event>, quota: Option<Quota>)

  /** The transition an event makes, cursor aside. */
  function TransitionOf(q: Query, e: Event): Option<Transition> {
    if e.labelName != Some(q.labelName) || (q.item.None? && e.onPullRequest) || e.kind.Other? then None
    else Some(Transition(e.id, if q.item.Some? then q.item.value else Itoa(e.issue), e.kind.Labeled?, e.at))
  }

  /** The event is newer than the cursor; a zero cursor asks for everything. */
  predicate Fresh(id: nat, after: nat) {
    after == 0 || id > after
  }

  /** The transitions of the events newer than the cursor, in the order served. */
  function Collected(q: Query, after: nat, events: seq<Event>): seq<Transition> {
    if events == [] then []
    else
      var e := events[|events| - 1];
      var front := Collected(q, after, events[..|events| - 1]);
      if Fresh(e.id, after) && TransitionOf(q, e).Some? then front + [TransitionOf(q, e).value] else front
  }

  function HighId(events: seq<Event>): nat {
    if events == [] then 0
    else
      var front, last := HighId(events[..|events| - 1]), events[|events| - 1].id;
      if last > front then last else front
  }

  function Flatten(pages: seq<Batch>): seq<Event> {
    if pages == [] then [] else Flatten(pages[..|pages| - 1]) + pages[|pages| - 1].events
  }

  predicate Ascending(events: seq<Event>) {
    forall i, j :: 0 <= i < j < |events| ==> events[i].id < events[j].id
  }

  predicate Descending(events: seq<Event>) {
    forall i, j :: 0 <= i < j < |events| ==> events[i].id > events[j].id
  }

  /** Some event comes after one with a lower id. */
  predicate Descends(events: seq<Event>) {
    exists i, j :: 0 <= i < j < |events| && events[i].id > events[j].id
  }

  /** Some event is at or below the cursor. */
  predicate HitsCursor(events: seq<Event>, after: nat) {
    exists i :: 0 <= i < |events| && 0 < after && events[i].id <= after
  }

  lemma DescendsGrows(events: seq<Event>, more: seq<Event>)
    ensures Descends(events) || Descends(more) ==> Descends(events + more)
  {
    var all := events + more;
    if Descends(events) {
      var i, j :| 0 <= i < j < |events| && events[i].id > events[j].id;
      assert all[i].id > all[j].id;
    } else if Descends(more) {
      var i, j :| 0 <= i < j < |more| && more[i].id > more[j].id;
      assert all[|events| + i].id > all[|events| + j].id;
    }
  }

  lemma HitsCursorGrows(events: seq<Event>, more: seq<Event>, after: nat)
    requires HitsCursor(more, after)
    ensures HitsCursor(events + more, after)
  {
    var i :| 0 <= i < |more| && 0 < after && more[i].id <= after;
    assert (events + more)[|events| + i] == more[i];
  }

  lemma CollectedNext(q: Query, after: nat, events: seq<Event>, e: Event)
    ensures Collected(q, after, events + [e]) ==
            Collected(q, after, events) +
            (if Fresh(e.id, after) && TransitionOf(q, e).Some? then [TransitionOf(q, e).value] else [])
    ensures HighId(events + [e]) == if e.id > HighId(events) then e.id else HighId(events)
  {
  }

  /** Events at or below the cursor contribute nothing. */
  lemma {:induction false} CollectedOld(q: Query, after: nat, events: seq<Event>, stale: seq<Event>)
    requires forall i :: 0 <= i < |stale| ==> !Fresh(stale[i].id, after)
    ensures Collected(q, after, events + stale) == Collected(q, after, events)
  {
    if stale == [] {
      assert events + stale == events;
    } else {
      var front, e := stale[..|stale| - 1], stale[|stale| - 1];
      CollectedOld(q, after, events, front);
      CollectedNext(q, after, events + front, e);
      assert events + stale == events + front + [e];
    }
  }

  lemma {:induction false} HighIdBounds(events: seq<Event>, i: nat)
    requires i < |events|
    ensures events[i].id <= HighId(events)
  {
    if i < |events| - 1 {
      HighIdBounds(events[..|events| - 1], i);
    }
  }

  // ---------------------------------------------------------------- one scan

  /** The page budget is spent, or the last known quota is below its floor. */
  predicate OverBudget(scan: Scan, pages: nat, quota: Option<Quota>) {
    || (scan.maxPages > 0 && pages >= scan.maxPages)
    || (scan.minQuota > 0.0 && quota.Some? &&
        quota.value.remaining as real < scan.minQuota * quota.value.total as real)
  }

  /** githubLabelTransitionScanState. */
  class ScanState {
    const query: Query
    const scan: Scan
    var transitions: seq<Transition>
    var pages: nat
    var highEventId: nat
    var reachedCursor: bool
    var truncated: bool
    var quota: Option<Quota>
    var descending: bool
    var orderKnown: bool
    ghost var seen: seq<Event>

    /** The result so far is that of the events seen; descending has been observed. */
    ghost predicate Valid()
      reads this
    {
      && transitions == Collected(query, scan.after, seen)
      && highEventId == HighId(seen)
      && (descending ==> Descends(seen))
    }

    constructor (query: Query, scan: Scan)
      ensures Valid() && this.query == query && this.scan == scan
      ensures seen == [] && pages == 0 && !truncated && !reachedCursor
    {
      this.query, this.scan := query, scan;
      transitions, pages, highEventId := [], 0, 0;
      reachedCursor, truncated, quota := false, false, None;
      descending, orderKnown, seen := false, false, [];
    }

    method ConsumeEvent(e: Event) returns (reached: bool)
      requires Valid()
      modifies this`transitions, this`highEventId, this`seen
      ensures Valid() && seen == old(seen) + [e]
      ensures reached <==> 0 < scan.after && e.id <= scan.after
    {
      CollectedNext(query, scan.after, seen, e);
      DescendsGrows(seen, [e]);
      seen := seen + [e];
      if e.id > highEventId {
        highEventId := e.id;
      }
      if scan.after > 0 && e.id <= scan.after {
        return true;
      }
      var transition := TransitionOf(query, e);
      if transition.Some? {
        transitions := transitions + [transition.value];
      }
      return false;
    }

    method ConsumeEvents(events: seq<Event>) returns (reached: bool)
      requires Valid()
      modifies this`transitions, this`highEventId, this`seen
      ensures Valid() && seen == old(seen) + events
      ensures reached <==> HitsCursor(events, scan.after)
    {
      reached := false;
      for i := 0 to |events|
        invariant Valid() && seen == old(seen) + events[..i]
        invariant reached <==> exists k :: 0 <= k < i && 0 < scan.after && events[k].id <= scan.after
      {
        var hit := ConsumeEvent(events[i]);
        reached := hit || reached;
        assert events[..i + 1] == events[..i] + [events[i]];
      }
      assert events[..|events|] == events;
    }

    /** Reads one page; stop asks for no further page. A stop that is not a truncation
        happens only on reaching the cursor while reading newest first. */
    method ConsumePage(page: Batch, hasNext: bool) returns (stop: bool)
      requires Valid() && !truncated
      modifies this
      ensures Valid() && seen == old(seen) + page.events
      ensures pages == old(pages) + 1 && quota == (if page.quota.Some? then page.quota else old(quota))
      ensures reachedCursor == (old(reachedCursor) || HitsCursor(page.events, scan.after))
      ensures stop <==> truncated || (descending && HitsCursor(page.events, scan.after))
      ensures truncated <==>
                hasNext && OverBudget(scan, pages, quota) && !(descending && HitsCursor(page.events, scan.after))
      ensures !stop && hasNext && scan.maxPages > 0 ==> pages < scan.maxPages
    {
      pages := pages + 1;
      if page.quota.Some? {
        quota := page.quota;
      }
      var reached := ConsumeEvents(page.events);
      DetectOrder(page.events);
      if reached {
        reachedCursor := true;
        if descending {
          return true;
        }
      }
      stop := PageStop(hasNext);
    }

    /** Fixes the order on the first page long enough to show it. */
    method DetectOrder(events: seq<Event>)
      requires Valid() && |events| <= |seen| && seen[|seen| - |events|..] == events
      modifies this`descending, this`orderKnown
      ensures Valid()
      ensures if !old(orderKnown) && |events| > 1
              then orderKnown && descending == (events[0].id > events[|events| - 1].id)
              else orderKnown == old(orderKnown) && descending == old(descending)
    {
      if !orderKnown && |events| > 1 {
        descending, orderKnown := events[0].id > events[|events| - 1].id, true;
        if descending {
          assert Descends(events);
          DescendsGrows(seen[..|seen| - |events|], events);
          assert seen == seen[..|seen| - |events|] + events;
        }
      }
    }

    method PageStop(hasNext: bool) returns (stop: bool)
      requires Valid() && !truncated
      modifies this`truncated
      ensures Valid() && stop == truncated
      ensures truncated <==> hasNext && OverBudget(scan, pages, quota)
    {
      if !hasNext {
        return false;
      }
      if scan.maxPages > 0 && pages >= scan.maxPages {
        truncated := true;
        return true;
      }
      if scan.minQuota > 0.0 && quota.Some? &&
         quota.value.remaining as real < scan.minQuota * quota.value.total as real {
        truncated := true;
        return true;
      }
      return false;
    }
  }

  lemma {:induction false} FlattenPrefix(pages: seq<Batch>, k: nat)
    requires k <= |pages|
    ensures |Flatten(pages[..k])| <= |Flatten(pages)|
    ensures Flatten(pages) == Flatten(pages[..k]) + Flatten(pages)[|Flatten(pages[..k])|..]
  {
    if k == |pages| {
      assert pages[..k] == pages;
    } else {
      var front := pages[..|pages| - 1];
      FlattenPrefix(front, k);
      assert front[..k] == pages[..k];
    }
  }

  /** One whole scan over a history served strictly newest first or strictly oldest first,
      in any page split: when not truncated it returns exactly the transitions of the
      events newer than its cursor and the highest event id there is; when truncated, a
      part of them. */
  method ScanWorkItemLabelTransitions(query: Query, scan: Scan, pages: seq<Batch>)
    returns (transitions: seq<Transition>, highEventId: nat, truncated: bool)
    requires Ascending(Flatten(pages)) || Descending(Flatten(pages))
    ensures !truncated ==> transitions == Collected(query, scan.after, Flatten(pages))
    ensures !truncated ==> highEventId == HighId(Flatten(pages))
    ensures truncated ==> scan.maxPages > 0 || scan.minQuota > 0.0
    ensures truncated ==>
              exists k :: 0 <= k <= |pages| && transitions == Collected(query, scan.after, Flatten(pages[..k]))
  {
    var state := new ScanState(query, scan);
    var i, stop := 0, false;
    while i < |pages| && !stop
      invariant 0 <= i <= |pages| && state.Valid() && state.query == query && state.scan == scan
      invariant state.seen == Flatten(pages[..i])
      invariant !stop ==> !state.truncated
      invariant state.truncated ==> scan.maxPages > 0 || scan.minQuota > 0.0
      invariant stop && !state.truncated ==> state.descending && HitsCursor(state.seen, scan.after)
      decreases |pages| - i
    {
      ghost var before := state.seen;
      stop := state.ConsumePage(pages[i], i + 1 < |pages|);
      assert pages[..i + 1][..i] == pages[..i];
      if stop && !state.truncated {
        HitsCursorGrows(before, pages[i].events, scan.after);
      }
      i := i + 1;
    }
    transitions, highEventId, truncated := state.transitions, state.highEventId, state.truncated;
    assert pages[..|pages|] == pages;
    if stop && !truncated {
      StoppedIsComplete(query, scan, pages, i, state.seen);
    }
  }

  /** Having reached the cursor newest first, nothing newer remains unread. */
  lemma StoppedIsComplete(query: Query, scan: Scan, pages: seq<Batch>, i: nat, seen: seq<Event>)
    requires Ascending(Flatten(pages)) || Descending(Flatten(pages))
    requires i <= |pages| && seen == Flatten(pages[..i])
    requires Descends(seen) && HitsCursor(seen, scan.after)
    ensures Collected(query, scan.after, Flatten(pages)) == Collected(query, scan.after, seen)
    ensures HighId(Flatten(pages)) == HighId(seen)
  {
    FlattenPrefix(pages, i);
    var rest := Flatten(pages)[|seen|..];
    DescendsGrows(seen, rest);
    RestIsOld(seen, rest, scan.after);
    CollectedOld(query, scan.after, seen, rest);
    HighIdFirst(seen + rest);
    HighIdFirst(seen);
  }

  lemma RestIsOld(seen: seq<Event>, rest: seq<Event>, after: nat)
    requires Ascending(seen + rest) || Descending(seen + rest)
    requires Descends(seen + rest) && HitsCursor(seen, after)
    ensures Descending(seen + rest) && Descending(seen) && seen != []
    ensures forall j :: 0 <= j < |rest| ==> !Fresh(rest[j].id, after)
  {
    var all := seen + rest;
    var k :| 0 <= k < |seen| && 0 < after && seen[k].id <= after;
    forall j | 0 <= j < |rest| ensures !Fresh(rest[j].id, after) {
      assert rest[j] == all[|seen| + j] && all[k] == seen[k];
    }
    forall i, j | 0 <= i < j < |seen| ensures seen[i].id > seen[j].id {
      assert all[i] == seen[i] && all[j] == seen[j];
    }
  }

  lemma {:induction false} HighIdFirst(events: seq<Event>)
    requires events != [] && Descending(events)
    ensures HighId(events) == events[0].id
  {
    if |events| > 1 {
      HighIdFirst(events[..|events| - 1]);
    }
  }

  // ---------------------------------------------------------------- any number of cycles

  function Wanted(q: Query, after: nat, history: seq<Event>): set<Transition> {
    set e | e in history && Fresh(e.id, after) && TransitionOf(q, e).Some? :: TransitionOf(q, e).value
  }

  function Elements(transitions: seq<Transition>): set<Transition> {
    set t | t in transitions
  }

  lemma {:induction false} CollectedIsWanted(q: Query, after: nat, events: seq<Event>)
    ensures Elements(Collected(q, after, events)) == Wanted(q, after, events)
  {
    if events != [] {
      var front, e := events[..|events| - 1], events[|events| - 1];
      CollectedIsWanted(q, after, front);
      assert events == front + [e];
      assert forall d :: d in events <==> d in front || d == e;
      var tail: set<Transition> :=
        if Fresh(e.id, after) && TransitionOf(q, e).Some? then {TransitionOf(q, e).value} else {};
      assert Wanted(q, after, events) == Wanted(q, after, front) + tail;
    }
  }

  /** What is wanted up to an event id. */
  function WantedUpTo(q: Query, after: nat, high: nat, history: seq<Event>): set<Transition> {
    set t | t in Wanted(q, after, history) && t.event <= high
  }

  /** One periodic scan: the append-only history, in event order, as its first and its last
      page found it, and what it reported. */
  datatype Cycle = Cycle(start: seq<Event>, history: seq<Event>, found: set<Transition>, high: nat, truncated: bool)

  /** What a scan promises about one cycle, whatever order and pages the history was served
      in and however it grew meanwhile: unless truncated, nothing at or below the highest
      event id reported was missed, and that id is at least what the scan started from. */
  predicate Reports(q: Query, after: nat, c: Cycle) {
    && Ascending(c.history) && c.start <= c.history
    && c.found <= Wanted(q, after, c.history)
    && (!c.truncated ==>
          && c.found == WantedUpTo(q, after, c.high, c.history)
          && HighId(c.start) <= c.high <= HighId(c.history))
  }

  predicate SameEvents(a: seq<Event>, b: seq<Event>) {
    forall e :: e in a + b ==> e in a && e in b
  }

  lemma {:induction false} HighIdIsMember(events: seq<Event>)
    requires events != []
    ensures exists i :: 0 <= i < |events| && events[i].id == HighId(events)
  {
    var front := events[..|events| - 1];
    if front != [] {
      HighIdIsMember(front);
      var i :| 0 <= i < |front| && front[i].id == HighId(front);
      assert events[i] == front[i];
    }
    assert HighId(events) == HighId(front) || HighId(events) == events[|events| - 1].id;
    assert front == [] ==> HighId(front) == 0;
  }

  lemma HighIdMonotone(a: seq<Event>, b: seq<Event>)
    requires forall e :: e in a ==> e in b
    ensures HighId(a) <= HighId(b)
  {
    if a != [] {
      HighIdIsMember(a);
      var i :| 0 <= i < |a| && a[i].id == HighId(a);
      assert a[i] in b;
      var j :| 0 <= j < |b| && b[j] == a[i];
      HighIdBounds(b, j);
    }
  }

  /** Serving the same events in either strict order, in any pages, makes no difference to
      what a scan reports. */
  method ScanCycle(query: Query, scan: Scan, history: seq<Event>, pages: seq<Batch>) returns (c: Cycle)
    requires Ascending(history)
    requires Ascending(Flatten(pages)) || Descending(Flatten(pages))
    requires SameEvents(Flatten(pages), history)
    ensures c.history == history && Reports(query, scan.after, c)
  {
    var transitions, high, truncated := ScanWorkItemLabelTransitions(query, scan, pages);
    c := Cycle(history, history, Elements(transitions), high, truncated);
    var all := Flatten(pages);
    forall e ensures e in all <==> e in history {
      if e in all || e in history { assert e in all + history; }
    }
    HighIdMonotone(all, history);
    HighIdMonotone(history, all);
    if truncated {
      var k :| 0 <= k <= |pages| && transitions == Collected(query, scan.after, Flatten(pages[..k]));
      CollectedIsWanted(query, scan.after, Flatten(pages[..k]));
      FlattenPrefix(pages, k);
      forall e | e in Flatten(pages[..k]) ensures e in history { assert e in all; }
    } else {
      CollectedIsWanted(query, scan.after, all);
      AllUpToHigh(query, scan.after, history);
    }
  }

  lemma AllUpToHigh(q: Query, after: nat, history: seq<Event>)
    ensures WantedUpTo(q, after, HighId(history), history) == Wanted(q, after, history)
  {
    forall t | t in Wanted(q, after, history) ensures t.event <= HighId(history) {
      WantedBounded(q, after, history, t);
    }
  }

  lemma WantedBounded(q: Query, after: nat, history: seq<Event>, t: Transition)
    requires t in Wanted(q, after, history)
    ensures t.event <= HighId(history)
  {
    var e :| e in history && TransitionOf(q, e) == Some(t);
    var i :| 0 <= i < |history| && history[i] == e;
    HighIdBounds(history, i);
  }

  /** The cursor a caller persists: moved to HighEventID, but never by a truncated scan. */
  function Cursor(cycles: seq<Cycle>): nat {
    if cycles == [] then 0
    else
      var last := cycles[|cycles| - 1];
      if last.truncated then Cursor(cycles[..|cycles| - 1]) else last.high
  }

  /** Everything the scans so far have returned. */
  function Accumulated(cycles: seq<Cycle>): set<Transition> {
    if cycles == [] then {} else Accumulated(cycles[..|cycles| - 1]) + cycles[|cycles| - 1].found
  }

  /** Periodic scans of one append-only history, each from the persisted cursor. */
  predicate Periodic(q: Query, cycles: seq<Cycle>) {
    cycles == [] ||
    (var front, last := cycles[..|cycles| - 1], cycles[|cycles| - 1];
     && Periodic(q, front)
     && Reports(q, Cursor(front), last)
     && (front != [] ==> front[|front| - 1].history <= last.start))
  }

  /** An append-only history gains no event at or below what it already held. */
  lemma OldEventsStay(before: seq<Event>, history: seq<Event>, e: Event)
    requires before <= history && Ascending(history)
    requires e in history && e.id <= HighId(before) && HighId(before) > 0
    ensures e in before
  {
  }

  /** A scan from a cursor wants the newer part of what a full scan wants. */
  lemma WantedFromStart(q: Query, after: nat, history: seq<Event>)
    ensures forall t :: t in Wanted(q, after, history) <==> t in Wanted(q, 0, history) && Fresh(t.event, after)
  {
  }

  lemma HistoryGrows(q: Query, before: seq<Event>, history: seq<Event>)
    requires before <= history
    ensures Wanted(q, 0, before) <= Wanted(q, 0, history)
    ensures HighId(before) <= HighId(history)
  {
  }

  /** What the scans have accumulated is always part of the full history's transitions and
      holds every one the cursor has passed. */
  lemma {:induction false} CursorCovers(q: Query, cycles: seq<Cycle>)
    requires cycles != [] && Periodic(q, cycles)
    ensures var history := cycles[|cycles| - 1].history;
            && Accumulated(cycles) <= Wanted(q, 0, history)
            && Cursor(cycles) <= HighId(history)
            && (forall t :: t in Wanted(q, 0, history) && !Fresh(t.event, Cursor(cycles)) ==> t in Accumulated(cycles))
    decreases |cycles|, 0
  {
    var front, last := cycles[..|cycles| - 1], cycles[|cycles| - 1];
    var history := last.history;
    WantedFromStart(q, Cursor(front), history);
    if front != [] {
      CursorCovers(q, front);
      HistoryGrows(q, front[|front| - 1].history, history);
    }
    forall t | t in Wanted(q, 0, history) && !Fresh(t.event, Cursor(cycles)) ensures t in Accumulated(cycles) {
      if !Fresh(t.event, Cursor(front)) {
        PassedIsKept(q, front, history, t);
      }
    }
  }

  /** A transition the cursor has passed stays accumulated as the history grows. */
  lemma PassedIsKept(q: Query, cycles: seq<Cycle>, history: seq<Event>, t: Transition)
    requires cycles != [] && Periodic(q, cycles)
    requires cycles[|cycles| - 1].history <= history && Ascending(history)
    requires t in Wanted(q, 0, history) && !Fresh(t.event, Cursor(cycles))
    ensures t in Accumulated(cycles)
    decreases |cycles|, 1
  {
    CursorCovers(q, cycles);
    var before := cycles[|cycles| - 1].history;
    var e :| e in history && TransitionOf(q, e) == Some(t);
    OldEventsStay(before, history, e);
    assert t in Wanted(q, 0, before);
  }

  /** Nothing accumulated is newer than what the last scan started from. */
  lemma AccumulatedBounded(q: Query, cycles: seq<Cycle>, start: seq<Event>, t: Transition)
    requires cycles != [] && Periodic(q, cycles) && cycles[|cycles| - 1].history <= start
    requires t in Accumulated(cycles)
    ensures t.event <= HighId(start)
  {
    CursorCovers(q, cycles);
    var history := cycles[|cycles| - 1].history;
    WantedBounded(q, 0, history, t);
    HistoryGrows(q, history, start);
  }

  /** Incremental equals full: after any number of periodic scans of an append-only history,
      truncated or not, served in whatever order and pages and growing all the while, a scan
      that is not truncated leaves the caller with exactly the transitions one unbounded scan
      returns up to the event id it moved the cursor to, so with everything there was when it
      started; and with everything, if the history did not grow during it. */
  lemma IncrementalEqualsFull(q: Query, cycles: seq<Cycle>)
    requires cycles != [] && Periodic(q, cycles)
    requires !cycles[|cycles| - 1].truncated
    ensures var last := cycles[|cycles| - 1];
            && Accumulated(cycles) == WantedUpTo(q, 0, last.high, last.history)
            && Wanted(q, 0, last.start) <= Accumulated(cycles)
            && (last.start == last.history ==> Accumulated(cycles) == Wanted(q, 0, last.history))
  {
    var front, last := cycles[..|cycles| - 1], cycles[|cycles| - 1];
    CursorCovers(q, cycles);
    WantedFromStart(q, Cursor(front), last.history);
    forall t | t in WantedUpTo(q, 0, last.high, last.history) ensures t in Accumulated(cycles) {
      if !Fresh(t.event, Cursor(front)) {
        PassedIsKept(q, front, last.history, t);
      }
    }
    forall t | t in Accumulated(cycles) ensures t.event <= last.high {
      if t in Accumulated(front) {
        AccumulatedBounded(q, front, last.start, t);
      }
    }
    HistoryGrows(q, last.start, last.history);
    AllUpToHigh(q, 0, last.start);
    AllUpToHigh(q, 0, last.history);
  }
}
