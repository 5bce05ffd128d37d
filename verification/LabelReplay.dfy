/** What the accumulated label transitions mean: which event each comes from, and that
    replaying them tells which items carry the label. */
module LabelReplay {
  import opened Text
  import opened LabelScan

  /** A wanted transition and the event it is read off, field by field. */
  predicate ReadOff(q: Query, e: Event, t: Transition) {
    && e.labelName == Some(q.labelName)
    && (e.kind.Labeled? || e.kind.Unlabeled?)
    && (q.item.Some? || !e.onPullRequest)
    && t.event == e.id && t.at == e.at
    && t.item == (if q.item.Some? then q.item.value else Itoa(e.issue))
    && (t.added <==> e.kind.Labeled?)
  }

  /** A transition is wanted exactly when an event newer than the cursor put the label on, or
      took it off, an issue, or the item asked for; and it says which and when. */
  lemma WantedMeans(q: Query, after: nat, history: seq<Event>, t: Transition)
    ensures t in Wanted(q, after, history)
            <==> exists e :: e in history && (after == 0 || e.id > after) && ReadOff(q, e, t)
  {
    if e :| e in history && (after == 0 || e.id > after) && ReadOff(q, e, t) {
      assert TransitionOf(q, e) == Some(t);
    }
    if t in Wanted(q, after, history) {
      var e :| e in history && Fresh(e.id, after) && TransitionOf(q, e) == Some(t);
      assert ReadOff(q, e, t);
    }
  }

  /** The event is about the item the query asks for. */
  predicate About(q: Query, e: Event, item: string) {
    if q.item.Some? then q.item.value == item else !e.onPullRequest && Itoa(e.issue) == item
  }

  /** Whether the item carries the label after the events, folded over their raw kinds. */
  function Carried(q: Query, events: seq<Event>, item: string): bool {
    if events == [] then false
    else
      var front, e := events[..|events| - 1], events[|events| - 1];
      if e.labelName != Some(q.labelName) || !About(q, e, item) then Carried(q, front, item)
      else
        match e.kind
        case Labeled => true
        case Unlabeled => false
        case Other => Carried(q, front, item)
  }

  /** The latest transition of an item, if any, put the label on. */
  ghost predicate Replay(found: set<Transition>, item: string) {
    exists t :: t in found && t.item == item && t.added && NoneLater(found, t)
  }

  ghost predicate NoneLater(found: set<Transition>, t: Transition) {
    forall u :: u in found && u.item == t.item ==> u.event <= t.event
  }

  /** One more event adds its own transition, later than every other. */
  lemma WantedNext(q: Query, front: seq<Event>, e: Event)
    requires Ascending(front + [e])
    ensures var before, after := Wanted(q, 0, front), Wanted(q, 0, front + [e]);
            && (TransitionOf(q, e).None? ==> after == before)
            && (TransitionOf(q, e).Some? ==> after == before + {TransitionOf(q, e).value})
            && (forall u :: u in before ==> u.event < e.id)
  {
    var all := front + [e];
    assert forall d :: d in all <==> d in front || d == e;
    forall u | u in Wanted(q, 0, front) ensures u.event < e.id {
      var d :| d in front && TransitionOf(q, d) == Some(u);
      var i :| 0 <= i < |front| && front[i] == d;
      assert all[i] == d && all[|front|] == e;
    }
  }

  lemma ReplayNext(before: set<Transition>, t: Transition, item: string)
    requires forall u :: u in before ==> u.event < t.event
    ensures Replay(before + {t}, item) <==> (if t.item == item then t.added else Replay(before, item))
  {
    var after := before + {t};
    if t.item == item {
      if t.added {
        assert NoneLater(after, t);
      }
    } else {
      if Replay(before, item) {
        var u :| u in before && u.item == item && u.added && NoneLater(before, u);
        assert NoneLater(after, u);
      }
      if Replay(after, item) {
        var u :| u in after && u.item == item && u.added && NoneLater(after, u);
        assert NoneLater(before, u);
      }
    }
  }

  /** Replaying what a full scan of a history wants gives every item's membership. */
  lemma {:induction false} ReplayIsCarried(q: Query, history: seq<Event>, item: string)
    requires Ascending(history)
    ensures Replay(Wanted(q, 0, history), item) <==> Carried(q, history, item)
  {
    if history != [] {
      var front, e := history[..|history| - 1], history[|history| - 1];
      assert history == front + [e];
      ReplayIsCarried(q, front, item);
      WantedNext(q, front, e);
      if TransitionOf(q, e).Some? {
        ReplayNext(Wanted(q, 0, front), TransitionOf(q, e).value, item);
      }
    }
  }

  /** The events up to an id. */
  function UpTo(history: seq<Event>, high: nat): seq<Event> {
    if history == [] then []
    else
      var e := history[|history| - 1];
      UpTo(history[..|history| - 1], high) + (if e.id <= high then [e] else [])
  }

  lemma {:induction false} UpToMembers(history: seq<Event>, high: nat)
    ensures forall e :: e in UpTo(history, high) <==> e in history && e.id <= high
  {
    if history != [] {
      UpToMembers(history[..|history| - 1], high);
      assert history == history[..|history| - 1] + [history[|history| - 1]];
    }
  }

  lemma {:induction false} UpToAscends(history: seq<Event>, high: nat)
    requires Ascending(history)
    ensures Ascending(UpTo(history, high))
  {
    if history != [] {
      var front, e := history[..|history| - 1], history[|history| - 1];
      UpToAscends(front, high);
      UpToMembers(front, high);
      forall i | 0 <= i < |UpTo(front, high)| ensures UpTo(front, high)[i].id < e.id {
        assert UpTo(front, high)[i] in UpTo(front, high);
      }
    }
  }

  lemma WantedOfPrefix(q: Query, high: nat, history: seq<Event>)
    ensures WantedUpTo(q, 0, high, history) == Wanted(q, 0, UpTo(history, high))
  {
    UpToMembers(history, high);
  }

  /** After any number of cycles, one that was not truncated leaves a caller who replays what
      it has accumulated with exactly the items that carried the label at the event its cursor
      stands at. */
  lemma IncrementalReplays(q: Query, cycles: seq<Cycle>, item: string)
    requires cycles != [] && Periodic(q, cycles) && !cycles[|cycles| - 1].truncated
    ensures var last := cycles[|cycles| - 1];
            Replay(Accumulated(cycles), item) <==> Carried(q, UpTo(last.history, last.high), item)
  {
    var last := cycles[|cycles| - 1];
    IncrementalEqualsFull(q, cycles);
    WantedOfPrefix(q, last.high, last.history);
    UpToAscends(last.history, last.high);
    ReplayIsCarried(q, UpTo(last.history, last.high), item);
  }
}
