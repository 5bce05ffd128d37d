/** Azure DevOps' label history of one work item: the walk over its updates, anchored to
    the revision read first, and what replaying the transitions it returns gives. */
module LabelWalk {
  import opened Text
  import opened Tags

  const MAX_REVISIONS: nat := 10000

  datatype TagChange = TagChange(before: seq<string>, after: seq<string>)

  /** One revision's changes: of the tags, if any, and its change date, if readable. */
  datatype Update = Update(id: nat, rev: nat, tags: Option<TagChange>, changed: Option<int>)

  datatype Transition = Transition(event: nat, added: bool, at: int)

  datatype Effect = NoEffect | Effect(transition: Transition) | Undated

  datatype Outcome =
    | Complete(transitions: seq<Transition>)
    | CapReached
    | EndsEarly(lastRev: nat)
    | UndatedChange
    | RequestFailed

  /** adoLabelTransition. */
  function EffectOf(u: Update, name: string): Effect {
    if u.tags.None? then NoEffect
    else
      var had, has := Has(u.tags.value.before, name), Has(u.tags.value.after, name);
      if had == has then NoEffect
      else if u.changed.None? then Undated
      else Effect(Transition(u.id, has, u.changed.value))
  }

  function Transitions(updates: seq<Update>, name: string): seq<Transition> {
    if updates == [] then []
    else
      var effect := EffectOf(updates[|updates| - 1], name);
      Transitions(updates[..|updates| - 1], name) + (if effect.Effect? then [effect.transition] else [])
  }

  predicate Dated(updates: seq<Update>, name: string) {
    forall i :: 0 <= i < |updates| ==> !EffectOf(updates[i], name).Undated?
  }

  function LastRev(updates: seq<Update>): nat {
    if updates == [] then 0
    else
      var front, last := LastRev(updates[..|updates| - 1]), updates[|updates| - 1].rev;
      if last > front then last else front
  }

  lemma Grows(updates: seq<Update>, u: Update, name: string)
    ensures Transitions(updates + [u], name) ==
            Transitions(updates, name) + (if EffectOf(u, name).Effect? then [EffectOf(u, name).transition] else [])
    ensures LastRev(updates + [u]) == if u.rev > LastRev(updates) then u.rev else LastRev(updates)
    ensures Dated(updates + [u], name) <==> Dated(updates, name) && !EffectOf(u, name).Undated?
  {
  }

  /** One page of the update history from skip on: any contiguous run, of any length. A
      server that stalls may answer an empty page short of the end. */
  method GetUpdatesPage(history: seq<Update>, skip: nat, stalls: bool) returns (page: seq<Update>, ok: bool)
    requires skip <= |history|
    ensures ok ==> page <= history[skip..]
    ensures ok && !stalls && skip < |history| ==> page != []
    ensures !stalls ==> ok
  {
    var n: nat :| skip + n <= |history| && (!stalls && skip < |history| ==> n > 0);
    page, ok := history[skip..skip + n], true;
    if stalls {
      ok := *;
    }
  }

  /** Adds one page's transitions and highest revision to those of the updates before it. */
  method ReadPage(ghost before: seq<Update>, page: seq<Update>, name: string, known: seq<Transition>, high: nat)
    returns (transitions: seq<Transition>, lastRev: nat, undated: bool)
    requires known == Transitions(before, name) && high == LastRev(before) && Dated(before, name)
    ensures undated <==> !Dated(before + page, name)
    ensures !undated ==> transitions == Transitions(before + page, name) && lastRev == LastRev(before + page)
  {
    transitions, lastRev, undated := known, high, false;
    assert before + page[..0] == before;
    for i := 0 to |page|
      invariant transitions == Transitions(before + page[..i], name) && lastRev == LastRev(before + page[..i])
      invariant Dated(before + page[..i], name)
    {
      assert before + page[..i + 1] == before + page[..i] + [page[i]];
      Grows(before + page[..i], page[i], name);
      match EffectOf(page[i], name) {
        case Undated =>
          assert (before + page)[|before| + i] == page[i];
          return transitions, lastRev, true;
        case Effect(t) => transitions := transitions + [t];
        case NoEffect =>
      }
      lastRev := if page[i].rev > lastRev then page[i].rev else lastRev;
    }
    assert page[..|page|] == page;
  }

  /** walkWorkItemLabelUpdates. A complete answer has read a prefix of the history that
      reaches the anchored revision, and the walk completes whenever it can: unless the
      server stalls, the cap is reached, a tag change has no date, or the history itself
      ends before the anchor. */
  method WalkWorkItemLabelUpdates(history: seq<Update>, name: string, current: nat, stalls: bool)
    returns (r: Outcome, ghost read: nat)
    ensures read <= |history|
    ensures r.Complete? ==>
              && read < MAX_REVISIONS
              && LastRev(history[..read]) >= current
              && Dated(history[..read], name)
              && r.transitions == Transitions(history[..read], name)
    ensures r.EndsEarly? ==> r.lastRev == LastRev(history[..read]) < current
    ensures r.CapReached? ==> read >= MAX_REVISIONS
    ensures r.UndatedChange? ==> !Dated(history, name)
    ensures !stalls && |history| < MAX_REVISIONS && Dated(history, name) && LastRev(history) >= current ==> r.Complete?
  {
    var transitions: seq<Transition> := [];
    var lastRev, skip := 0, 0;
    while true
      invariant skip <= |history| && skip < MAX_REVISIONS
      invariant transitions == Transitions(history[..skip], name) && lastRev == LastRev(history[..skip])
      invariant Dated(history[..skip], name)
      decreases MAX_REVISIONS - skip
    {
      read := skip;
      var page, ok := GetUpdatesPage(history, skip, stalls);
      if !ok {
        return RequestFailed, read;
      }
      var undated;
      transitions, lastRev, undated := ReadPage(history[..skip], page, name, transitions, lastRev);
      if undated {
        assert history == history[..skip] + page + history[skip + |page|..];
        return UndatedChange, read;
      }
      assert history[..skip + |page|] == history[..skip] + page;
      skip := skip + |page|;
      read := skip;
      if skip >= MAX_REVISIONS {
        return CapReached, read;
      }
      if page == [] || lastRev >= current {
        break;
      }
    }
    assert skip == |history| ==> history[..skip] == history;
    if lastRev < current {
      return EndsEarly(lastRev), read;
    }
    return Complete(transitions), read;
  }

  predicate RevisionsAscend(history: seq<Update>) {
    forall i, j :: 0 <= i < j < |history| ==> history[i].rev < history[j].rev
  }

  lemma {:induction false} LastRevIsMember(updates: seq<Update>)
    requires LastRev(updates) > 0
    ensures exists i :: 0 <= i < |updates| && updates[i].rev == LastRev(updates)
  {
    var front := updates[..|updates| - 1];
    if LastRev(front) == LastRev(updates) {
      LastRevIsMember(front);
      var i :| 0 <= i < |front| && front[i].rev == LastRev(front);
      assert updates[i] == front[i];
    }
  }

  /** A complete walk has missed no update up to the anchored revision, however the server
      split its pages and whatever was appended during the walk. */
  lemma CompleteReadsEveryRevision(history: seq<Update>, read: nat, current: nat, i: nat)
    requires RevisionsAscend(history) && read <= |history| && current > 0
    requires LastRev(history[..read]) >= current
    requires i < |history| && history[i].rev <= current
    ensures i < read
  {
    LastRevIsMember(history[..read]);
    var k :| 0 <= k < read && history[..read][k].rev == LastRev(history[..read]);
    assert history[k].rev >= current;
  }

  // ---------------------------------------------------------------- replay

  /** Whether the item carries the label after the updates: what the last tag change left. */
  function Carries(updates: seq<Update>, name: string): bool {
    if updates == [] then false
    else
      var last := updates[|updates| - 1];
      if last.tags.Some? then Has(last.tags.value.after, name) else Carries(updates[..|updates| - 1], name)
  }

  /** Each tag change starts from what the one before left, and the first from no label. */
  predicate Chains(updates: seq<Update>, name: string) {
    updates == [] ||
    (var front, last := updates[..|updates| - 1], updates[|updates| - 1];
     && Chains(front, name)
     && (last.tags.Some? ==> Has(last.tags.value.before, name) == Carries(front, name)))
  }

  function Replay(transitions: seq<Transition>): bool {
    transitions != [] && transitions[|transitions| - 1].added
  }

  predicate Alternates(transitions: seq<Transition>) {
    forall i :: 0 <= i < |transitions| ==> transitions[i].added == (i % 2 == 0)
  }

  /** Replaying the transitions of a chained, dated history gives the label's membership
      after it; they alternate, an addition first. */
  lemma {:induction false} ReplayIsMembership(updates: seq<Update>, name: string)
    requires Chains(updates, name) && Dated(updates, name)
    ensures Replay(Transitions(updates, name)) == Carries(updates, name)
    ensures Alternates(Transitions(updates, name))
    ensures Carries(updates, name) == (|Transitions(updates, name)| % 2 == 1)
  {
    if updates != [] {
      var front, last := updates[..|updates| - 1], updates[|updates| - 1];
      assert updates == front + [last];
      Grows(front, last, name);
      ReplayIsMembership(front, name);
    }
  }

  lemma {:induction false} ChainsPrefix(updates: seq<Update>, name: string, n: nat)
    requires Chains(updates, name) && n <= |updates|
    ensures Chains(updates[..n], name)
  {
    if n < |updates| {
      var front := updates[..|updates| - 1];
      ChainsPrefix(front, name, n);
      assert front[..n] == updates[..n];
    } else {
      assert updates[..n] == updates;
    }
  }

  /** So the transitions of a complete walk replay to whether the item carried the label
      at the last update read. */
  lemma CompleteWalkReplays(history: seq<Update>, name: string, read: nat, transitions: seq<Transition>)
    requires Chains(history, name) && read <= |history|
    requires Dated(history[..read], name) && transitions == Transitions(history[..read], name)
    ensures Replay(transitions) == Carries(history[..read], name) && Alternates(transitions)
  {
    ChainsPrefix(history, name, read);
    ReplayIsMembership(history[..read], name);
  }

  // ---------------------------------------------------------------- the order returned

  /** a goes after b in the order the transitions are returned in. */
  predicate Later(a: Transition, b: Transition) {
    a.at > b.at || (a.at == b.at && a.event > b.event)
  }

  predicate InOrder(ts: seq<Transition>) {
    forall i, j :: 0 <= i < j < |ts| ==> !Later(ts[i], ts[j])
  }

  function Inserted(ts: seq<Transition>, t: Transition): seq<Transition> {
    if ts != [] && Later(ts[|ts| - 1], t) then Inserted(ts[..|ts| - 1], t) + [ts[|ts| - 1]] else ts + [t]
  }

  /** The stable sort by date and then event. */
  function Sorted(ts: seq<Transition>): seq<Transition> {
    if ts == [] then [] else Inserted(Sorted(ts[..|ts| - 1]), ts[|ts| - 1])
  }

  lemma {:induction false} InsertedInOrder(ts: seq<Transition>, t: Transition)
    requires InOrder(ts)
    ensures InOrder(Inserted(ts, t))
    ensures forall u :: u in Inserted(ts, t) <==> u in ts || u == t
  {
    if ts != [] && Later(ts[|ts| - 1], t) {
      var front, last := ts[..|ts| - 1], ts[|ts| - 1];
      InsertedInOrder(front, t);
      assert ts == front + [last];
      forall i | 0 <= i < |Inserted(front, t)| ensures !Later(Inserted(front, t)[i], last) {
        assert Inserted(front, t)[i] in Inserted(front, t);
      }
    }
  }

  lemma {:induction false} InsertedKeepsAll(ts: seq<Transition>, t: Transition)
    ensures multiset(Inserted(ts, t)) == multiset(ts) + multiset{t}
  {
    if ts != [] && Later(ts[|ts| - 1], t) {
      InsertedKeepsAll(ts[..|ts| - 1], t);
      assert ts == ts[..|ts| - 1] + [ts[|ts| - 1]];
    }
  }

  lemma {:induction false} SortedKeepsAll(ts: seq<Transition>)
    ensures multiset(Sorted(ts)) == multiset(ts)
  {
    if ts != [] {
      SortedKeepsAll(ts[..|ts| - 1]);
      InsertedKeepsAll(Sorted(ts[..|ts| - 1]), ts[|ts| - 1]);
      assert ts == ts[..|ts| - 1] + [ts[|ts| - 1]];
    }
  }

  lemma {:induction false} SortedInOrder(ts: seq<Transition>)
    ensures InOrder(Sorted(ts))
    ensures forall u :: u in Sorted(ts) <==> u in ts
  {
    if ts != [] {
      var front, last := ts[..|ts| - 1], ts[|ts| - 1];
      SortedInOrder(front);
      InsertedInOrder(Sorted(front), last);
      assert ts == front + [last];
    }
  }

  /** The sort orders the transitions, and loses and repeats none. */
  lemma SortedSorts(ts: seq<Transition>)
    ensures InOrder(Sorted(ts)) && multiset(Sorted(ts)) == multiset(ts)
  {
    SortedInOrder(ts);
    SortedKeepsAll(ts);
  }

  /** A history whose change dates do not go back is returned as it was read. */
  lemma {:induction false} SortedKeeps(ts: seq<Transition>)
    requires InOrder(ts)
    ensures Sorted(ts) == ts
  {
    if ts != [] {
      SortedKeeps(ts[..|ts| - 1]);
      if |ts| > 1 {
        assert !Later(ts[|ts| - 2], ts[|ts| - 1]);
      }
      assert ts == ts[..|ts| - 1] + [ts[|ts| - 1]];
    }
  }

  predicate DistinctEvents(ts: seq<Transition>) {
    forall i, j :: 0 <= i < j < |ts| ==> ts[i].event != ts[j].event
  }

  /** No transition is dated later than t. */
  predicate Latest(ts: seq<Transition>, t: Transition) {
    t in ts && forall u :: u in ts ==> !Later(u, t)
  }

  lemma LastIsLatest(ts: seq<Transition>, t: Transition)
    requires ts != [] && DistinctEvents(ts) && Latest(ts, t)
    ensures Sorted(ts) != [] && Sorted(ts)[|Sorted(ts)| - 1] == t
  {
    SortedInOrder(ts);
    assert t in Sorted(ts);
    var last := Sorted(ts)[|Sorted(ts)| - 1];
    assert last in Sorted(ts) && last in ts;
    var i :| 0 <= i < |Sorted(ts)| && Sorted(ts)[i] == t;
    var j :| 0 <= j < |ts| && ts[j] == t;
    var k :| 0 <= k < |ts| && ts[k] == last;
  }

  /** Replaying the sorted transitions of a chained, dated history gives the label's
      membership exactly when the latest-dated one goes the same way as the last one read;
      in particular when the change dates do not go back. */
  lemma SortedReplayIff(updates: seq<Update>, name: string, t: Transition)
    requires Chains(updates, name) && Dated(updates, name) && DistinctEvents(Transitions(updates, name))
    requires Latest(Transitions(updates, name), t)
    ensures var ts := Transitions(updates, name);
            && (Replay(Sorted(ts)) == Carries(updates, name) <==> t.added == ts[|ts| - 1].added)
            && (InOrder(ts) ==> Replay(Sorted(ts)) == Carries(updates, name) && Alternates(Sorted(ts)))
  {
    var ts := Transitions(updates, name);
    ReplayIsMembership(updates, name);
    LastIsLatest(ts, t);
    if InOrder(ts) {
      SortedKeeps(ts);
    }
  }

  /** A removal dated before the addition it undoes: the item does not carry the label, and
      the sorted transitions replay to its having it. */
  lemma BackdatedReplay(name: string) returns (updates: seq<Update>)
    ensures Chains(updates, name) && Dated(updates, name) && !Carries(updates, name)
    ensures Replay(Sorted(Transitions(updates, name)))
  {
    var added := Update(1, 1, Some(TagChange([], [name])), Some(5));
    var removed := Update(2, 2, Some(TagChange([name], [])), Some(3));
    updates := [added] + [removed];
    TwoUpdates(added, removed, name);
    var ts := [Transition(1, true, 5), Transition(2, false, 3)];
    assert Latest(ts, ts[0]);
    SortedReplayIff(updates, name, ts[0]);
  }

  lemma TwoUpdates(added: Update, removed: Update, name: string)
    requires added == Update(1, 1, Some(TagChange([], [name])), Some(5))
    requires removed == Update(2, 2, Some(TagChange([name], [])), Some(3))
    ensures var updates := [added] + [removed];
            && Chains(updates, name) && Dated(updates, name) && !Carries(updates, name)
            && Transitions(updates, name) == [Transition(1, true, 5), Transition(2, false, 3)]
  {
    assert SameFold([name][0], name);
    assert [] + [added] == [added] && [added][..0] == [];
    Grows([], added, name);
    Grows([added], removed, name);
    assert Chains([], name) && Chains([added], name) && Carries([added], name);
    assert ([added] + [removed])[..1] == [added];
  }
}
