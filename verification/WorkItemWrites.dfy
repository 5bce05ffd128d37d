/** The three guarded writers of Azure DevOps work items: the claim label, the pull
    request link and the close. */
module WorkItemWrites {
  import opened Text
  import opened Tags
  import opened Revision

  const RETRIES: nat := 4

  // ---------------------------------------------------------------- the claim label

  datatype LabelResult = Relabelled(item: Item) | LabelExhausted | LabelRejected | LabelUnknown

  function LabelPatch(item: Item, add: seq<string>, remove: seq<string>): Patch {
    Patch(None, [SetTags(TagSet(item.tags, add, remove))])
  }

  /** From version n on exactly version k is ours, the relabelling of the one before it. */
  ghost predicate RelabelledAt(history: seq<Version>, n: nat, k: nat, add: seq<string>, remove: seq<string>) {
    0 < n <= k < |history| && WroteOnce(history, n, k, LabelPatch(history[k - 1].item, add, remove))
  }

  /** setADOClaimLabel: no update is lost. Whatever others write in between, a reported
      change is one version whose tags are the add and remove applied to the version right
      before it and which changes nothing else; a conflict or refusal wrote nothing. */
  method SetClaimLabel(server: Server, add: seq<string>, remove: seq<string>) returns (r: LabelResult)
    requires server.Valid()
    modifies server
    ensures server.Valid() && old(server.history) <= server.history
    ensures r.Relabelled? ==>
              exists k: nat :: RelabelledAt(server.history, |old(server.history)|, k, add, remove)
                && r.item == server.history[k].item
    ensures r.LabelExhausted? || r.LabelRejected? ==> WroteNothing(server.history, |old(server.history)|)
    ensures r.LabelExhausted? <==> server.conflicts == old(server.conflicts) + RETRIES
    ensures r.LabelRejected? <==> server.refusals == old(server.refusals) + 1
    ensures r.LabelUnknown? ==>
              || WroteNothing(server.history, |old(server.history)|)
              || exists k: nat :: RelabelledAt(server.history, |old(server.history)|, k, add, remove)
  {
    for attempt := 0 to RETRIES
      invariant server.Valid() && old(server.history) <= server.history
      invariant WroteNothing(server.history, |old(server.history)|)
      invariant server.conflicts == old(server.conflicts) + attempt && server.refusals == old(server.refusals)
    {
      var current, rev := server.Get();
      var tags := ApplyTagSet(current.tags, add, remove);
      var response := server.Write(rev, Patch(None, [SetTags(tags)]));
      assert !WroteNothing(server.history, |old(server.history)|) ==>
          RelabelledAt(server.history, |old(server.history)|, rev, add, remove);
      match response
      case Landed(item) => return Relabelled(item);
      case Conflict =>
      case Refused => return LabelRejected;
      case Lost => return LabelUnknown;
    }
    return LabelExhausted;
  }

  /** What a label change leaves, on the labels as they were given: every non-blank label of
      add on, every other non-blank name of remove off, and the rest as it was. */
  lemma LabelPatchMeans(item: Item, add: seq<string>, remove: seq<string>, name: string)
    ensures var after := Patched(item, LabelPatch(item, add, remove));
            && after == item.(tags := after.tags)
            && (Has(after.tags, name) <==>
                  Names(add, name) || (Names(item.tags, name) && !Names(remove, name)))
  {
    var patch := LabelPatch(item, add, remove);
    assert patch.edits[..0] == [];
    assert EditedAll(item, patch.edits) == Edited(item, patch.edits[0]);
    TagSetMeans(item.tags, add, remove, name);
  }

  // ---------------------------------------------------------------- the pull request link

  datatype LinkResult = Linked | LinkExhausted | LinkRejected | LinkUnknown

  predicate IsLink(r: Relation, url: string) {
    r.rel == "ArtifactLink" && SameFold(r.url, url)
  }

  /** How many artifact links to the pull request an item carries. */
  function Links(relations: seq<Relation>, url: string): nat {
    if relations == [] then 0
    else Links(relations[..|relations| - 1], url) + (if IsLink(relations[|relations| - 1], url) then 1 else 0)
  }

  lemma {:induction false} NoLinks(relations: seq<Relation>, url: string)
    requires forall i :: 0 <= i < |relations| ==> !IsLink(relations[i], url)
    ensures Links(relations, url) == 0
  {
    if relations != [] {
      NoLinks(relations[..|relations| - 1], url);
    }
  }

  lemma {:induction false} SomeLink(relations: seq<Relation>, url: string, i: nat)
    requires i < |relations| && IsLink(relations[i], url)
    ensures Links(relations, url) >= 1
  {
    if i < |relations| - 1 {
      SomeLink(relations[..|relations| - 1], url, i);
    }
  }

  function LinkPatch(url: string): Patch {
    Patch(None, [AddRelation(Relation("ArtifactLink", url))])
  }

  /** From version n on exactly version k is ours, and it adds the first link to the
      version before it. */
  ghost predicate LinkedAt(history: seq<Version>, n: nat, k: nat, url: string) {
    && WroteOnce(history, n, k, LinkPatch(url))
    && Links(history[k - 1].item.relations, url) == 0
    && Links(history[k].item.relations, url) == 1
  }

  /** At some version since n the item carried a link. */
  ghost predicate WasLinked(history: seq<Version>, n: nat, url: string) {
    exists k: nat :: n <= k + 1 <= |history| && Links(history[k].item.relations, url) >= 1
  }

  lemma FirstLink(item: Item, url: string)
    requires Links(item.relations, url) == 0
    ensures Links(Patched(item, LinkPatch(url)).relations, url) == 1
  {
    var edits := LinkPatch(url).edits;
    assert edits[..0] == [];
    var after := item.relations + [Relation("ArtifactLink", url)];
    assert after[..|item.relations|] == item.relations;
    assert EditedAll(item, edits).relations == after;
  }

  method HasLink(relations: seq<Relation>, url: string) returns (linked: bool)
    ensures linked <==> Links(relations, url) >= 1
    ensures linked <==>
            exists i :: 0 <= i < |relations| && relations[i].rel == "ArtifactLink" && SameFold(relations[i].url, url)
  {
    for i := 0 to |relations|
      invariant forall j :: 0 <= j < i ==> !IsLink(relations[j], url)
    {
      if IsLink(relations[i], url) {
        SomeLink(relations, url, i);
        return true;
      }
    }
    NoLinks(relations, url);
    return false;
  }

  /** LinkPullRequestToWorkItem, once the artifact url is known: it never adds a second
      link, success means the item was linked during the call, and at most one version is
      ours. */
  method LinkPullRequest(server: Server, url: string) returns (r: LinkResult)
    requires server.Valid()
    modifies server
    ensures server.Valid() && old(server.history) <= server.history
    ensures r.Linked? ==> WasLinked(server.history, |old(server.history)|, url)
    ensures r.LinkExhausted? || r.LinkRejected? ==> WroteNothing(server.history, |old(server.history)|)
    ensures r.LinkExhausted? <==> server.conflicts == old(server.conflicts) + RETRIES
    ensures r.LinkRejected? <==> server.refusals == old(server.refusals) + 1
    ensures WroteNothing(server.history, |old(server.history)|)
            || exists k: nat :: LinkedAt(server.history, |old(server.history)|, k, url)
  {
    for attempt := 0 to RETRIES
      invariant server.Valid() && old(server.history) <= server.history
      invariant WroteNothing(server.history, |old(server.history)|)
      invariant server.conflicts == old(server.conflicts) + attempt && server.refusals == old(server.refusals)
    {
      var current, rev := server.Get();
      var linked := HasLink(current.relations, url);
      if linked {
        assert Links(server.history[rev - 1].item.relations, url) >= 1;
        return Linked;
      }
      FirstLink(current, url);
      var response := server.Write(rev, LinkPatch(url));
      assert !WroteNothing(server.history, |old(server.history)|) ==>
          LinkedAt(server.history, |old(server.history)|, rev, url);
      match response
      case Landed(_) => return Linked;
      case Conflict =>
      case Refused => return LinkRejected;
      case Lost => return LinkUnknown;
    }
    return LinkExhausted;
  }

  // ---------------------------------------------------------------- the close

  datatype Category = Proposed | InProgress | Resolved | Completed | Removed | OtherCategory

  datatype StateDef = StateDef(name: string, category: Category)

  datatype Snapshot = Snapshot(item: Item, rev: nat)

  /** extra rebuilds the caller's own edits from each read; pinned is expectedRevision
      being set. */
  datatype CloseRequest = CloseRequest(snapshot: Option<Snapshot>, pinned: bool, extra: Item -> seq<Edit>)

  datatype CloseResult =
    | Closed(item: Item, resolvedOnly: bool, patched: bool)
    | PinConflict
    | CloseExhausted
    | CloseRejected
    | NoTarget
    | CloseUnknown

  /** findADOWorkItemState: the category of a state name, the first that fits. */
  function CategoryOf(table: seq<StateDef>, name: string): Option<Category> {
    if table == [] then None
    else if SameFold(table[0].name, name) then Some(table[0].category)
    else CategoryOf(table[1..], name)
  }

  /** resolveCommonWorkItemState for "closed": the first Completed state. */
  function ClosedState(table: seq<StateDef>): Option<string> {
    if table == [] then None
    else if table[0].category == Completed then Some(table[0].name)
    else ClosedState(table[1..])
  }

  /** No two states of a type share a name in any casing. */
  predicate DistinctNames(table: seq<StateDef>) {
    forall i, j :: 0 <= i < j < |table| ==> !SameFold(table[i].name, table[j].name)
  }

  lemma {:induction false} ClosedStateIsListed(table: seq<StateDef>)
    requires ClosedState(table).Some?
    ensures exists i :: 0 <= i < |table| && table[i].name == ClosedState(table).value
  {
    if table[0].category != Completed {
      ClosedStateIsListed(table[1..]);
      var i :| 0 <= i < |table[1..]| && table[1..][i].name == ClosedState(table[1..]).value;
      assert table[i + 1] == table[1..][i];
    }
  }

  /** The state a close moves to is one the table calls Completed. */
  lemma {:induction false} ClosedStateIsCompleted(table: seq<StateDef>)
    requires DistinctNames(table) && ClosedState(table).Some?
    ensures CategoryOf(table, ClosedState(table).value) == Some(Completed)
  {
    if table[0].category != Completed {
      ClosedStateIsCompleted(table[1..]);
      ClosedStateIsListed(table[1..]);
      var i :| 0 <= i < |table[1..]| && table[1..][i].name == ClosedState(table[1..]).value;
      assert table[i + 1] == table[1..][i];
      assert !SameFold(table[0].name, table[i + 1].name);
    }
  }

  /** A name's category is that of the entry it folds to. */
  lemma {:induction false} CategoryMeans(table: seq<StateDef>, name: string, category: Category)
    requires DistinctNames(table)
    ensures CategoryOf(table, name) == Some(category)
            <==> exists i :: 0 <= i < |table| && SameFold(table[i].name, name) && table[i].category == category
  {
    if table != [] {
      var rest := table[1..];
      CategoryMeans(rest, name, category);
      if i :| 0 <= i < |rest| && SameFold(rest[i].name, name) && rest[i].category == category {
        assert table[i + 1] == rest[i] && !SameFold(table[0].name, table[i + 1].name);
      }
      if i :| 0 < i < |table| && SameFold(table[i].name, name) && table[i].category == category {
        assert rest[i - 1] == table[i];
      }
    }
  }

  /** A type can be closed exactly when it has a Completed state. */
  lemma {:induction false} ClosableIff(table: seq<StateDef>)
    ensures ClosedState(table).Some? <==> exists i :: 0 <= i < |table| && table[i].category == Completed
  {
    if table != [] {
      var rest := table[1..];
      ClosableIff(rest);
      if i :| 0 <= i < |rest| && rest[i].category == Completed {
        assert table[i + 1] == rest[i];
      }
      if i :| 0 < i < |table| && table[i].category == Completed {
        assert rest[i - 1] == table[i];
      }
    }
  }

  predicate Terminal(table: seq<StateDef>, item: Item) {
    CategoryOf(table, item.state) == Some(Completed) || CategoryOf(table, item.state) == Some(Removed)
  }

  /** What a successful close may leave behind. */
  predicate Settled(table: seq<StateDef>, item: Item, resolvedOnly: bool) {
    if resolvedOnly then CategoryOf(table, item.state) == Some(Resolved) else Terminal(table, item)
  }

  datatype Plan = Plan(state: Option<string>, atResolved: bool, stopAtResolved: bool)

  /** planADOClose; target is the Completed state, none when it cannot be resolved. */
  function PlanClose(table: seq<StateDef>, item: Item, target: Option<string>): Option<Plan> {
    var category := CategoryOf(table, item.state);
    if category == Some(Completed) || category == Some(Removed) then Some(Plan(None, false, false))
    else if target.Some? then Some(Plan(target, category == Some(Resolved), false))
    else if category == Some(Resolved) then Some(Plan(None, true, true))
    else None
  }

  /** Neither closed nor at Resolved. */
  predicate Unclosable(table: seq<StateDef>, item: Item) {
    !Terminal(table, item) && CategoryOf(table, item.state) != Some(Resolved)
  }

  /** From version n on exactly version k is ours: the caller's edits, computed from the
      version before it, with or without the move to the Completed state. */
  ghost predicate ClosedAt(history: seq<Version>, n: nat, k: nat, table: seq<StateDef>, extra: Item -> seq<Edit>) {
    && 0 < n <= k < |history|
    && var edits := extra(history[k - 1].item);
       WroteOnce(history, n, k, Patch(None, edits)) || WroteOnce(history, n, k, Patch(ClosedState(table), edits))
  }

  /** What a successful close does to the state: a closed item keeps it; one reported
      resolvedOnly was at Resolved and keeps it; any other is moved to the Completed state. */
  predicate LeavesState(table: seq<StateDef>, before: Item, after: Item, resolvedOnly: bool) {
    if Terminal(table, before) then after.state == before.state && !resolvedOnly
    else if resolvedOnly then after.state == before.state && CategoryOf(table, before.state) == Some(Resolved)
    else ClosedState(table) == Some(after.state)
  }

  /** A version the close settled on without writing. */
  ghost predicate FoundAt(history: seq<Version>, n: nat, k: nat, item: Item, extra: Item -> seq<Edit>) {
    k < |history| && history[k].item == item && extra(item) == [] && WroteNothing(history, n)
  }

  /** closeADOWorkItemOnce against one snapshot; resolves is whether the Completed state
      could be looked up. */
  method CloseOnce(server: Server, table: seq<StateDef>, extra: Item -> seq<Edit>, snap: Snapshot, resolves: bool)
    returns (r: CloseResult, conflict: bool)
    requires server.Valid() && 0 < snap.rev <= |server.history| && snap.item == server.history[snap.rev - 1].item
    modifies server
    ensures server.Valid() && old(server.history) <= server.history
    ensures conflict ==> WroteNothing(server.history, |old(server.history)|)
    ensures !conflict && r.Closed? && DistinctNames(table) ==> Settled(table, r.item, r.resolvedOnly)
    ensures !conflict && r.Closed? && r.patched ==>
              && ClosedAt(server.history, |old(server.history)|, snap.rev, table, extra)
              && r.item == server.history[snap.rev].item
    ensures !conflict && r.Closed? && !r.patched ==>
              FoundAt(server.history, |old(server.history)|, snap.rev - 1, r.item, extra)
    ensures WroteNothing(server.history, |old(server.history)|)
            || ClosedAt(server.history, |old(server.history)|, snap.rev, table, extra)
    ensures !r.PinConflict? && !r.CloseExhausted?
    ensures server.conflicts == old(server.conflicts) + (if conflict then 1 else 0)
    ensures !conflict && r.CloseRejected? ==> server.refusals > old(server.refusals)
    ensures server.refusals >= old(server.refusals)
    ensures !conflict && r.NoTarget? ==> WroteNothing(server.history, |old(server.history)|)
    ensures !conflict && r.NoTarget? ==> Unclosable(table, snap.item) && (ClosedState(table).Some? ==> !resolves)
    ensures !conflict && r.Closed? ==> LeavesState(table, snap.item, r.item, r.resolvedOnly)
    ensures !conflict && r.Closed? && r.resolvedOnly ==>
              ClosedState(table).None? || !resolves || server.refusals > old(server.refusals)
    ensures !conflict && r.CloseRejected? && ClosedState(table).Some? && resolves ==>
              CategoryOf(table, snap.item.state) != Some(Resolved) || server.refusals > old(server.refusals) + 1
  {
    var plan := PlanClose(table, snap.item, if resolves then ClosedState(table) else None);
    if plan.None? {
      return NoTarget, false;
    }
    var Plan(state, atResolved, stopAtResolved) := plan.value;
    var edits := extra(snap.item);
    if state.None? && edits == [] {
      return Closed(snap.item, stopAtResolved, false), false;
    }
    SettlesAs(table, snap.item, plan.value, edits);
    EditsKeepState(snap.item, edits);
    var response := server.Write(snap.rev, Patch(state, edits));
    match response
    case Landed(item) => return Closed(item, stopAtResolved, true), false;
    case Conflict => return CloseRejected, true;
    case Lost => return CloseUnknown, false;
    case Refused =>
      if !(atResolved && state.Some?) {
        return CloseRejected, false;
      }
      r, conflict := StopAtResolved(server, table, extra, snap);
  }

  /** stopADOCloseAtResolved: the caller's own edits, without the state change, against
      the same revision. */
  method StopAtResolved(server: Server, table: seq<StateDef>, extra: Item -> seq<Edit>, snap: Snapshot)
    returns (r: CloseResult, conflict: bool)
    requires server.Valid() && 0 < snap.rev <= |server.history| && snap.item == server.history[snap.rev - 1].item
    modifies server
    ensures server.Valid() && old(server.history) <= server.history
    ensures conflict ==> WroteNothing(server.history, |old(server.history)|)
    ensures !conflict && r.Closed? ==> r.resolvedOnly && r.item.state == snap.item.state
    ensures !conflict && r.Closed? && r.patched ==>
              && ClosedAt(server.history, |old(server.history)|, snap.rev, table, extra)
              && r.item == server.history[snap.rev].item
    ensures !conflict && r.Closed? && !r.patched ==>
              FoundAt(server.history, |old(server.history)|, snap.rev - 1, r.item, extra)
    ensures WroteNothing(server.history, |old(server.history)|)
            || ClosedAt(server.history, |old(server.history)|, snap.rev, table, extra)
    ensures !r.PinConflict? && !r.CloseExhausted? && !r.NoTarget?
    ensures server.conflicts == old(server.conflicts) + (if conflict then 1 else 0)
    ensures !conflict && r.CloseRejected? ==> server.refusals > old(server.refusals)
    ensures server.refusals >= old(server.refusals)
  {
    var edits := extra(snap.item);
    if edits == [] {
      return Closed(snap.item, true, false), false;
    }
    EditsKeepState(snap.item, edits);
    var response := server.Write(snap.rev, Patch(None, edits));
    match response
    case Landed(item) => return Closed(item, true, true), false;
    case Conflict => return CloseRejected, true;
    case Refused => return CloseRejected, false;
    case Lost => return CloseUnknown, false;
  }

  lemma SettlesAs(table: seq<StateDef>, item: Item, plan: Plan, edits: seq<Edit>)
    requires PlanClose(table, item, None) == Some(plan) || PlanClose(table, item, ClosedState(table)) == Some(plan)
    ensures DistinctNames(table) ==> Settled(table, Patched(item, Patch(plan.state, edits)), plan.stopAtResolved)
  {
    EditsKeepState(item, edits);
    if DistinctNames(table) && ClosedState(table).Some? {
      ClosedStateIsCompleted(table);
    }
  }

  /** closeADOWorkItem, against arbitrary other writers. A successful close settled the item
      at one version, current during the call or the caller's own snapshot, Completed or
      Removed, or Resolved and then reported so. The caller's edits are in exactly one
      version, computed from the version right before it; no other outcome writes more than
      that one version; and a pinned close that was handed its snapshot never writes on
      another revision. resolves says of each attempt whether the Completed state could be
      looked up. */
  method CloseWorkItem(server: Server, table: seq<StateDef>, req: CloseRequest, resolves: nat -> bool)
    returns (r: CloseResult)
    requires server.Valid()
    requires req.snapshot.Some? ==>
               && 0 < req.snapshot.value.rev <= |server.history|
               && req.snapshot.value.item == server.history[req.snapshot.value.rev - 1].item
    modifies server
    ensures server.Valid() && old(server.history) <= server.history
    ensures r.Closed? && DistinctNames(table) ==> Settled(table, r.item, r.resolvedOnly)
    ensures r.Closed? && r.patched ==>
              exists k: nat :: ClosedAt(server.history, |old(server.history)|, k, table, req.extra)
                && r.item == server.history[k].item
                && LeavesState(table, server.history[k - 1].item, r.item, r.resolvedOnly)
    ensures r.Closed? && !r.patched ==> LeavesState(table, r.item, r.item, r.resolvedOnly)
    ensures r.Closed? && r.resolvedOnly ==>
              || ClosedState(table).None?
              || (exists attempt: nat :: !resolves(attempt))
              || server.refusals > old(server.refusals)
    ensures r.Closed? && !r.patched ==>
              exists k: nat ::
                && FoundAt(server.history, |old(server.history)|, k, r.item, req.extra)
                && (|old(server.history)| <= k + 1 || (req.snapshot.Some? && k + 1 == req.snapshot.value.rev))
    ensures r.PinConflict? || r.CloseExhausted? || r.NoTarget? ==> WroteNothing(server.history, |old(server.history)|)
    ensures r.CloseExhausted? <==> server.conflicts == old(server.conflicts) + RETRIES
    ensures r.PinConflict? <==> req.pinned && server.conflicts == old(server.conflicts) + 1
    ensures r.CloseRejected? ==> server.refusals > old(server.refusals)
    ensures r.CloseRejected? ==>
              || ClosedState(table).None?
              || (exists attempt: nat :: !resolves(attempt))
              || (exists k: nat :: k < |server.history|
                    && CategoryOf(table, server.history[k].item.state) != Some(Resolved))
              || server.refusals > old(server.refusals) + 1
    ensures r.NoTarget? ==> exists k: nat :: k < |server.history| && Unclosable(table, server.history[k].item)
    ensures r.NoTarget? ==> ClosedState(table).None? || exists attempt: nat :: !resolves(attempt)
    ensures WroteNothing(server.history, |old(server.history)|)
            || exists k: nat :: ClosedAt(server.history, |old(server.history)|, k, table, req.extra)
    ensures req.pinned && req.snapshot.Some? ==>
              forall j :: |old(server.history)| <= j < |server.history| && server.history[j].writer == Ours ==>
                j == req.snapshot.value.rev
  {
    for attempt := 0 to RETRIES
      invariant server.Valid() && old(server.history) <= server.history
      invariant WroteNothing(server.history, |old(server.history)|)
      invariant req.pinned ==> attempt == 0
      invariant server.conflicts == old(server.conflicts) + attempt && server.refusals >= old(server.refusals)
    {
      var snap: Snapshot;
      if attempt == 0 && req.snapshot.Some? {
        snap := req.snapshot.value;
      } else {
        var item, rev := server.Get();
        snap := Snapshot(item, rev);
      }
      ghost var before := server.history;
      var conflict;
      r, conflict := CloseOnce(server, table, req.extra, snap, resolves(attempt));
      assert ClosedAt(server.history, |before|, snap.rev, table, req.extra) ==>
          ClosedAt(server.history, |old(server.history)|, snap.rev, table, req.extra);
      assert FoundAt(server.history, |before|, snap.rev - 1, snap.item, req.extra) ==>
          FoundAt(server.history, |old(server.history)|, snap.rev - 1, snap.item, req.extra);
      if !conflict {
        return;
      }
      if req.pinned {
        return PinConflict;
      }
    }
    return CloseExhausted;
  }
}
