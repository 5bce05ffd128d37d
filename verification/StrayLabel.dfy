/** The converse of label safety: when the claim label is on exactly the items that are
    held. A claim that overlaps a release can leave it on a free item; overlapping claims,
    and overlapping releases, cannot. */
module StrayLabel {
  import opened Text
  import opened Election
  import opened ClaimProtocol
  import opened ClaimLabel

  predicate LiveClaim(s: State, id: nat) {
    id in s.calls && !Settled(s.calls[id].pc) && s.calls[id].request.ClaimItem?
  }

  predicate LiveRelease(s: State, id: nat) {
    id in s.calls && !Settled(s.calls[id].pc) && s.calls[id].request.ReleaseItem?
  }

  /** No release is live while a claim starts, and no claim while a release does. */
  predicate StartsApart(s: State, a: Action) {
    a.Start? ==>
      if a.request.ClaimItem? then forall id :: id in s.calls ==> !LiveRelease(s, id)
      else forall id :: id in s.calls ==> !LiveClaim(s, id)
  }

  /** Nobody touches the label by hand; with apart, claims and releases do not overlap each
      other; with pinnedOnly, every release names the run it expects. */
  predicate Orderly(h: Hooks, apart: bool, pinnedOnly: bool, actions: seq<Action>) {
    actions == [] ||
    (var front, a := actions[..|actions| - 1], actions[|actions| - 1];
     && Orderly(h, apart, pinnedOnly, front)
     && !a.LabelByHand?
     && (pinnedOnly ==> Pinned(a))
     && (apart ==> StartsApart(Run(h, front), a)))
  }

  ghost predicate Reached(h: Hooks, apart: bool, pinnedOnly: bool, s: State) {
    exists actions :: Orderly(h, apart, pinnedOnly, actions) && Run(h, actions) == s
  }

  /** Once every call has finished without error, the label is on exactly when somebody owns
      the item. */
  ghost predicate LabelExact(h: Hooks, apart: bool, pinnedOnly: bool) {
    forall s :: Reached(h, apart, pinnedOnly, s) && Quiet(s) ==> (s.labelled <==> Owner(s.log).Some?)
  }

  // ---------------------------------------------------------------- claims and releases apart

  /** Claims past their breadcrumb see an owner. */
  predicate ClaimPlace(log: seq<Crumb>, pc: Pc) {
    match pc
    case ReadWinner => true
    case PostClaim => true
    case _ => VerdictOf(pc).Some? || pc.ReadBack? ==> Owner(log).Some?
  }

  /** Releases past their breadcrumb see none; before it, at most the one they will name, and
      one that read the item without its label sees none already. */
  predicate ReleasePlace(h: Hooks, log: seq<Crumb>, pc: Pc) {
    var owner := Owner(log);
    match pc
    case Authorize => true
    case ReadItem(winner) => owner.None? || owner == winner
    case PostRelease(released, hadLabel) =>
      owner.None? || (owner == Some(released) && (h.readsItemFirst ==> hadLabel))
    case ReadItemAfter => owner.None?
    case Recheck(_) => owner.None?
    case RemoveLabel => owner.None?
    case RecheckRemoved => owner.None?
    case _ => false
  }

  /** Will label the item of this run. */
  predicate Labels(call: Call, run: string) {
    call.request == ClaimItem(run) && (call.pc.ReadBack? || call.pc.AddLabel?)
  }

  /** Will take the label off. */
  predicate Clears(call: Call) {
    call.request.ReleaseItem? && (call.pc.ReadItemAfter? || call.pc == Recheck(true) || call.pc.RemoveLabel?)
  }

  /** One claim's step while no release is live: the owner can only appear, with the label
      still to come from this very claim, and the label never goes. */
  lemma ClaimMoves(h: Hooks, log: seq<Crumb>, labelled: bool, call: Call)
    requires call.request.ClaimItem? && ClaimPlace(log, call.pc) && (labelled ==> Owner(log).Some?)
    requires !Settled(call.pc)
    ensures var (log', labelled', pc) := Step(h, log, labelled, call);
            && !pc.Failed?
            && (!Settled(pc) ==> ClaimPlace(log', pc))
            && (labelled ==> labelled') && (labelled' ==> Owner(log').Some?)
            && (Owner(log).Some? ==> Owner(log') == Owner(log))
            && (Owner(log').Some? && !labelled' ==>
                  if Owner(log).None? then Labels(call.(pc := pc), Owner(log').value)
                  else Labels(call, Owner(log).value) ==> Labels(call.(pc := pc), Owner(log).value))
  {
    if call.pc.PostClaim? {
      OwnerOfExtended(log, Claim(call.request.run));
    }
  }

  /** One release's step while no claim is live: the owner can only go, with the label still
      to be cleared by this very release, and the label never comes. */
  lemma ReleaseMoves(h: Hooks, log: seq<Crumb>, labelled: bool, call: Call)
    requires call.request.ReleaseItem? && ReleasePlace(h, log, call.pc) && (Owner(log).Some? ==> labelled)
    ensures var (log', labelled', pc) := Step(h, log, labelled, call);
            && !pc.Failed?
            && (!Settled(pc) ==> ReleasePlace(h, log', pc))
            && (labelled' ==> labelled) && (Owner(log').Some? ==> labelled')
            && (Owner(log') == Owner(log) || Owner(log').None?)
            && (Owner(log').None? && labelled' ==>
                  if Owner(log).Some? then Clears(call.(pc := pc))
                  else Clears(call) ==> Clears(call.(pc := pc)))
  {
    if call.pc.PostRelease? {
      OwnerOfExtended(log, Release(call.pc.released));
    }
  }

  predicate AnyFailed(s: State) {
    exists id :: id in s.calls && s.calls[id].pc.Failed?
  }

  /** Claims and releases are not live together. */
  predicate Phased(s: State) {
    forall i, j :: i in s.calls && j in s.calls ==> !(LiveClaim(s, i) && LiveRelease(s, j))
  }

  predicate Placed(h: Hooks, s: State) {
    && (forall id :: id in s.calls && LiveClaim(s, id) ==> ClaimPlace(s.log, s.calls[id].pc))
    && (forall id :: id in s.calls && LiveRelease(s, id) ==> ReleasePlace(h, s.log, s.calls[id].pc))
  }

  /** A held item without its label has a claim that will label it, and a free item with the
      label a release that will clear it. */
  predicate Owed(s: State) {
    && (Owner(s.log).Some? && !s.labelled ==>
          exists id :: id in s.calls && LiveClaim(s, id) && Labels(s.calls[id], Owner(s.log).value))
    && (Owner(s.log).None? && s.labelled ==>
          exists id :: id in s.calls && LiveRelease(s, id) && Clears(s.calls[id]))
  }

  predicate Apart(h: Hooks, s: State) {
    Phased(s) && (AnyFailed(s) || (Placed(h, s) && Owed(s)))
  }

  lemma FailedStays(h: Hooks, s: State, a: Action)
    requires AnyFailed(s)
    ensures AnyFailed(Next(h, s, a))
  {
    var id :| id in s.calls && s.calls[id].pc.Failed?;
    assert id in Next(h, s, a).calls && Next(h, s, a).calls[id].pc.Failed?;
  }

  lemma PhasedStays(h: Hooks, s: State, a: Action)
    requires Phased(s) && StartsApart(s, a)
    ensures Phased(Next(h, s, a))
  {
    var t := Next(h, s, a);
    forall i, j | i in t.calls && j in t.calls ensures !(LiveClaim(t, i) && LiveRelease(t, j)) {
      assert i in s.calls && LiveClaim(t, i) ==> LiveClaim(s, i);
      assert j in s.calls && LiveRelease(t, j) ==> LiveRelease(s, j);
    }
  }

  lemma ClaimActs(h: Hooks, s: State, id: nat)
    requires Phased(s) && Placed(h, s) && Owed(s) && id in s.calls && LiveClaim(s, id)
    ensures Placed(h, Next(h, s, Act(id))) && Owed(Next(h, s, Act(id)))
  {
    ClaimMoves(h, s.log, s.labelled, s.calls[id]);
    var t := Next(h, s, Act(id));
    if Owner(t.log).Some? && !t.labelled {
      if Owner(s.log).None? {
        assert LiveClaim(t, id) && Labels(t.calls[id], Owner(t.log).value);
      } else {
        var other :| other in s.calls && LiveClaim(s, other) && Labels(s.calls[other], Owner(s.log).value);
        assert LiveClaim(t, other) && Labels(t.calls[other], Owner(t.log).value);
      }
    }
  }

  lemma ReleaseActs(h: Hooks, s: State, id: nat)
    requires Phased(s) && Placed(h, s) && Owed(s) && id in s.calls && LiveRelease(s, id)
    ensures Placed(h, Next(h, s, Act(id))) && Owed(Next(h, s, Act(id)))
  {
    ReleaseMoves(h, s.log, s.labelled, s.calls[id]);
    var t := Next(h, s, Act(id));
    if Owner(t.log).None? && t.labelled {
      if Owner(s.log).Some? {
        assert LiveRelease(t, id) && Clears(t.calls[id]);
      } else {
        var other :| other in s.calls && LiveRelease(s, other) && Clears(s.calls[other]);
        assert LiveRelease(t, other) && Clears(t.calls[other]);
      }
    }
  }

  /** Steps that leave the thread's owner, the label and every call alone. */
  lemma OwedKept(h: Hooks, s: State, t: State)
    requires Placed(h, s) && Owed(s) && Owner(t.log) == Owner(s.log) && t.labelled == s.labelled
    requires forall id :: id in s.calls ==> id in t.calls && t.calls[id] == s.calls[id]
    requires forall id :: id in t.calls && id !in s.calls ==> t.calls[id].pc == FirstPc(t.calls[id].request)
    ensures Placed(h, t) && Owed(t)
  {
    if Owner(s.log).Some? && !s.labelled {
      var id :| id in s.calls && LiveClaim(s, id) && Labels(s.calls[id], Owner(s.log).value);
      assert LiveClaim(t, id);
    }
    if Owner(s.log).None? && s.labelled {
      var id :| id in s.calls && LiveRelease(s, id) && Clears(s.calls[id]);
      assert LiveRelease(t, id);
    }
  }

  /** Every step of every call keeps this, as long as claims and releases start apart. */
  lemma ApartStep(h: Hooks, s: State, a: Action)
    requires Apart(h, s) && !a.LabelByHand? && StartsApart(s, a)
    ensures Apart(h, Next(h, s, a))
  {
    var t := Next(h, s, a);
    PhasedStays(h, s, a);
    if AnyFailed(s) {
      FailedStays(h, s, a);
    } else {
      match a
      case Start(_, _) => OwedKept(h, s, t);
      case PostNote =>
        OwnerOfExtended(s.log, Note);
        OwedKept(h, s, t);
      case Act(id) =>
        if id in s.calls && !Settled(s.calls[id].pc) {
          if s.calls[id].request.ClaimItem? { ClaimActs(h, s, id); } else { ReleaseActs(h, s, id); }
        }
      case Fail(id, _) =>
        if id in s.calls && !Settled(s.calls[id].pc) { assert t.calls[id].pc.Failed?; }
    }
  }

  lemma {:induction false} RunIsApart(h: Hooks, pinnedOnly: bool, actions: seq<Action>)
    requires Orderly(h, true, pinnedOnly, actions)
    ensures Apart(h, Run(h, actions))
  {
    if actions != [] {
      RunIsApart(h, pinnedOnly, actions[..|actions| - 1]);
      ApartStep(h, Run(h, actions[..|actions| - 1]), actions[|actions| - 1]);
    }
  }

  // ---------------------------------------------------------------- overlapping calls

  lemma ReachedStep(h: Hooks, s: State, a: Action) returns (t: State)
    requires Reached(h, false, true, s) && !a.LabelByHand? && Pinned(a)
    ensures t == Next(h, s, a) && Reached(h, false, true, t)
  {
    var actions :| Orderly(h, false, true, actions) && Run(h, actions) == s;
    assert (actions + [a])[..|actions|] == actions;
    t := Next(h, s, a);
    assert Run(h, actions + [a]) == t;
  }

  /** One step of call id, which leaves it at pc. */
  lemma Moves(h: Hooks, s: State, id: nat, pc: Pc) returns (t: State)
    requires Reached(h, false, true, s) && id in s.calls && !Settled(s.calls[id].pc)
    requires Step(h, s.log, s.labelled, s.calls[id]).2 == pc
    ensures Reached(h, false, true, t)
    ensures t.log == Step(h, s.log, s.labelled, s.calls[id]).0
    ensures t.labelled == Step(h, s.log, s.labelled, s.calls[id]).1
    ensures t.calls == s.calls[id := s.calls[id].(pc := pc)]
  {
    t := ReachedStep(h, s, Act(id));
  }

  const CLAIM_1 := ClaimItem("1")
  const WON := Verdict("1", 1, false, false)

  /** Run 1 has posted its claim on a fresh item. */
  lemma Posted(h: Hooks) returns (s: State)
    ensures Reached(h, false, true, s)
    ensures s == State([Claim("1")], false, map[1 := Call(CLAIM_1, 0, ReadBack(0))])
  {
    assert Orderly(h, false, true, []) && Run(h, []) == INITIAL;
    s := ReachedStep(h, INITIAL, Start(1, CLAIM_1));
    s := Moves(h, s, 1, PostClaim);
    s := Moves(h, s, 1, ReadBack(0));
  }

  /** It has read the claim back and has not yet labelled the item. */
  lemma AboutToLabel(h: Hooks) returns (s: State)
    ensures Reached(h, false, true, s) && Owner(s.log) == Some("1")
    ensures s == State([Claim("1")], false, map[1 := Call(CLAIM_1, 0, AddLabel(WON))])
  {
    s := Posted(h);
    OwnerOfExtended([], Claim("1"));
    assert [] + [Claim("1")] == [Claim("1")];
    s := Moves(h, s, 1, AddLabel(WON));
  }

  /** A release of run 1 has reached its breadcrumb, having seen no label. */
  lemma ReleaseArrives(h: Hooks, s: State) returns (t: State)
    requires Reached(h, false, true, s) && Owner(s.log) == Some("1") && !s.labelled && 2 !in s.calls
    ensures Reached(h, false, true, t) && t.log == s.log && !t.labelled
    ensures t.calls == s.calls[2 := Call(ReleaseOf("1", true), |s.log|, PostRelease("1", false))]
  {
    t := ReachedStep(h, s, Start(2, ReleaseOf("1", true)));
    if h.readsItemFirst {
      t := Moves(h, t, 2, ReadItem(Some("1")));
    }
    t := Moves(h, t, 2, PostRelease("1", false));
  }

  /** It posts and reads the item without the label. */
  lemma ReleaseSeesNoLabel(h: Hooks, s: State) returns (t: State)
    requires Reached(h, false, true, s) && !s.labelled
    requires 2 in s.calls && s.calls[2].request == ReleaseOf("1", true) && s.calls[2].pc == PostRelease("1", false)
    ensures Reached(h, false, true, t) && t.log == s.log + [Release("1")] && !t.labelled
    ensures t.calls == s.calls[2 := s.calls[2].(pc := Recheck(false))]
  {
    t := s;
    if !h.readsItemFirst {
      t := Moves(h, t, 2, ReadItemAfter);
    }
    t := Moves(h, t, 2, Recheck(false));
  }

  /** The late claim labels the item and is told it won. */
  lemma LabelsAnyway(h: Hooks, s: State) returns (t: State)
    requires Reached(h, false, true, s) && 1 in s.calls && s.calls[1] == Call(CLAIM_1, 0, AddLabel(WON))
    ensures Reached(h, false, true, t) && t.log == s.log && t.labelled
    ensures t.calls == s.calls[1 := s.calls[1].(pc := Claimed(WON.(labelSeen := true)))]
  {
    t := Moves(h, s, 1, Finish(WON.(labelSeen := true)));
    t := Moves(h, t, 1, Claimed(WON.(labelSeen := true)));
  }

  /** The release has finished; run 1's claim has not. */
  lemma ReleasedFirst(h: Hooks) returns (s: State)
    ensures Reached(h, false, true, s) && Owner(s.log).None?
    ensures s.calls.Keys == {1, 2} && s.calls[1] == Call(CLAIM_1, 0, AddLabel(WON)) && s.calls[2].pc == Released
  {
    s := AboutToLabel(h);
    s := ReleaseArrives(h, s);
    OwnerOfExtended(s.log, Release("1"));
    s := ReleaseSeesNoLabel(h, s);
    s := Moves(h, s, 2, Released);
  }

  /** The claim labels the item after its release has finished: every call is settled
      without error, nobody owns the item, and it carries the label. This takes no
      unpinned release and no particular hooks. */
  lemma LabelledLate(h: Hooks) returns (s: State)
    ensures Reached(h, false, true, s) && Quiet(s)
    ensures Owner(s.log).None? && s.labelled
  {
    s := ReleasedFirst(h);
    s := LabelsAnyway(h, s);
  }

  lemma {:induction false} PinnedIsOrderly(h: Hooks, apart: bool, pinnedOnly: bool, actions: seq<Action>)
    requires Orderly(h, apart, true, actions)
    ensures Orderly(h, apart, pinnedOnly, actions)
  {
    if actions != [] {
      PinnedIsOrderly(h, apart, pinnedOnly, actions[..|actions| - 1]);
    }
  }

  /** Whenever every call has finished without error the label is on exactly the held items,
      exactly when claims and releases do not overlap each other: any number of claims may
      race, and any number of releases, whatever the hooks, and whether or not every release
      is pinned. */
  lemma LabelExactIff(h: Hooks, apart: bool, pinnedOnly: bool)
    ensures LabelExact(h, apart, pinnedOnly) <==> apart
  {
    if apart {
      forall s | Reached(h, true, pinnedOnly, s) && Quiet(s) ensures s.labelled <==> Owner(s.log).Some? {
        var actions :| Orderly(h, true, pinnedOnly, actions) && Run(h, actions) == s;
        RunIsApart(h, pinnedOnly, actions);
      }
    } else {
      var s := LabelledLate(h);
      var actions :| Orderly(h, false, true, actions) && Run(h, actions) == s;
      PinnedIsOrderly(h, false, pinnedOnly, actions);
    }
  }
}
