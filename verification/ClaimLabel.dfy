/** The claim label mirrors ownership: when an open claim carries its label, over every
    interleaving of the protocol, and when a run told it owns the item has seen it. */
module ClaimLabel {
  import opened Text
  import opened Election
  import opened ClaimProtocol

  /** A claim that may have opened the epoch of run and has not labelled the item. */
  predicate OwesAdd(call: Call, run: string) {
    && call.request == ClaimItem(run)
    && var pc := if call.pc.Failed? then call.pc.last else call.pc;
       pc.ReadBack? || pc.AddLabel? || (call.pc.Failed? && pc.PostClaim?)
  }

  /** A release that may have taken the label off and has not looked again or put it
      back. */
  predicate OwesRestore(call: Call) {
    && call.request.ReleaseItem?
    && var pc := if call.pc.Failed? then call.pc.last else call.pc;
       pc.RecheckRemoved? || pc.RestoreLabel? || (call.pc.Failed? && pc.RemoveLabel?)
  }

  predicate Owes(s: State, id: nat) {
    && id in s.calls
    && Owner(s.log).Some?
    && (OwesAdd(s.calls[id], Owner(s.log).value) || OwesRestore(s.calls[id]))
  }

  predicate AllPinned(s: State) {
    forall id :: id in s.calls && s.calls[id].request.ReleaseItem? ==> s.calls[id].request.expected.Some?
  }

  /** An item held without its label is some call's unfinished business. */
  ghost predicate Mirrored(s: State) {
    Owner(s.log).Some? && !s.labelled ==> exists id :: Owes(s, id)
  }

  lemma OwnerAfter(h: Hooks, s: State, call: Call)
    ensures var (log, _, _) := Step(h, s.log, s.labelled, call);
            || log == s.log
            || (call.request.ClaimItem? && call.pc.PostClaim? && log == s.log + [Claim(call.request.run)] &&
                (Owner(log) == Owner(s.log) || Owner(log) == Some(call.request.run)))
            || (call.request.ReleaseItem? && (Owner(log) == Owner(s.log) || Owner(log).None?))
  {
  }

  /** A call that acts either settles its debt by labelling the item, or still owes. */
  lemma DebtPersists(h: Hooks, s: State, call: Call, run: string)
    requires Owner(s.log) == Some(run) && (OwesAdd(call, run) || OwesRestore(call)) && !Settled(call.pc)
    ensures var (log, labelled, pc) := Step(h, s.log, s.labelled, call);
            labelled || OwesAdd(call.(pc := pc), run) || OwesRestore(call.(pc := pc))
  {
  }

  /** A call that acts and leaves the item held without its label owes it. */
  lemma NewDebt(h: Hooks, s: State, call: Call)
    requires h.restoresReleased && (call.request.ReleaseItem? ==> call.request.expected.Some?)
    requires !Settled(call.pc)
    ensures var (log, labelled, pc) := Step(h, s.log, s.labelled, call);
            Owner(log).Some? && !labelled && (s.labelled || Owner(log) != Owner(s.log)) ==>
              && (OwesAdd(call.(pc := pc), Owner(log).value) || OwesRestore(call.(pc := pc)))
              && (OwesAdd(call.(pc := Failed(call.pc)), Owner(log).value) || OwesRestore(call.(pc := Failed(call.pc))))
  {
  }

  /** The same for a call that fails instead of reporting its step. */
  lemma FailedDebt(h: Hooks, s: State, call: Call, run: string)
    requires (OwesAdd(call, run) || OwesRestore(call)) && !Settled(call.pc)
    ensures OwesAdd(call.(pc := Failed(call.pc)), run) || OwesRestore(call.(pc := Failed(call.pc)))
  {
  }

  lemma MirroredCall(h: Hooks, s: State, id: nat, a: Action)
    requires h.restoresReleased && Mirrored(s) && AllPinned(s)
    requires id in s.calls && !Settled(s.calls[id].pc) && (a == Act(id) || a == Fail(id, true) || a == Fail(id, false))
    ensures Mirrored(Next(h, s, a))
  {
    var t := Next(h, s, a);
    var call := s.calls[id];
    if Owner(t.log).Some? && !t.labelled {
      OwnerAfter(h, s, call);
      NewDebt(h, s, call);
      if !s.labelled && Owner(t.log) == Owner(s.log) {
        var other :| Owes(s, other);
        if other == id {
          DebtPersists(h, s, call, Owner(s.log).value);
          FailedDebt(h, s, call, Owner(s.log).value);
        }
        assert Owes(t, other);
      } else {
        assert Owes(t, id);
      }
    }
  }

  lemma MirroredStep(h: Hooks, s: State, a: Action)
    requires h.restoresReleased && Mirrored(s) && AllPinned(s) && Pinned(a)
    ensures Mirrored(Next(h, s, a)) && AllPinned(Next(h, s, a))
  {
    var t := Next(h, s, a);
    match a
    case Start(_, _) =>
      if Owner(s.log).Some? && !s.labelled {
        var id :| Owes(s, id);
        assert Owes(t, id);
      }
    case PostNote =>
      OwnerOfExtended(s.log, Note);
      if Owner(s.log).Some? && !s.labelled {
        var id :| Owes(s, id);
        assert Owes(t, id);
      }
    case LabelByHand =>
    case Act(id) =>
      if id in s.calls && !Settled(s.calls[id].pc) { MirroredCall(h, s, id, a); }
    case Fail(id, _) =>
      if id in s.calls && !Settled(s.calls[id].pc) { MirroredCall(h, s, id, a); }
  }

  lemma {:induction false} RunIsMirrored(h: Hooks, actions: seq<Action>)
    requires h.restoresReleased && forall a :: a in actions ==> Pinned(a)
    ensures Mirrored(Run(h, actions)) && AllPinned(Run(h, actions))
  {
    if actions != [] {
      var front := actions[..|actions| - 1];
      assert forall a :: a in front ==> a in actions;
      RunIsMirrored(h, front);
      assert actions[|actions| - 1] in actions;
      MirroredStep(h, Run(h, front), actions[|actions| - 1]);
    }
  }

  /** When every release names the run it expects and restores, an item held without its label always
      has a claim that has posted and not yet labelled, or a release that has removed
      the label and not yet looked again or restored it, in flight or failed there. */
  lemma HeldUnlabelledIsOwed(h: Hooks, s: State)
    requires Reachable(h, true, s) && h.restoresReleased
    requires Owner(s.log).Some? && !s.labelled
    ensures exists id :: Owes(s, id)
  {
    var actions :| Run(h, actions) == s && forall a :: a in actions ==> Pinned(a);
    RunIsMirrored(h, actions);
  }

  /** A pinned release on its way to remove the label, or past that, has read the thread free
      of any owner at a moment inside the call. */
  ghost predicate FoundFree(log: seq<Crumb>, call: Call) {
    call.request.ReleaseItem? && call.request.expected.Some? && (call.pc.RemoveLabel? || call.pc.RecheckRemoved?) ==>
      exists at :: call.since <= at <= |log| && Owner(log[..at]).None?
  }

  ghost predicate AllFoundFree(s: State) {
    forall id :: id in s.calls ==> s.calls[id].since <= |s.log| && FoundFree(s.log, s.calls[id])
  }

  lemma FoundFreeGrows(log: seq<Crumb>, more: seq<Crumb>, call: Call)
    requires FoundFree(log, call)
    ensures FoundFree(log + more, call)
  {
    if at :| call.since <= at <= |log| && Owner(log[..at]).None? {
      assert (log + more)[..at] == log[..at];
    }
  }

  lemma StepFoundFree(h: Hooks, log: seq<Crumb>, labelled: bool, call: Call)
    requires call.since <= |log| && FoundFree(log, call) && !Settled(call.pc)
    ensures var (log', _, pc) := Step(h, log, labelled, call); FoundFree(log', call.(pc := pc))
  {
    assert log[..|log|] == log;
  }

  lemma FoundFreeStep(h: Hooks, s: State, a: Action)
    requires AllFoundFree(s)
    ensures AllFoundFree(Next(h, s, a))
  {
    var t := Next(h, s, a);
    var more := ThreadGrows(h, s, a);
    forall id | id in t.calls ensures t.calls[id].since <= |t.log| && FoundFree(t.log, t.calls[id]) {
      if id in s.calls {
        FoundFreeGrows(s.log, more, s.calls[id]);
        if a == Act(id) && !Settled(s.calls[id].pc) {
          StepFoundFree(h, s.log, s.labelled, s.calls[id]);
        }
      }
    }
  }

  /** In every interleaving a pinned release removes the label only of an item it found free
      during the call. */
  lemma {:induction false} RemovesOnlyFree(h: Hooks, actions: seq<Action>)
    ensures AllFoundFree(Run(h, actions))
  {
    if actions != [] {
      RemovesOnlyFree(h, actions[..|actions| - 1]);
      FoundFreeStep(h, Run(h, actions[..|actions| - 1]), actions[|actions| - 1]);
    }
  }

  ghost predicate LabelSafe(h: Hooks, pinnedOnly: bool) {
    forall s :: Reachable(h, pinnedOnly, s) && Quiet(s) && Owner(s.log).Some? ==> s.labelled
  }

  function ReleaseOf(run: string, pinned: bool): Request {
    ReleaseItem(run, if pinned then Some(run) else None, false)
  }

  /** Run 1 has claimed and labelled the item; a release has ended its epoch, found the
      item free, and is about to remove the label. */
  lemma ReleasedStillLabelled(h: Hooks, pinned: bool) returns (s: State)
    ensures Reachable(h, pinned, s) && Owner(s.log).None? && s.labelled
    ensures s.calls.Keys == {1, 2} && s.calls[1].pc.Claimed?
    ensures s.calls[2].request == ReleaseOf("1", pinned) && s.calls[2].pc == RemoveLabel
  {
    InitialReachable(h, pinned);
    var held := ClaimWins(h, pinned, INITIAL, 1, "1");
    s := ReleasePosts(h, pinned, held, 2, ReleaseOf("1", pinned));
    OwnerOfExtended(held.log, Release("1"));
    if pinned {
      s := Acts(h, pinned, s, 2, RemoveLabel);
    }
  }

  /** A release that is not pinned, or cannot restore, takes the label off the next owner:
      it ends run 1's epoch, run 2 claims, wins and labels the item, and only then does the
      release remove the label. */
  lemma LostLabel(h: Hooks, pinned: bool) returns (s: State)
    requires !pinned || !h.restoresReleased
    ensures Reachable(h, pinned, s) && Quiet(s)
    ensures Owner(s.log) == Some("2") && !s.labelled
  {
    var freed := ReleasedStillLabelled(h, pinned);
    var held := ClaimWins(h, pinned, freed, 3, "2");
    assert held.calls[2] == freed.calls[2] && held.calls[1] == freed.calls[1];
    s := RemovesLabel(h, pinned, held, 2);
    forall id | id in s.calls ensures id == 1 || id == 2 || id == 3 {
      assert id in held.calls;
    }
  }

  /** The last step of a release that does not look again. */
  lemma RemovesLabel(h: Hooks, pinnedOnly: bool, s: State, id: nat) returns (t: State)
    requires Reachable(h, pinnedOnly, s) && id in s.calls && s.calls[id].pc == RemoveLabel
    requires s.calls[id].request.ReleaseItem? && (s.calls[id].request.expected.None? || !h.restoresReleased)
    ensures Reachable(h, pinnedOnly, t)
    ensures t == State(s.log, false, s.calls[id := s.calls[id].(pc := Released)])
  {
    t := Acts(h, pinnedOnly, s, id, Released);
  }

  /** Once every call has finished without error an open claim carries its label, in
      every interleaving, exactly when every release names the run it expects and the
      provider can restore a label it removed. */
  lemma LabelSafeIff(h: Hooks, pinnedOnly: bool)
    ensures LabelSafe(h, pinnedOnly) <==> pinnedOnly && h.restoresReleased
  {
    if pinnedOnly && h.restoresReleased {
      forall s | Reachable(h, true, s) && Quiet(s) && Owner(s.log).Some? ensures s.labelled {
        if !s.labelled {
          HeldUnlabelledIsOwed(h, s);
        }
      }
    } else {
      var s := LostLabel(h, pinnedOnly);
    }
  }

  // ---------------------------------------------------------------- told and labelled

  /** The call's verdict names its own run. */
  predicate ForItself(call: Call) {
    call.request.ClaimItem? && VerdictOf(call.pc).Some? && VerdictOf(call.pc).value.winner == call.request.run
  }

  predicate Told(call: Call) {
    ForItself(call) && call.pc.Claimed?
  }

  /** Every claim told its run owns the item has had the label in place at one of its
      own steps. */
  ghost predicate ToldSawLabel(s: State) {
    forall id :: id in s.calls && Told(s.calls[id]) ==> s.calls[id].pc.verdict.labelSeen
  }

  predicate Sees(h: Hooks, call: Call) {
    && (Told(call) ==> call.pc.verdict.labelSeen)
    && (call.pc.Finish? && ForItself(call) ==> call.pc.verdict.labelSeen || h.awaitsLabel)
  }

  lemma StepSees(h: Hooks, log: seq<Crumb>, labelled: bool, call: Call)
    requires (h.restoresOwned || h.awaitsLabel) && Sees(h, call)
    ensures Sees(h, call.(pc := Step(h, log, labelled, call).2))
  {
  }

  lemma {:induction false} RunSees(h: Hooks, actions: seq<Action>)
    requires h.restoresOwned || h.awaitsLabel
    ensures forall id :: id in Run(h, actions).calls ==> Sees(h, Run(h, actions).calls[id])
  {
    if actions != [] {
      RunSees(h, actions[..|actions| - 1]);
      var s, a := Run(h, actions[..|actions| - 1]), actions[|actions| - 1];
      var t := Next(h, s, a);
      forall id | id in t.calls ensures Sees(h, t.calls[id]) {
        if id in s.calls && a == Act(id) {
          StepSees(h, s.log, s.labelled, s.calls[id]);
        }
      }
    }
  }

  /** The call has the label down as seen. */
  predicate MarksSeen(pc: Pc) {
    match pc
    case CheckOwned(v) => v.labelSeen
    case RestoreOwned(v) => v.labelSeen
    case AddLabel(v) => v.labelSeen
    case Finish(v) => v.labelSeen
    case Claimed(v) => v.labelSeen
    case _ => false
  }

  lemma StepMarks(h: Hooks, log: seq<Crumb>, labelled: bool, call: Call)
    requires MarksSeen(Step(h, log, labelled, call).2) && !MarksSeen(call.pc)
    ensures Step(h, log, labelled, call).1
  {
  }

  /** The mark is honest: the label was in place at a moment inside the call. */
  lemma {:induction false} SeenWasLabelled(h: Hooks, actions: seq<Action>, id: nat)
    requires id in Run(h, actions).calls && MarksSeen(Run(h, actions).calls[id].pc)
    ensures exists n :: 0 <= n <= |actions| && Run(h, actions[..n]).labelled && id in Run(h, actions[..n]).calls
  {
    var front, a := actions[..|actions| - 1], actions[|actions| - 1];
    var s := Run(h, front);
    if id in s.calls && MarksSeen(s.calls[id].pc) {
      SeenWasLabelled(h, front, id);
      var n :| 0 <= n <= |front| && Run(h, front[..n]).labelled && id in Run(h, front[..n]).calls;
      assert front[..n] == actions[..n];
    } else {
      assert a == Act(id);
      StepMarks(h, s.log, s.labelled, s.calls[id]);
      assert actions[..|actions|] == actions;
    }
  }

  lemma PostedAndFailed(h: Hooks) returns (s: State)
    ensures Reachable(h, true, s) && s.log == [Claim("1")] && Owner(s.log) == Some("1")
    ensures !s.labelled && 2 !in s.calls
  {
    InitialReachable(h, true);
    s := ClaimPosts(h, true, INITIAL, 1, "1");
    OwnerOfExtended([], Claim("1"));
    ReachableStep(h, true, s, Fail(1, false));
    s := Next(h, s, Fail(1, false));
  }

  /** A claim that failed after posting, retried: the retry finds its own epoch open and
      is told it owns an item that never carried the label. */
  lemma ToldUnlabelled(h: Hooks) returns (s: State)
    requires !h.restoresOwned && !h.awaitsLabel
    ensures Reachable(h, true, s) && !ToldSawLabel(s) && !s.labelled
  {
    s := PostedAndFailed(h);
    s := Starts(h, true, s, 2, ClaimItem("1"));
    s := Acts(h, true, s, 2, Finish(Verdict("1", 1, false, false)));
    s := Acts(h, true, s, 2, Claimed(Verdict("1", 1, false, false)));
    assert Told(s.calls[2]);
  }

  /** A run told it owns the item has seen the label in place, in every interleaving,
      exactly for the providers that restore an owned label or wait for it: GitHub, and
      neither Azure DevOps nor Gitea. */
  lemma ToldSawLabelIff(h: Hooks)
    ensures (forall s :: Reachable(h, false, s) ==> ToldSawLabel(s)) <==> h.restoresOwned || h.awaitsLabel
  {
    if h.restoresOwned || h.awaitsLabel {
      forall s | Reachable(h, false, s) ensures ToldSawLabel(s) {
        var actions :| Run(h, actions) == s;
        RunSees(h, actions);
      }
    } else {
      var s := ToldUnlabelled(h);
      var actions :| Run(h, actions) == s;
      assert Reachable(h, false, s);
    }
  }

  /** What each provider's hooks give: GitHub everything, Azure DevOps all but the label
      seen by a retried claim, Gitea label safety alone. */
  lemma ProviderGuarantees(s: State)
    ensures Reachable(GITHUB, false, s) ==> AtMostOneOwner(s) && ToldSawLabel(s)
    ensures Reachable(ADO, false, s) ==> AtMostOneOwner(s)
    ensures LabelSafe(GITHUB, true) && LabelSafe(GITEA, true) && LabelSafe(ADO, true)
    ensures exists t :: Reachable(GITEA, false, t) && !AtMostOneOwner(t)
    ensures exists t :: Reachable(ADO, false, t) && !ToldSawLabel(t)
    ensures exists t :: Reachable(GITEA, false, t) && !ToldSawLabel(t)
  {
    MutualExclusionIff(GITHUB, false);
    MutualExclusionIff(GITEA, false);
    MutualExclusionIff(ADO, false);
    ToldSawLabelIff(GITHUB);
    ToldSawLabelIff(GITEA);
    ToldSawLabelIff(ADO);
    LabelSafeIff(GITHUB, true);
    LabelSafeIff(GITEA, true);
    LabelSafeIff(ADO, true);
  }
}
