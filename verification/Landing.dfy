/** Landing a pull request through Azure DevOps auto-complete: what the poll and the cancel
    report, against the server's own completion job.

    The server queues the completion of an armed pull request, which consumes the arming,
    and later completes or fails it. Nobody re-arms, reactivates or completes the pull
    request directly. */
module Landing {
  import opened Text

  datatype Status = Active | Completed | Abandoned

  datatype MergeStatus = NotSet | Queued | Succeeded | Conflicts | RejectedByPolicy | Failure

  /** autoCompleteSetBy as a read returns it: absent, an object without an identity (an
      empty id or the all-zero one), or the identity that armed it. */
  datatype SetBy = Absent | NoIdentity | Armed

  datatype Detail = Detail(status: Status, setBy: SetBy, queueTimeSet: bool, mergeStatus: MergeStatus)

  /** The server's state: what reads show, and whether a completion job is running. */
  datatype State = State(detail: Detail, completing: bool)

  datatype Action =
    | QueueCompletion
    | FinishCompletion
    | FailCompletion(reason: MergeStatus)
    | ClearArming
    | Abandon
    | RecomputeMerge(preview: MergeStatus)

  predicate Failing(m: MergeStatus) {
    m.Failure? || m.RejectedByPolicy? || m.Conflicts?
  }

  /** One step of the server; one that is not possible changes nothing. */
  function Next(s: State, a: Action): State {
    var d := s.detail;
    match a
    case QueueCompletion =>
      if d.status.Active? && d.setBy.Armed? then State(Detail(Active, Absent, true, Queued), true) else s
    case FinishCompletion =>
      if s.completing then State(d.(status := Completed, mergeStatus := Succeeded), false) else s
    case FailCompletion(reason) =>
      if s.completing then State(d.(mergeStatus := reason), false) else s
    case ClearArming => if d.status.Active? && d.setBy.Armed? then s.(detail := d.(setBy := Absent)) else s
    case Abandon => if d.status.Active? && !s.completing then s.(detail := d.(status := Abandoned)) else s
    case RecomputeMerge(preview) =>
      if d.status.Active? && !s.completing then s.(detail := d.(mergeStatus := preview)) else s
  }

  function Run(s: State, actions: seq<Action>): State {
    if actions == [] then s else Next(Run(s, actions[..|actions| - 1]), actions[|actions| - 1])
  }

  /** A running completion is visible, and an arming never outlives it. keepsEmpty is
      whether the server shows a cleared auto-complete as an object without an identity. */
  predicate Coherent(s: State, keepsEmpty: bool) {
    && (s.completing ==>
          s.detail.status.Active? && s.detail.queueTimeSet && !Failing(s.detail.mergeStatus) && !s.detail.setBy.Armed?)
    && (s.detail.setBy.NoIdentity? ==> keepsEmpty)
  }

  /** No run of the server completes the pull request from here. */
  ghost predicate NeverCompletes(s: State) {
    forall actions :: !Run(s, actions).detail.status.Completed?
  }

  predicate Dead(s: State) {
    !s.completing && !s.detail.status.Completed? && (s.detail.status.Abandoned? || !s.detail.setBy.Armed?)
  }

  lemma {:induction false} DeadForever(s: State, actions: seq<Action>)
    requires Dead(s)
    ensures Dead(Run(s, actions))
  {
    if actions != [] {
      DeadForever(s, actions[..|actions| - 1]);
    }
  }

  lemma {:induction false} CoherentForever(s: State, keepsEmpty: bool, actions: seq<Action>)
    requires Coherent(s, keepsEmpty)
    ensures Coherent(Run(s, actions), keepsEmpty)
  {
    if actions != [] {
      CoherentForever(s, keepsEmpty, actions[..|actions| - 1]);
    }
  }

  /** A pull request can still complete exactly when a completion runs, or it is armed and
      active, or it has completed. */
  lemma NeverCompletesIffDead(s: State)
    requires s.completing ==> s.detail.status.Active?
    ensures NeverCompletes(s) <==> Dead(s)
  {
    if Dead(s) {
      forall actions ensures !Run(s, actions).detail.status.Completed? {
        DeadForever(s, actions);
      }
    } else if s.detail.status.Completed? {
      assert Run(s, []).detail.status.Completed?;
    } else if s.completing {
      assert [FinishCompletion][..0] == [];
      assert Run(s, [FinishCompletion]) == Next(Run(s, []), FinishCompletion);
    } else {
      var both := [QueueCompletion, FinishCompletion];
      assert both[..1] == [QueueCompletion] && [QueueCompletion][..0] == [];
      assert Run(s, [QueueCompletion]) == Next(Run(s, []), QueueCompletion);
      assert Run(s, both) == Next(Run(s, [QueueCompletion]), FinishCompletion);
    }
  }

  // ---------------------------------------------------------------- the poll

  datatype Poll = Merged | Evicted | Pending

  /** adoCompletionInFlight. */
  predicate InFlight(d: Detail) {
    d.queueTimeSet && !Failing(d.mergeStatus)
  }

  /** PollMergeQueueEntry. */
  function PollEntry(d: Detail): Poll {
    if d.status.Completed? then Merged
    else if d.status.Abandoned? then Evicted
    else if !d.setBy.Absent? || InFlight(d) then Pending
    else Evicted
  }

  /** The poll is honest: Evicted is never reported for a pull request that completes
      later, and Merged only for one that has. */
  lemma PollIsHonest(s: State, keepsEmpty: bool)
    requires Coherent(s, keepsEmpty)
    ensures PollEntry(s.detail).Evicted? ==> NeverCompletes(s)
    ensures PollEntry(s.detail).Merged? <==> s.detail.status.Completed?
  {
    NeverCompletesIffDead(s);
  }

  /** A pull request that will never complete is reported Evicted exactly when it is
      abandoned or shows neither an auto-complete object nor a queue time whose merge status
      has not failed. */
  lemma PollEvictsIff(s: State, keepsEmpty: bool)
    requires Coherent(s, keepsEmpty) && NeverCompletes(s)
    ensures PollEntry(s.detail).Evicted? <==>
            s.detail.status.Abandoned? ||
            (!s.detail.setBy.NoIdentity? && !QueuedAndNotFailed(s.detail))
  {
    NeverCompletesIffDead(s);
  }

  /** Pending, on the other hand, does not promise a landing: once a failed completion's
      merge preview has been recomputed, the poll reports Pending for good. */
  lemma FailedCompletionCanPollPending(s: State)
    requires s.completing && Coherent(s, false)
    ensures var t := Run(s, [FailCompletion(Conflicts), RecomputeMerge(Succeeded)]);
            PollEntry(t.detail).Pending? && NeverCompletes(t)
  {
    var both := [FailCompletion(Conflicts), RecomputeMerge(Succeeded)];
    assert both[..1] == [FailCompletion(Conflicts)] && both[..1][..0] == [];
    assert Run(s, both[..1]) == Next(Run(s, []), FailCompletion(Conflicts));
    var t := Run(s, both);
    assert t == Next(Run(s, both[..1]), RecomputeMerge(Succeeded));
    CoherentForever(s, false, both);
    NeverCompletesIffDead(t);
  }

  // ---------------------------------------------------------------- the cancel

  datatype Cancel = Cancelled | NotArmed | LandedBefore | CompletionQueued | StillArmed | RequestFailed

  /** adoLandingDisarmable: why a landing can no longer be disarmed, if so. */
  function Blocked(d: Detail): Option<Cancel> {
    if d.status.Completed? then Some(LandedBefore)
    else if d.status.Active? && d.setBy.Absent? && InFlight(d) then Some(CompletionQueued)
    else None
  }

  /** The cancel request: it clears the arming of an active pull request and recalls
      nothing that is already running. */
  function Disarmed(s: State, keepsEmpty: bool): State {
    if s.detail.status.Active? then s.(detail := s.detail.(setBy := if keepsEmpty then NoIdentity else Absent))
    else s
  }

  /** CancelAutoComplete, with the server's own steps between its requests: a read, the
      cancel, and a read to confirm it. */
  function CancelAutoComplete(
    s: State, keepsEmpty: bool, before: seq<Action>, after: seq<Action>, fails: bool): (Cancel, State)
  {
    if Blocked(s.detail).Some? then (Blocked(s.detail).value, s)
    else if !s.detail.status.Active? || s.detail.setBy.Absent? then (NotArmed, s)
    else
      var patched := Run(s, before);
      if fails then (RequestFailed, patched)
      else
        var confirmed := Run(Disarmed(patched, keepsEmpty), after);
        if Blocked(confirmed.detail).Some? then (Blocked(confirmed.detail).value, confirmed)
        else if confirmed.detail.setBy.Armed? then (StillArmed, confirmed)
        else (Cancelled, confirmed)
  }

  ghost predicate QueuedAndNotFailed(d: Detail) {
    d.queueTimeSet && d.mergeStatus != Failure && d.mergeStatus != RejectedByPolicy && d.mergeStatus != Conflicts
  }

  /** In every run of the server around a cancel, a pull request reported Cancelled never
      completes. */
  ghost predicate CancelIsHonest(keepsEmpty: bool) {
    forall s, before, after, fails | Coherent(s, keepsEmpty) ::
      CancelAutoComplete(s, keepsEmpty, before, after, fails).0 == Cancelled ==>
        NeverCompletes(CancelAutoComplete(s, keepsEmpty, before, after, fails).1)
  }

  lemma CancelledIsDead(s: State, before: seq<Action>, after: seq<Action>, fails: bool)
    requires Coherent(s, false)
    ensures var (outcome, t) := CancelAutoComplete(s, false, before, after, fails);
            && (outcome == Cancelled ==> NeverCompletes(t))
            && (outcome == NotArmed ==> t == s && NeverCompletes(t))
            && (s.detail.status == Completed ==> outcome == LandedBefore && t == s)
            && (outcome != RequestFailed ==> (outcome == LandedBefore <==> t.detail.status == Completed))
            && (outcome == NotArmed <==>
                  || s.detail.status == Abandoned
                  || (s.detail.status == Active && s.detail.setBy == Absent && !QueuedAndNotFailed(s.detail)))
            && (s.detail.status == Active && s.detail.setBy == Absent && QueuedAndNotFailed(s.detail) ==>
                  outcome == CompletionQueued && t == s)
            && (outcome == StillArmed ==> t.detail.setBy == Armed)
            && (outcome == RequestFailed ==> fails)
            && (outcome == CompletionQueued ==> t.detail.status == Active && QueuedAndNotFailed(t.detail))
  {
    CoherentForever(s, false, before);
    CoherentForever(Disarmed(Run(s, before), false), false, after);
    NeverCompletesIffDead(CancelAutoComplete(s, false, before, after, fails).1);
  }

  /** Undisturbed, the cancel of an armed pull request disarms it, and reports so exactly
      when no queue time of an earlier completion makes it look in flight. */
  lemma UndisturbedCancel(s: State)
    requires Coherent(s, false) && s.detail.status.Active? && s.detail.setBy.Armed?
    ensures var (outcome, t) := CancelAutoComplete(s, false, [], [], false);
            && t == s.(detail := s.detail.(setBy := Absent)) && NeverCompletes(t)
            && (outcome == Cancelled <==> !QueuedAndNotFailed(s.detail))
            && (outcome == CompletionQueued <==> QueuedAndNotFailed(s.detail))
  {
    NeverCompletesIffDead(CancelAutoComplete(s, false, [], [], false).1);
  }

  /** EnqueuePullRequest's effect: it arms an active pull request and clears nothing. */
  function Rearmed(s: State): State {
    if s.detail.status.Active? then s.(detail := s.detail.(setBy := Armed)) else s
  }

  const QUEUED_AND_FAILED := [QueueCompletion, FailCompletion(Conflicts), RecomputeMerge(Succeeded)]

  /** A completion is queued and fails, its merge preview is recomputed, and the pull request
      is armed again: the cancel disarms it and reports a queued completion. */
  lemma StaleQueueTimeHidesCancel()
    ensures var s := Rearmed(Run(State(Detail(Active, Armed, false, NotSet), false), QUEUED_AND_FAILED));
            && Coherent(s, false)
            && CancelAutoComplete(s, false, [], [], false).0 == CompletionQueued
            && NeverCompletes(CancelAutoComplete(s, false, [], [], false).1)
  {
    var s := State(Detail(Active, Armed, false, NotSet), false);
    var all := QUEUED_AND_FAILED;
    assert all[..2][..1] == all[..1] && all[..1][..0] == [];
    assert Run(s, all[..1]) == State(Detail(Active, Absent, true, Queued), true);
    assert Run(s, all[..2]) == State(Detail(Active, Absent, true, Conflicts), false);
    assert Run(s, all) == State(Detail(Active, Absent, true, Succeeded), false);
    UndisturbedCancel(Rearmed(Run(s, all)));
  }

  /** The completion is queued just before the cancel request: shown as an object without
      an identity, the cleared arming hides the running completion from the re-read. */
  lemma EmptyIdentityHidesCompletion() returns (s: State, before: seq<Action>)
    ensures Coherent(s, true)
    ensures CancelAutoComplete(s, true, before, [], false).0 == Cancelled
    ensures !NeverCompletes(CancelAutoComplete(s, true, before, [], false).1)
  {
    s, before := State(Detail(Active, Armed, false, NotSet), false), [QueueCompletion];
    assert before[..0] == [];
    assert Run(s, before) == Next(Run(s, []), QueueCompletion);
    NeverCompletesIffDead(CancelAutoComplete(s, true, before, [], false).1);
  }

  /** The re-read the cancel reports Cancelled on. */
  predicate ReadsCancelled(d: Detail) {
    Blocked(d).None? && !d.setBy.Armed?
  }

  /** On the re-read itself: every state that shows it never completes exactly when it is not
      an active pull request with an empty identity that looks in flight. */
  lemma CancelledReadIsHonestIff(d: Detail)
    requires ReadsCancelled(d)
    ensures (forall s: State :: s.detail == d && Coherent(s, true) ==> NeverCompletes(s))
            <==> !(d.status.Active? && d.setBy.NoIdentity? && QueuedAndNotFailed(d))
  {
    if d.status.Active? && d.setBy.NoIdentity? && InFlight(d) {
      var s := State(d, true);
      NeverCompletesIffDead(s);
      assert Coherent(s, true) && !NeverCompletes(s);
    } else {
      forall s: State | s.detail == d && Coherent(s, true) ensures NeverCompletes(s) {
        NeverCompletesIffDead(s);
      }
    }
  }

  /** Cancelled is honest exactly when the server shows a cleared auto-complete as absent,
      although the code also accepts the empty identity as cleared. */
  lemma CancelIsHonestIff(keepsEmpty: bool)
    ensures CancelIsHonest(keepsEmpty) <==> !keepsEmpty
  {
    if keepsEmpty {
      var s, before := EmptyIdentityHidesCompletion();
    } else {
      forall s, before, after, fails | Coherent(s, keepsEmpty)
        ensures CancelAutoComplete(s, keepsEmpty, before, after, fails).0 == Cancelled ==>
                  NeverCompletes(CancelAutoComplete(s, keepsEmpty, before, after, fails).1)
      {
        CancelledIsDead(s, before, after, fails);
      }
    }
  }
}
