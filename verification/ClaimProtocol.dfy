/** The claim and release protocol as many runs execute it at once on one work item.

    A run posts a breadcrumb, reads the thread back to learn who won, and mirrors
    ownership in a label. The model is a state machine: each hook call of
    claimWithProtocol and releaseClaimWithProtocol is one atomic step on the shared
    thread and label, the steps of any number of calls interleave freely, and any call
    may fail at any step, with or without its write having landed. The thread holds the
    marker author's own breadcrumbs; Election shows that no other comment matters. */
module ClaimProtocol {
  import opened Text
  import opened Election

  /** Where the providers' hooks differ: restoresOwned is restoreOwnedLabel being set,
      assumesMissing is missingBreadcrumbWinner, awaitsLabel is waitForClaimLabel,
      readsItemFirst is readItemBeforeBreadcrumb, restoresReleased is restoreLabel being
      set. */
  datatype Hooks = Hooks(
    restoresOwned: bool, assumesMissing: bool, awaitsLabel: bool, readsItemFirst: bool, restoresReleased: bool)

  const GITHUB := Hooks(true, false, true, true, true)
  const GITEA := Hooks(false, true, false, true, true)
  const ADO := Hooks(false, false, false, false, true)

  datatype Request =
    | ClaimItem(run: string)
    | ReleaseItem(run: string, expected: Option<string>, ledgerAuthorized: bool)

  /** A claim's verdict: the winner, the length of the thread it was read at, whether it
      was assumed rather than read, and whether the call has seen the label in place. */
  datatype Verdict = Verdict(winner: string, at: nat, assumed: bool, labelSeen: bool)

  datatype Pc =
    // claimWithProtocol
    | ReadWinner
    | CheckOwned(verdict: Verdict)
    | RestoreOwned(verdict: Verdict)
    | PostClaim
    | ReadBack(posted: nat)
    | AddLabel(verdict: Verdict)
    | Finish(verdict: Verdict)
    | Claimed(verdict: Verdict)
    // releaseClaimWithProtocol
    | Authorize
    | ReadItem(winner: Option<string>)
    | PostRelease(released: string, hadLabel: bool)
    | ReadItemAfter
    | Recheck(hadLabel: bool)
    | RemoveLabel
    | RecheckRemoved
    | RestoreLabel
    | Released
    | Refused
    // any call
    | Failed(last: Pc)

  datatype Call = Call(request: Request, since: nat, pc: Pc)

  datatype State = State(log: seq<Crumb>, labelled: bool, calls: map<nat, Call>)

  datatype Action =
    | Start(id: nat, request: Request)
    | Act(id: nat)
    | Fail(id: nat, landed: bool)
    | PostNote
    | LabelByHand

  const INITIAL := State([], false, map[])

  predicate Settled(pc: Pc) {
    pc.Claimed? || pc.Released? || pc.Refused? || pc.Failed?
  }

  /** authorizeClaimRelease. */
  predicate MayRelease(request: Request, winner: Option<string>)
    requires request.ReleaseItem?
  {
    winner.Some? ==>
      && (request.expected.Some? ==> winner == request.expected)
      && (winner.value == request.run || request.ledgerAuthorized)
  }

  /** What the release does once its breadcrumb is out: look again, or go to the label. */
  function AfterBreadcrumb(request: Request, hadLabel: bool): Pc
    requires request.ReleaseItem?
  {
    if request.expected.Some? then Recheck(hadLabel)
    else if hadLabel then RemoveLabel
    else Released
  }

  /** One step of a claim. */
  function ClaimStep(h: Hooks, log: seq<Crumb>, labelled: bool, run: string, pc: Pc): (seq<Crumb>, bool, Pc) {
    var owner := Owner(log);
    match pc
    case ReadWinner =>
      if owner.None? then (log, labelled, PostClaim)
      else
        var verdict := Verdict(owner.value, |log|, false, false);
        (log, labelled, if owner.value == run && h.restoresOwned then CheckOwned(verdict) else Finish(verdict))
    case CheckOwned(v) => (log, labelled, if labelled then Finish(v.(labelSeen := true)) else RestoreOwned(v))
    case RestoreOwned(v) => (log, true, Finish(v.(labelSeen := true)))
    case PostClaim => (log + [Claim(run)], labelled, ReadBack(|log|))
    case ReadBack(_) =>
      if owner.None? then
        if h.assumesMissing then (log, labelled, AddLabel(Verdict(run, |log|, true, false)))
        else (log, labelled, Failed(pc))
      else
        var verdict := Verdict(owner.value, |log|, false, false);
        (log, labelled, if owner.value == run then AddLabel(verdict) else Finish(verdict))
    case AddLabel(v) => (log, true, Finish(v.(labelSeen := true)))
    case Finish(v) =>
      if h.awaitsLabel && v.winner == run then
        (log, labelled, if labelled then Claimed(v.(labelSeen := true)) else pc)
      else (log, labelled, Claimed(v))
    case _ => (log, labelled, pc)
  }

  /** One step of a release. */
  function ReleaseStep(h: Hooks, log: seq<Crumb>, labelled: bool, request: Request, pc: Pc): (seq<Crumb>, bool, Pc)
    requires request.ReleaseItem?
  {
    var owner := Owner(log);
    match pc
    case Authorize =>
      if !MayRelease(request, owner) then (log, labelled, Refused)
      else if h.readsItemFirst then (log, labelled, ReadItem(owner))
      else if owner.Some? then (log, labelled, PostRelease(owner.value, false))
      else (log, labelled, ReadItemAfter)
    case ReadItem(winner) =>
      (log, labelled, if winner.Some? then PostRelease(winner.value, labelled) else AfterBreadcrumb(request, labelled))
    case PostRelease(released, hadLabel) =>
      (log + [Release(released)], labelled,
       if h.readsItemFirst then AfterBreadcrumb(request, hadLabel) else ReadItemAfter)
    case ReadItemAfter => (log, labelled, AfterBreadcrumb(request, labelled))
    case Recheck(hadLabel) =>
      (log, labelled, if owner.None? && hadLabel then RemoveLabel else Released)
    case RemoveLabel =>
      (log, false, if request.expected.Some? && h.restoresReleased then RecheckRemoved else Released)
    case RecheckRemoved => (log, labelled, if owner.Some? then RestoreLabel else Released)
    case RestoreLabel => (log, true, Released)
    case _ => (log, labelled, pc)
  }

  /** One step of one call. */
  function Step(h: Hooks, log: seq<Crumb>, labelled: bool, call: Call): (seq<Crumb>, bool, Pc) {
    if call.request.ClaimItem? then ClaimStep(h, log, labelled, call.request.run, call.pc)
    else ReleaseStep(h, log, labelled, call.request, call.pc)
  }

  function FirstPc(request: Request): Pc {
    if request.ClaimItem? then ReadWinner else Authorize
  }

  /** One step of the system. An action naming no such call changes nothing. */
  function Next(h: Hooks, s: State, a: Action): State {
    match a
    case Start(id, request) =>
      if id in s.calls then s
      else s.(calls := s.calls[id := Call(request, |s.log|, FirstPc(request))])
    case Act(id) =>
      if id !in s.calls || Settled(s.calls[id].pc) then s
      else
        var (log, labelled, pc) := Step(h, s.log, s.labelled, s.calls[id]);
        State(log, labelled, s.calls[id := s.calls[id].(pc := pc)])
    case Fail(id, landed) =>
      if id !in s.calls || Settled(s.calls[id].pc) then s
      else
        var (log, labelled, _) := Step(h, s.log, s.labelled, s.calls[id]);
        var failed := s.calls[id := s.calls[id].(pc := Failed(s.calls[id].pc))];
        if landed then State(log, labelled, failed) else s.(calls := failed)
    case PostNote => s.(log := s.log + [Note])
    case LabelByHand => s.(labelled := true)
  }

  function Run(h: Hooks, actions: seq<Action>): State {
    if actions == [] then INITIAL
    else Next(h, Run(h, actions[..|actions| - 1]), actions[|actions| - 1])
  }

  /** A release pinned to the run it expects to find holding the claim. */
  predicate Pinned(a: Action) {
    a.Start? && a.request.ReleaseItem? ==> a.request.expected.Some?
  }

  /** A state some interleaving of calls ends in; with pinnedOnly, one in which every
      release names the run it expects. */
  ghost predicate Reachable(h: Hooks, pinnedOnly: bool, s: State) {
    exists actions :: Run(h, actions) == s && (pinnedOnly ==> forall a :: a in actions ==> Pinned(a))
  }

  lemma ReachableStep(h: Hooks, pinnedOnly: bool, s: State, a: Action)
    requires Reachable(h, pinnedOnly, s) && (pinnedOnly ==> Pinned(a))
    ensures Reachable(h, pinnedOnly, Next(h, s, a))
  {
    var actions :| Run(h, actions) == s && (pinnedOnly ==> forall a :: a in actions ==> Pinned(a));
    assert (actions + [a])[..|actions|] == actions;
    assert Run(h, actions + [a]) == Next(h, s, a);
  }

  lemma InitialReachable(h: Hooks, pinnedOnly: bool)
    ensures Reachable(h, pinnedOnly, INITIAL)
  {
    assert Run(h, []) == INITIAL;
  }

  // ---------------------------------------------------------------- mutual exclusion

  /** Call id has been told its run owns the item, and no release has named that run
      since the thread it was told from. */
  predicate ToldOwner(s: State, id: nat, run: string) {
    && id in s.calls
    && s.calls[id].request == ClaimItem(run)
    && s.calls[id].pc.Claimed?
    && s.calls[id].pc.verdict.winner == run
    && s.calls[id].pc.verdict.at <= |s.log|
    && Release(run) !in s.log[s.calls[id].pc.verdict.at..]
  }

  ghost predicate AtMostOneOwner(s: State) {
    forall id, run, id', run' :: ToldOwner(s, id, run) && ToldOwner(s, id', run') ==> run == run'
  }

  function VerdictOf(pc: Pc): Option<Verdict> {
    match pc
    case CheckOwned(v) => Some(v)
    case RestoreOwned(v) => Some(v)
    case AddLabel(v) => Some(v)
    case Finish(v) => Some(v)
    case Claimed(v) => Some(v)
    case _ => None
  }

  /** A verdict is the election's answer at one moment inside the call, unless assumed. */
  predicate GoodVerdict(h: Hooks, log: seq<Crumb>, call: Call) {
    var v := VerdictOf(call.pc);
    v.Some? ==>
      && call.since <= v.value.at <= |log|
      && (v.value.assumed ==> h.assumesMissing && Owner(log[..v.value.at]).None?)
      && (!v.value.assumed ==> Owner(log[..v.value.at]) == Some(v.value.winner))
  }

  /** A claimer that has posted finds its breadcrumb where it put it. */
  predicate GoodPost(log: seq<Crumb>, call: Call) {
    call.pc.ReadBack? && call.request.ClaimItem? ==>
      && call.since <= call.pc.posted < |log|
      && log[call.pc.posted] == Claim(call.request.run)
  }

  ghost predicate Honest(h: Hooks, s: State) {
    forall id :: id in s.calls ==>
      && s.calls[id].since <= |s.log|
      && GoodVerdict(h, s.log, s.calls[id])
      && GoodPost(s.log, s.calls[id])
  }

  lemma GoodVerdictGrows(h: Hooks, log: seq<Crumb>, more: seq<Crumb>, call: Call)
    requires GoodVerdict(h, log, call)
    ensures GoodVerdict(h, log + more, call)
  {
    var v := VerdictOf(call.pc);
    if v.Some? {
      assert (log + more)[..v.value.at] == log[..v.value.at];
    }
  }

  /** The thread only grows, by at most the breadcrumb of the acting call. */
  lemma ThreadGrows(h: Hooks, s: State, a: Action) returns (more: seq<Crumb>)
    ensures Next(h, s, a).log == s.log + more
  {
    var log := Next(h, s, a).log;
    more := log[|s.log|..];
  }

  lemma ClaimIsHonest(h: Hooks, log: seq<Crumb>, labelled: bool, call: Call)
    requires call.request.ClaimItem? && call.since <= |log| && GoodVerdict(h, log, call) && GoodPost(log, call)
    ensures var (log', labelled', pc) := ClaimStep(h, log, labelled, call.request.run, call.pc);
            GoodVerdict(h, log', call.(pc := pc)) && GoodPost(log', call.(pc := pc))
  {
    assert log[..|log|] == log;
  }

  lemma ReleaseIsHonest(h: Hooks, log: seq<Crumb>, labelled: bool, call: Call)
    requires call.request.ReleaseItem? && GoodVerdict(h, log, call)
    ensures var (log', labelled', pc) := ReleaseStep(h, log, labelled, call.request, call.pc);
            GoodVerdict(h, log', call.(pc := pc)) && GoodPost(log', call.(pc := pc))
  {
  }

  lemma StepIsHonest(h: Hooks, log: seq<Crumb>, labelled: bool, call: Call)
    requires call.since <= |log| && GoodVerdict(h, log, call) && GoodPost(log, call)
    ensures var (log', labelled', pc) := Step(h, log, labelled, call);
            GoodVerdict(h, log', call.(pc := pc)) && GoodPost(log', call.(pc := pc))
  {
    if call.request.ClaimItem? {
      ClaimIsHonest(h, log, labelled, call);
    } else {
      ReleaseIsHonest(h, log, labelled, call);
    }
  }

  lemma HonestStep(h: Hooks, s: State, a: Action)
    requires Honest(h, s)
    ensures Honest(h, Next(h, s, a))
  {
    var t := Next(h, s, a);
    var more := ThreadGrows(h, s, a);
    forall id | id in t.calls
      ensures t.calls[id].since <= |t.log| && GoodVerdict(h, t.log, t.calls[id]) && GoodPost(t.log, t.calls[id])
    {
      if id in s.calls {
        GoodVerdictGrows(h, s.log, more, s.calls[id]);
        if a == Act(id) && !Settled(s.calls[id].pc) {
          StepIsHonest(h, s.log, s.labelled, s.calls[id]);
        }
      }
    }
  }

  lemma {:induction false} RunIsHonest(h: Hooks, actions: seq<Action>)
    ensures Honest(h, Run(h, actions))
  {
    if actions != [] {
      RunIsHonest(h, actions[..|actions| - 1]);
      HonestStep(h, Run(h, actions[..|actions| - 1]), actions[|actions| - 1]);
    }
  }

  lemma ReachableHonest(h: Hooks, s: State)
    requires Reachable(h, false, s)
    ensures Honest(h, s)
  {
    var actions :| Run(h, actions) == s;
    RunIsHonest(h, actions);
  }

  /** Linearizability: whatever a finished claim reports as the winner was the elected
      owner at a moment between the call's first step and its last, unless the winner
      was assumed, and then nobody was elected. */
  lemma ClaimLinearizes(h: Hooks, s: State, id: nat)
    requires Reachable(h, false, s)
    requires id in s.calls && s.calls[id].pc.Claimed?
    ensures var v := s.calls[id].pc.verdict;
            && s.calls[id].since <= v.at <= |s.log|
            && (Owner(s.log[..v.at]) == Some(v.winner) <==> !v.assumed)
            && (Owner(s.log[..v.at]).None? <==> v.assumed)
  {
    ReachableHonest(h, s);
  }

  /** A run told it owns the item is the elected owner until a release names it. */
  lemma ToldOwnerIsOwner(h: Hooks, s: State, id: nat, run: string)
    requires Reachable(h, false, s)
    requires ToldOwner(s, id, run) && !s.calls[id].pc.verdict.assumed
    ensures Owner(s.log) == Some(run)
  {
    ReachableHonest(h, s);
    var at := s.calls[id].pc.verdict.at;
    OwnerStable(s.log[..at], s.log[at..], run);
    assert s.log[..at] + s.log[at..] == s.log;
  }

  /** A claim fails for want of its own breadcrumb only when a release was posted
      between its breadcrumb and its read. */
  lemma InvisibleOnlyAfterRelease(h: Hooks, s: State, id: nat)
    requires Reachable(h, false, s)
    requires id in s.calls && s.calls[id].request.ClaimItem? && s.calls[id].pc.ReadBack? && Owner(s.log).None?
    ensures exists k :: s.calls[id].pc.posted < k < |s.log| && s.log[k].Release?
  {
    ReachableHonest(h, s);
    UnownedAfterClaim(s.log, s.calls[id].pc.posted);
  }

  lemma MutualExclusion(h: Hooks, s: State)
    requires Reachable(h, false, s) && !h.assumesMissing
    ensures AtMostOneOwner(s)
  {
    ReachableHonest(h, s);
    forall id, run, id', run' | ToldOwner(s, id, run) && ToldOwner(s, id', run')
      ensures run == run'
    {
      ToldOwnerIsOwner(h, s, id, run);
      ToldOwnerIsOwner(h, s, id', run');
    }
  }

  // ---------------------------------------------------------------- the winner is told

  /** Every call has finished and none has failed. */
  predicate Quiet(s: State) {
    forall id :: id in s.calls ==> Settled(s.calls[id].pc) && !s.calls[id].pc.Failed?
  }

  /** The call posted the claim at p: it is about to read it back, has failed, or holds a
      later verdict for its own run. */
  predicate Follows(call: Call, p: nat, run: string) {
    && call.request == ClaimItem(run)
    && (|| call.pc.Failed?
        || call.pc == ReadBack(p)
        || (VerdictOf(call.pc).Some? && VerdictOf(call.pc).value.winner == run && VerdictOf(call.pc).value.at > p))
  }

  /** The claim that opened the current epoch has its call. */
  ghost predicate Followed(s: State) {
    forall p: nat, run :: Opens(s.log, p, run) ==> exists id :: id in s.calls && Follows(s.calls[id], p, run)
  }

  lemma FollowsOn(h: Hooks, log: seq<Crumb>, labelled: bool, call: Call, p: nat, run: string)
    requires Opens(log, p, run) && Follows(call, p, run)
    ensures Follows(call.(pc := Step(h, log, labelled, call).2), p, run)
  {
    OpenerOwns(log, p, run);
  }

  /** An opener in a longer thread is the claim just posted or was one before. */
  lemma OpensBefore(log: seq<Crumb>, more: seq<Crumb>, p: nat, run: string)
    requires Opens(log + more, p, run) && p < |log|
    ensures Opens(log, p, run)
  {
    assert (log + more)[..p] == log[..p];
    assert (log + more)[p + 1..] == log[p + 1..] + more;
  }

  /** A breadcrumb's own call follows it. */
  lemma PosterFollows(h: Hooks, s: State, a: Action, p: nat, run: string)
    requires Opens(Next(h, s, a).log, p, run) && p >= |s.log|
    ensures exists id :: id in Next(h, s, a).calls && Follows(Next(h, s, a).calls[id], p, run)
  {
    assert a.Act? || a.Fail?;
    assert Follows(Next(h, s, a).calls[a.id], p, run);
  }

  lemma FollowedStep(h: Hooks, s: State, a: Action)
    requires Followed(s)
    ensures Followed(Next(h, s, a))
  {
    var t := Next(h, s, a);
    var more := ThreadGrows(h, s, a);
    forall p: nat, run | Opens(t.log, p, run) ensures exists id :: id in t.calls && Follows(t.calls[id], p, run) {
      if p < |s.log| {
        OpensBefore(s.log, more, p, run);
        var id :| id in s.calls && Follows(s.calls[id], p, run);
        FollowsOn(h, s.log, s.labelled, s.calls[id], p, run);
        assert Follows(t.calls[id], p, run);
      } else {
        PosterFollows(h, s, a, p, run);
      }
    }
  }

  lemma {:induction false} RunIsFollowed(h: Hooks, actions: seq<Action>)
    ensures Followed(Run(h, actions))
  {
    if actions != [] {
      RunIsFollowed(h, actions[..|actions| - 1]);
      FollowedStep(h, Run(h, actions[..|actions| - 1]), actions[|actions| - 1]);
    }
  }

  lemma FollowerIsTold(s: State, id: nat, p: nat, run: string)
    requires Opens(s.log, p, run) && id in s.calls && Follows(s.calls[id], p, run)
    requires s.calls[id].pc.Claimed? && s.calls[id].pc.verdict.at <= |s.log|
    ensures ToldOwner(s, id, run)
  {
    var at := s.calls[id].pc.verdict.at;
    assert s.log[p + 1..] == s.log[p + 1..at] + s.log[at..];
  }

  /** Once every call has finished without error, the elected owner has been told: some claim
      of that run won and nothing has released it since. */
  lemma WinnerIsTold(h: Hooks, s: State, run: string)
    requires Reachable(h, false, s) && Quiet(s) && Owner(s.log) == Some(run)
    ensures exists id :: ToldOwner(s, id, run)
  {
    var p := OwnerHasOpener(s.log, run);
    var id := Follower(h, s, p, run);
    FollowerIsTold(s, id, p, run);
  }

  lemma Follower(h: Hooks, s: State, p: nat, run: string) returns (id: nat)
    requires Reachable(h, false, s) && Quiet(s) && Opens(s.log, p, run)
    ensures id in s.calls && Follows(s.calls[id], p, run)
    ensures s.calls[id].pc.Claimed? && s.calls[id].pc.verdict.at <= |s.log|
  {
    ReachableFollowed(h, s);
    id :| id in s.calls && Follows(s.calls[id], p, run);
    VerdictInThread(h, s, id);
  }

  lemma ReachableFollowed(h: Hooks, s: State)
    requires Reachable(h, false, s)
    ensures Followed(s)
  {
    var actions :| Run(h, actions) == s;
    RunIsFollowed(h, actions);
  }

  lemma VerdictInThread(h: Hooks, s: State, id: nat)
    requires Reachable(h, false, s) && id in s.calls && s.calls[id].pc.Claimed?
    ensures s.calls[id].pc.verdict.at <= |s.log|
  {
    ReachableHonest(h, s);
  }

  /** So exactly one run is recognized as the winner of a held item. */
  lemma ExactlyOneWinner(h: Hooks, s: State, run: string)
    requires Reachable(h, false, s) && Quiet(s) && !h.assumesMissing && Owner(s.log).Some?
    ensures (exists id :: ToldOwner(s, id, run)) <==> Owner(s.log) == Some(run)
  {
    WinnerIsTold(h, s, Owner(s.log).value);
    MutualExclusion(h, s);
  }

  // ---------------------------------------------------------------- undisturbed calls

  /** One step of call id, to pc. */
  lemma Acts(h: Hooks, pinnedOnly: bool, s: State, id: nat, pc: Pc) returns (t: State)
    requires Reachable(h, pinnedOnly, s) && id in s.calls && !Settled(s.calls[id].pc)
    requires Step(h, s.log, s.labelled, s.calls[id]).2 == pc
    ensures Reachable(h, pinnedOnly, t)
    ensures t.log == Step(h, s.log, s.labelled, s.calls[id]).0
    ensures t.labelled == Step(h, s.log, s.labelled, s.calls[id]).1
    ensures t.calls == s.calls[id := s.calls[id].(pc := pc)]
  {
    ReachableStep(h, pinnedOnly, s, Act(id));
    t := Next(h, s, Act(id));
  }

  lemma Starts(h: Hooks, pinnedOnly: bool, s: State, id: nat, request: Request) returns (t: State)
    requires Reachable(h, pinnedOnly, s) && id !in s.calls
    requires pinnedOnly ==> Pinned(Start(id, request))
    ensures Reachable(h, pinnedOnly, t)
    ensures t == s.(calls := s.calls[id := Call(request, |s.log|, FirstPc(request))])
  {
    ReachableStep(h, pinnedOnly, s, Start(id, request));
    t := Next(h, s, Start(id, request));
  }

  /** A claim on a free item, as far as its own breadcrumb. */
  lemma ClaimPosts(h: Hooks, pinnedOnly: bool, s: State, id: nat, run: string) returns (t: State)
    requires Reachable(h, pinnedOnly, s) && Owner(s.log).None? && id !in s.calls
    ensures Reachable(h, pinnedOnly, t)
    ensures t.log == s.log + [Claim(run)] && t.labelled == s.labelled
    ensures t.calls == s.calls[id := Call(ClaimItem(run), |s.log|, ReadBack(|s.log|))]
  {
    t := Starts(h, pinnedOnly, s, id, ClaimItem(run));
    t := Acts(h, pinnedOnly, t, id, PostClaim);
    t := Acts(h, pinnedOnly, t, id, ReadBack(|s.log|));
  }

  /** A claim that reads its own breadcrumb back labels the item and is told it won; one
      that reads no epoch back does the same where the winner is assumed. */
  lemma ClaimFinishes(h: Hooks, pinnedOnly: bool, s: State, id: nat) returns (t: State)
    requires Reachable(h, pinnedOnly, s)
    requires id in s.calls && s.calls[id].request.ClaimItem? && s.calls[id].pc.ReadBack?
    requires if Owner(s.log).None? then h.assumesMissing else Owner(s.log).value == s.calls[id].request.run
    ensures Reachable(h, pinnedOnly, t)
    ensures t.log == s.log && t.labelled
    ensures var verdict := Verdict(s.calls[id].request.run, |s.log|, Owner(s.log).None?, true);
            t.calls == s.calls[id := s.calls[id].(pc := Claimed(verdict))]
  {
    var verdict := Verdict(s.calls[id].request.run, |s.log|, Owner(s.log).None?, false);
    t := Acts(h, pinnedOnly, s, id, AddLabel(verdict));
    t := Acts(h, pinnedOnly, t, id, Finish(verdict.(labelSeen := true)));
    t := Acts(h, pinnedOnly, t, id, Claimed(verdict.(labelSeen := true)));
  }

  /** An authorized release, as far as its own breadcrumb. */
  lemma ReleasePosts(h: Hooks, pinnedOnly: bool, s: State, id: nat, request: Request) returns (t: State)
    requires Reachable(h, pinnedOnly, s) && id !in s.calls && Owner(s.log).Some?
    requires request.ReleaseItem? && (pinnedOnly ==> request.expected.Some?)
    requires request.expected.Some? ==> request.expected == Owner(s.log)
    requires request.run == Owner(s.log).value || request.ledgerAuthorized
    ensures Reachable(h, pinnedOnly, t)
    ensures t.log == s.log + [Release(Owner(s.log).value)] && t.labelled == s.labelled
    ensures t.calls == s.calls[id := Call(request, |s.log|, AfterBreadcrumb(request, s.labelled))]
  {
    t := Starts(h, pinnedOnly, s, id, request);
    t := ReleaseArrives(h, pinnedOnly, t, id, Owner(s.log).value);
    t := ReleaseLeaves(h, pinnedOnly, t, id);
  }

  /** From its first step to its breadcrumb. */
  lemma ReleaseArrives(h: Hooks, pinnedOnly: bool, s: State, id: nat, owner: string) returns (t: State)
    requires Reachable(h, pinnedOnly, s) && Owner(s.log) == Some(owner)
    requires id in s.calls && s.calls[id].pc == Authorize && s.calls[id].request.ReleaseItem?
    requires s.calls[id].request.expected.Some? ==> s.calls[id].request.expected.value == owner
    requires s.calls[id].request.run == owner || s.calls[id].request.ledgerAuthorized
    ensures Reachable(h, pinnedOnly, t) && t.log == s.log && t.labelled == s.labelled
    ensures t.calls == s.calls[id := s.calls[id].(pc := PostRelease(owner, h.readsItemFirst && s.labelled))]
  {
    t := s;
    if h.readsItemFirst {
      t := Acts(h, pinnedOnly, t, id, ReadItem(Some(owner)));
    }
    t := Acts(h, pinnedOnly, t, id, PostRelease(owner, h.readsItemFirst && s.labelled));
  }

  /** From its breadcrumb to the label. */
  lemma ReleaseLeaves(h: Hooks, pinnedOnly: bool, s: State, id: nat) returns (t: State)
    requires Reachable(h, pinnedOnly, s)
    requires id in s.calls && s.calls[id].request.ReleaseItem? && s.calls[id].pc.PostRelease?
    requires s.calls[id].pc.hadLabel == (h.readsItemFirst && s.labelled)
    ensures Reachable(h, pinnedOnly, t)
    ensures t.log == s.log + [Release(s.calls[id].pc.released)] && t.labelled == s.labelled
    ensures t.calls == s.calls[id := s.calls[id].(pc := AfterBreadcrumb(s.calls[id].request, s.labelled))]
  {
    t := s;
    if !h.readsItemFirst {
      t := Acts(h, pinnedOnly, t, id, ReadItemAfter);
    }
    t := Acts(h, pinnedOnly, t, id, AfterBreadcrumb(s.calls[id].request, s.labelled));
  }

  /** A whole claim on a free item: it wins, and the item is labelled. */
  lemma ClaimWins(h: Hooks, pinnedOnly: bool, s: State, id: nat, run: string) returns (t: State)
    requires Reachable(h, pinnedOnly, s) && Owner(s.log).None? && id !in s.calls
    ensures Reachable(h, pinnedOnly, t)
    ensures t.log == s.log + [Claim(run)] && Owner(t.log) == Some(run) && t.labelled
    ensures t.calls == s.calls[id := Call(ClaimItem(run), |s.log|, Claimed(Verdict(run, |s.log| + 1, false, true)))]
  {
    t := ClaimPosts(h, pinnedOnly, s, id, run);
    OwnerOfExtended(s.log, Claim(run));
    t := ClaimFinishes(h, pinnedOnly, t, id);
  }

  /** A whole claim on an item another run holds: it is told that run and changes nothing. */
  lemma ClaimLoses(h: Hooks, pinnedOnly: bool, s: State, id: nat, run: string) returns (t: State)
    requires Reachable(h, pinnedOnly, s) && id !in s.calls && Owner(s.log).Some? && Owner(s.log).value != run
    ensures Reachable(h, pinnedOnly, t) && t.log == s.log && t.labelled == s.labelled
    ensures var verdict := Verdict(Owner(s.log).value, |s.log|, false, false);
            t.calls == s.calls[id := Call(ClaimItem(run), |s.log|, Claimed(verdict))]
  {
    var verdict := Verdict(Owner(s.log).value, |s.log|, false, false);
    t := Starts(h, pinnedOnly, s, id, ClaimItem(run));
    t := Acts(h, pinnedOnly, t, id, Finish(verdict));
    t := Acts(h, pinnedOnly, t, id, Claimed(verdict));
  }

  /** From a first read that finds the run's own epoch open to the end of the label phase. */
  lemma OwnedFinishes(h: Hooks, pinnedOnly: bool, s: State, id: nat) returns (t: State)
    requires Reachable(h, pinnedOnly, s) && id in s.calls && s.calls[id].request.ClaimItem?
    requires s.calls[id].pc == ReadWinner && Owner(s.log) == Some(s.calls[id].request.run)
    ensures Reachable(h, pinnedOnly, t)
    ensures var verdict := Verdict(s.calls[id].request.run, |s.log|, false, h.restoresOwned);
            t == State(s.log, s.labelled || h.restoresOwned, s.calls[id := s.calls[id].(pc := Finish(verdict))])
  {
    var verdict := Verdict(s.calls[id].request.run, |s.log|, false, false);
    if h.restoresOwned {
      t := Acts(h, pinnedOnly, s, id, CheckOwned(verdict));
      t := OwnedChecked(h, pinnedOnly, t, id);
    } else {
      t := Acts(h, pinnedOnly, s, id, Finish(verdict));
    }
  }

  lemma OwnedChecked(h: Hooks, pinnedOnly: bool, s: State, id: nat) returns (t: State)
    requires Reachable(h, pinnedOnly, s) && id in s.calls && s.calls[id].request.ClaimItem?
    requires s.calls[id].pc.CheckOwned?
    ensures Reachable(h, pinnedOnly, t)
    ensures var verdict := s.calls[id].pc.verdict.(labelSeen := true);
            t == State(s.log, true, s.calls[id := s.calls[id].(pc := Finish(verdict))])
  {
    var verdict := s.calls[id].pc.verdict;
    if s.labelled {
      t := Acts(h, pinnedOnly, s, id, Finish(verdict.(labelSeen := true)));
    } else {
      t := Acts(h, pinnedOnly, s, id, RestoreOwned(verdict));
      t := Acts(h, pinnedOnly, t, id, Finish(verdict.(labelSeen := true)));
    }
  }

  /** A whole claim by the run that holds the item, as when a failed claim is retried: it
      posts nothing and is told it owns the item, which is then labelled if it was or if the
      provider restores an owned label. One that only waits for the label needs it there. */
  lemma ClaimRetried(h: Hooks, pinnedOnly: bool, s: State, id: nat, run: string) returns (t: State)
    requires Reachable(h, pinnedOnly, s) && id !in s.calls && Owner(s.log) == Some(run)
    requires h.restoresOwned || s.labelled || !h.awaitsLabel
    ensures Reachable(h, pinnedOnly, t) && t.log == s.log && t.labelled == (s.labelled || h.restoresOwned)
    ensures id in t.calls && t.calls[id].pc.Claimed? && t.calls[id].pc.verdict.winner == run
  {
    t := Starts(h, pinnedOnly, s, id, ClaimItem(run));
    t := OwnedFinishes(h, pinnedOnly, t, id);
    var verdict := t.calls[id].pc.verdict;
    t := Acts(h, pinnedOnly, t, id, Claimed(if h.awaitsLabel then verdict.(labelSeen := true) else verdict));
  }

  /** A pinned release on a thread with no owner, past its breadcrumb, clears the label. */
  lemma PinnedFinishes(h: Hooks, pinnedOnly: bool, s: State, id: nat) returns (t: State)
    requires Reachable(h, pinnedOnly, s) && Owner(s.log).None?
    requires id in s.calls && s.calls[id].request.ReleaseItem? && s.calls[id].request.expected.Some?
    requires s.calls[id].pc == Recheck(s.labelled)
    ensures Reachable(h, pinnedOnly, t)
    ensures t == State(s.log, false, s.calls[id := s.calls[id].(pc := Released)])
  {
    if s.labelled {
      t := Acts(h, pinnedOnly, s, id, RemoveLabel);
      if h.restoresReleased {
        t := Acts(h, pinnedOnly, t, id, RecheckRemoved);
      }
      t := Acts(h, pinnedOnly, t, id, Released);
    } else {
      t := Acts(h, pinnedOnly, s, id, Released);
    }
  }

  /** A whole authorized release, undisturbed: the item is free and unlabelled. */
  lemma ReleaseFrees(h: Hooks, pinnedOnly: bool, s: State, id: nat, request: Request) returns (t: State)
    requires Reachable(h, pinnedOnly, s) && id !in s.calls && Owner(s.log).Some?
    requires request.ReleaseItem? && (pinnedOnly ==> request.expected.Some?)
    requires request.expected.Some? ==> request.expected == Owner(s.log)
    requires request.run == Owner(s.log).value || request.ledgerAuthorized
    ensures Reachable(h, pinnedOnly, t)
    ensures t.log == s.log + [Release(Owner(s.log).value)] && Owner(t.log).None? && !t.labelled
    ensures id in t.calls && t.calls[id] == Call(request, |s.log|, Released)
  {
    t := ReleasePosts(h, pinnedOnly, s, id, request);
    OwnerOfExtended(s.log, Release(Owner(s.log).value));
    if request.expected.Some? {
      t := PinnedFinishes(h, pinnedOnly, t, id);
    } else if s.labelled {
      t := Acts(h, pinnedOnly, t, id, Released);
    }
  }

  /** A pinned release that finds a new owner leaves the label alone, or, if the owner came
      while the label was off, puts it back where the provider can. */
  lemma PinnedSpares(h: Hooks, pinnedOnly: bool, s: State, id: nat) returns (t: State)
    requires Reachable(h, pinnedOnly, s) && Owner(s.log).Some?
    requires id in s.calls && s.calls[id].request.ReleaseItem? && s.calls[id].request.expected.Some?
    requires s.calls[id].pc.Recheck? || s.calls[id].pc.RecheckRemoved?
    ensures Reachable(h, pinnedOnly, t) && t.log == s.log
    ensures t.labelled == (s.labelled || s.calls[id].pc.RecheckRemoved?)
    ensures t.calls == s.calls[id := s.calls[id].(pc := Released)]
  {
    t := s;
    if s.calls[id].pc.RecheckRemoved? {
      t := Acts(h, pinnedOnly, s, id, RestoreLabel);
    }
    t := Acts(h, pinnedOnly, t, id, Released);
  }

  /** A release of an item nobody owns, as after a release that failed past its breadcrumb,
      is never refused: undisturbed, it posts nothing and clears the label. */
  lemma ReleaseOfFree(h: Hooks, pinnedOnly: bool, s: State, id: nat, request: Request) returns (t: State)
    requires Reachable(h, pinnedOnly, s) && id !in s.calls && Owner(s.log).None?
    requires request.ReleaseItem? && (pinnedOnly ==> request.expected.Some?)
    ensures Reachable(h, pinnedOnly, t) && t.log == s.log && !t.labelled
    ensures id in t.calls && t.calls[id] == Call(request, |s.log|, Released)
  {
    t := Starts(h, pinnedOnly, s, id, request);
    t := ReadsFree(h, pinnedOnly, t, id);
    if request.expected.Some? {
      t := PinnedFinishes(h, pinnedOnly, t, id);
    } else if s.labelled {
      t := Acts(h, pinnedOnly, t, id, Released);
    }
  }

  lemma ReadsFree(h: Hooks, pinnedOnly: bool, s: State, id: nat) returns (t: State)
    requires Reachable(h, pinnedOnly, s) && Owner(s.log).None?
    requires id in s.calls && s.calls[id].pc == Authorize && s.calls[id].request.ReleaseItem?
    ensures Reachable(h, pinnedOnly, t) && t.log == s.log && t.labelled == s.labelled
    ensures t.calls == s.calls[id := s.calls[id].(pc := AfterBreadcrumb(s.calls[id].request, s.labelled))]
  {
    t := Acts(h, pinnedOnly, s, id, if h.readsItemFirst then ReadItem(None) else ReadItemAfter);
    t := Acts(h, pinnedOnly, t, id, AfterBreadcrumb(s.calls[id].request, s.labelled));
  }

  // ---------------------------------------------------------------- authority

  /** A refused release found a run holding the item that it may not release: another than
      it expected, or another than its own without the ledger's authority. */
  ghost predicate RefusedFairly(log: seq<Crumb>, call: Call) {
    call.request.ReleaseItem? && call.pc.Refused? ==>
      exists at, run ::
        && call.since <= at <= |log| && Owner(log[..at]) == Some(run)
        && ((call.request.expected.Some? && call.request.expected.value != run)
            || (call.request.run != run && !call.request.ledgerAuthorized))
  }

  ghost predicate AllFair(s: State) {
    forall id :: id in s.calls ==> s.calls[id].since <= |s.log| && RefusedFairly(s.log, s.calls[id])
  }

  lemma FairlyGrows(log: seq<Crumb>, more: seq<Crumb>, call: Call)
    requires RefusedFairly(log, call)
    ensures RefusedFairly(log + more, call)
  {
    if call.request.ReleaseItem? && call.pc.Refused? {
      var at, run :|
        && call.since <= at <= |log| && Owner(log[..at]) == Some(run)
        && ((call.request.expected.Some? && call.request.expected.value != run)
            || (call.request.run != run && !call.request.ledgerAuthorized));
      assert (log + more)[..at] == log[..at];
    }
  }

  lemma StepIsFair(h: Hooks, log: seq<Crumb>, labelled: bool, call: Call)
    requires call.since <= |log| && !Settled(call.pc)
    ensures var (log', _, pc) := Step(h, log, labelled, call); RefusedFairly(log', call.(pc := pc))
  {
    assert log[..|log|] == log;
  }

  lemma FairStep(h: Hooks, s: State, a: Action)
    requires AllFair(s)
    ensures AllFair(Next(h, s, a))
  {
    var t := Next(h, s, a);
    var more := ThreadGrows(h, s, a);
    forall id | id in t.calls ensures t.calls[id].since <= |t.log| && RefusedFairly(t.log, t.calls[id]) {
      if id in s.calls {
        FairlyGrows(s.log, more, s.calls[id]);
        if a == Act(id) && !Settled(s.calls[id].pc) {
          StepIsFair(h, s.log, s.labelled, s.calls[id]);
        }
      }
    }
  }

  lemma {:induction false} RunIsFair(h: Hooks, actions: seq<Action>)
    ensures AllFair(Run(h, actions))
  {
    if actions != [] {
      RunIsFair(h, actions[..|actions| - 1]);
      FairStep(h, Run(h, actions[..|actions| - 1]), actions[|actions| - 1]);
    }
  }

  /** In every interleaving a release is refused only for a run that owned the item at a
      moment inside the call and that the request does not entitle it to release. */
  lemma RefusedOnlyFairly(h: Hooks, s: State, id: nat)
    requires Reachable(h, false, s) && id in s.calls
    requires s.calls[id].request.ReleaseItem? && s.calls[id].pc.Refused?
    ensures exists at, run ::
              && s.calls[id].since <= at <= |s.log| && Owner(s.log[..at]) == Some(run)
              && ((s.calls[id].request.expected.Some? && s.calls[id].request.expected.value != run)
                  || (s.calls[id].request.run != run && !s.calls[id].request.ledgerAuthorized))
  {
    var actions :| Run(h, actions) == s;
    RunIsFair(h, actions);
    assert RefusedFairly(s.log, s.calls[id]);
  }

  /** What entitles a request to post a breadcrumb. */
  predicate Entitled(request: Request, c: Crumb) {
    match c
    case Claim(run) => request == ClaimItem(run)
    case Release(run) =>
      && request.ReleaseItem?
      && (request.expected.Some? ==> request.expected.value == run)
      && (request.run == run || request.ledgerAuthorized)
    case Note => true
  }

  /** Between the call's start and now the run owned the item. */
  ghost predicate OwnedDuring(log: seq<Crumb>, since: nat, run: string) {
    exists at :: since <= at <= |log| && Owner(log[..at]) == Some(run)
  }

  /** The run a release is about to name, if any. */
  function Naming(call: Call): Option<string> {
    match call.pc
    case ReadItem(winner) => winner
    case PostRelease(released, _) => Some(released)
    case _ => None
  }

  /** A release about to post is entitled to, and found its run owning the item. */
  ghost predicate Cleared(log: seq<Crumb>, call: Call) {
    && call.since <= |log|
    && (call.request.ReleaseItem? && Naming(call).Some? ==>
          && Entitled(call.request, Release(Naming(call).value))
          && OwnedDuring(log, call.since, Naming(call).value))
  }

  lemma OwnedDuringGrows(log: seq<Crumb>, more: seq<Crumb>, since: nat, run: string)
    requires OwnedDuring(log, since, run)
    ensures OwnedDuring(log + more, since, run)
  {
    var at :| since <= at <= |log| && Owner(log[..at]) == Some(run);
    assert (log + more)[..at] == log[..at];
  }

  lemma StepIsCleared(h: Hooks, log: seq<Crumb>, labelled: bool, call: Call)
    requires Cleared(log, call)
    ensures var (log', _, pc) := Step(h, log, labelled, call); Cleared(log', call.(pc := pc))
  {
    assert log[..|log|] == log;
  }

  lemma ClearedStep(h: Hooks, s: State, a: Action)
    requires forall id :: id in s.calls ==> Cleared(s.log, s.calls[id])
    ensures forall id :: id in Next(h, s, a).calls ==> Cleared(Next(h, s, a).log, Next(h, s, a).calls[id])
  {
    var t := Next(h, s, a);
    var more := ThreadGrows(h, s, a);
    forall id | id in t.calls ensures Cleared(t.log, t.calls[id]) {
      if id in s.calls {
        if Naming(s.calls[id]).Some? && s.calls[id].request.ReleaseItem? {
          OwnedDuringGrows(s.log, more, s.calls[id].since, Naming(s.calls[id]).value);
        }
        if a == Act(id) && !Settled(s.calls[id].pc) {
          StepIsCleared(h, s.log, s.labelled, s.calls[id]);
        }
      }
    }
  }

  lemma {:induction false} RunIsCleared(h: Hooks, actions: seq<Action>)
    ensures forall id :: id in Run(h, actions).calls ==> Cleared(Run(h, actions).log, Run(h, actions).calls[id])
  {
    if actions != [] {
      RunIsCleared(h, actions[..|actions| - 1]);
      ClearedStep(h, Run(h, actions[..|actions| - 1]), actions[|actions| - 1]);
    }
  }

  lemma StepPosts(h: Hooks, log: seq<Crumb>, labelled: bool, call: Call)
    requires Cleared(log, call)
    ensures var log' := Step(h, log, labelled, call).0;
            log' == log ||
            exists c :: log' == log + [c] && !c.Note? && Entitled(call.request, c)
              && (c.Release? ==> OwnedDuring(log, call.since, c.run))
  {
    var log' := Step(h, log, labelled, call).0;
    if log' != log {
      assert log' == log + [log'[|log|]];
    }
  }

  /** In every interleaving, a claim or release enters the thread only by a step of a call
      entitled to it, reported or failed: a claim names the run that makes it; a release
      names the run it is pinned to if pinned at all, its own run or one the ledger
      authorizes, and a run that owned the item during that very call. */
  lemma OnlyEntitledPost(h: Hooks, s: State, a: Action)
    requires Reachable(h, false, s)
    requires Next(h, s, a).log != s.log && a != PostNote
    ensures (a.Act? || (a.Fail? && a.landed)) && a.id in s.calls
    ensures var request := s.calls[a.id].request;
            if request.ClaimItem? then Next(h, s, a).log == s.log + [Claim(request.run)]
            else exists run ::
              && Next(h, s, a).log == s.log + [Release(run)]
              && (request.expected.Some? ==> request.expected.value == run)
              && (request.run == run || request.ledgerAuthorized)
              && OwnedDuring(s.log, s.calls[a.id].since, run)
  {
    var actions :| Run(h, actions) == s;
    RunIsCleared(h, actions);
    assert Cleared(s.log, s.calls[a.id]);
    StepPosts(h, s.log, s.labelled, s.calls[a.id]);
  }

  // ---------------------------------------------------------------- the assumed winner

  /** Run 1 posts, is released before it reads back, finds no epoch open and is told it
      won all the same; run 2 then claims the item and wins it. Pinning the release is no
      cure. */
  lemma TwoOwners(h: Hooks, pinnedOnly: bool) returns (s: State)
    requires h.assumesMissing
    ensures Reachable(h, pinnedOnly, s) && !AtMostOneOwner(s)
  {
    InitialReachable(h, pinnedOnly);
    s := ClaimPosts(h, pinnedOnly, INITIAL, 1, "1");
    OwnerOfExtended([], Claim("1"));
    s := ReleasePosts(h, pinnedOnly, s, 2, ReleaseItem("1", Some("1"), false));
    OwnerOfExtended([Claim("1")], Release("1"));
    s := ClaimFinishes(h, pinnedOnly, s, 1);
    s := ClaimWins(h, pinnedOnly, s, 3, "2");
    assert s.log[3..] == [] && s.log[2..] == [Claim("2")];
    assert ToldOwner(s, 1, "1") && ToldOwner(s, 3, "2");
  }

  /** No interleaving ever has two live owners, whether or not every release is pinned,
      exactly for the providers that do not assume the winner when the breadcrumb is
      missing. */
  lemma MutualExclusionIff(h: Hooks, pinnedOnly: bool)
    ensures (forall s :: Reachable(h, pinnedOnly, s) ==> AtMostOneOwner(s)) <==> !h.assumesMissing
  {
    if h.assumesMissing {
      var s := TwoOwners(h, pinnedOnly);
    } else {
      forall s | Reachable(h, pinnedOnly, s) ensures AtMostOneOwner(s) {
        assert Reachable(h, false, s);
        MutualExclusion(h, s);
      }
    }
  }
}
