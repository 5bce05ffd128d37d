/** Azure DevOps branch policies: reducing a pull request's evaluations to one CI state,
    and the verdicts that must agree with it. */
module Policy {
  import opened Text

  datatype PolicyType =
    | Build | StatusCheck | MinimumReviewers | RequiredReviewers
    | CommentRequirements | WorkItemLinkingType | MergeStrategyType | UnknownType

  datatype PolicyKind = OtherPolicy | CI | Reviewer | CommentResolution | WorkItemLinking | MergeStrategy

  datatype EvaluationStatus = Approved | Rejected | Broken | Queued | Running | NotApplicable | UnknownStatus

  datatype CheckState = Passing | Failing | Pending

  datatype Evaluation = Evaluation(
    id: string, policyType: PolicyType, enabled: bool, blocking: bool,
    status: EvaluationStatus, buildId: Option<nat>, buildCanceled: bool)

  datatype MergePolicy = Direct | MergeQueue

  /** adoPolicyKindOf. */
  function KindOf(t: PolicyType): PolicyKind {
    match t
    case Build => CI
    case StatusCheck => CI
    case MinimumReviewers => Reviewer
    case RequiredReviewers => Reviewer
    case CommentRequirements => CommentResolution
    case WorkItemLinkingType => WorkItemLinking
    case MergeStrategyType => MergeStrategy
    case UnknownType => OtherPolicy
  }

  predicate GatesCI(kind: PolicyKind) {
    kind.CI? || kind.OtherPolicy?
  }

  predicate Blocks(e: Evaluation) {
    e.enabled && e.blocking
  }

  predicate Satisfied(e: Evaluation) {
    e.status.Approved? || e.status.NotApplicable?
  }

  /** adoEvaluationState; none is a status that says nothing. */
  function StateOf(e: Evaluation): Option<CheckState> {
    if e.buildCanceled then Some(Pending)
    else
      match e.status
      case Approved => Some(Passing)
      case Rejected => Some(Failing)
      case Broken => Some(Failing)
      case Queued => Some(Pending)
      case Running => Some(Pending)
      case NotApplicable => None
      case UnknownStatus => None
  }

  // ---------------------------------------------------------------- the gate

  /** adoPolicyGate. */
  datatype Gate = Gate(failing: bool, pending: bool, passing: bool, sawGate: bool, sawNonCI: bool, sawBlocking: bool)

  const OPEN_GATE := Gate(false, false, false, false, false, false)

  function Observe(g: Gate, state: CheckState): Gate {
    var seen := g.(sawGate := true);
    match state
    case Failing => seen.(failing := true)
    case Pending => seen.(pending := true)
    case Passing => seen.(passing := true)
  }

  function GateResult(g: Gate): CheckState {
    if g.failing then Failing
    else if g.sawGate && g.passing && !g.pending then Passing
    else if !g.sawBlocking then Passing
    else if !g.sawGate && g.sawNonCI then Passing
    else Pending
  }

  /** The per-policy state adoPolicyCheckDetail reports: an unmet reviewer policy and a
      rejected comment, work-item or merge-strategy policy are pending, never failing. */
  function ReportedState(kind: PolicyKind, state: CheckState): CheckState {
    if kind.Reviewer? && !state.Passing? then Pending
    else if !GatesCI(kind) && state.Failing? then Pending
    else state
  }

  datatype Check = Check(id: string, kind: PolicyKind, state: CheckState)

  /** An evaluation that bears on the CI state. */
  predicate Gates(e: Evaluation, humanOnly: set<string>) {
    Blocks(e) && StateOf(e).Some? && GatesCI(KindOf(e.policyType)) && e.id !in humanOnly
  }

  predicate NonCI(e: Evaluation) {
    Blocks(e) && StateOf(e).Some? && !GatesCI(KindOf(e.policyType))
  }

  /** Some evaluation is of the given sort. */
  ghost predicate AnyGate(evals: seq<Evaluation>, humanOnly: set<string>, state: CheckState) {
    exists e :: e in evals && Gates(e, humanOnly) && StateOf(e) == Some(state)
  }

  ghost predicate AnyNonCI(evals: seq<Evaluation>) {
    exists e :: e in evals && NonCI(e)
  }

  ghost predicate AnyBlocking(evals: seq<Evaluation>) {
    exists e :: e in evals && e.enabled && e.blocking
  }

  /** The gate after the evaluations, described rather than accumulated: which sorts of
      evaluation occur at all. */
  ghost predicate Summarizes(g: Gate, evals: seq<Evaluation>, humanOnly: set<string>) {
    && g.failing == AnyGate(evals, humanOnly, Failing)
    && g.pending == AnyGate(evals, humanOnly, Pending)
    && g.passing == AnyGate(evals, humanOnly, Passing)
    && g.sawGate == (g.failing || g.pending || g.passing)
    && g.sawNonCI == AnyNonCI(evals)
    && g.sawBlocking == AnyBlocking(evals)
  }

  lemma AnyGateNext(evals: seq<Evaluation>, e: Evaluation, humanOnly: set<string>, state: CheckState)
    ensures AnyGate(evals + [e], humanOnly, state)
            <==> AnyGate(evals, humanOnly, state) || (Gates(e, humanOnly) && StateOf(e) == Some(state))
  {
  }

  lemma AnyOtherNext(evals: seq<Evaluation>, e: Evaluation)
    ensures AnyNonCI(evals + [e]) <==> AnyNonCI(evals) || NonCI(e)
    ensures AnyBlocking(evals + [e]) <==> AnyBlocking(evals) || Blocks(e)
  {
  }

  function GateStep(g: Gate, e: Evaluation, humanOnly: set<string>): Gate {
    if !Blocks(e) then g
    else
      var seen := g.(sawBlocking := true);
      if StateOf(e).None? then seen
      else if !GatesCI(KindOf(e.policyType)) then seen.(sawNonCI := true)
      else if e.id in humanOnly then seen
      else Observe(seen, StateOf(e).value)
  }

  lemma SummarizesNext(g: Gate, evals: seq<Evaluation>, e: Evaluation, humanOnly: set<string>)
    requires Summarizes(g, evals, humanOnly)
    ensures Summarizes(GateStep(g, e, humanOnly), evals + [e], humanOnly)
  {
    AnyGateNext(evals, e, humanOnly, Failing);
    AnyGateNext(evals, e, humanOnly, Pending);
    AnyGateNext(evals, e, humanOnly, Passing);
    AnyOtherNext(evals, e);
  }

  /** The checks reported for some evaluations, in order. */
  function ChecksOf(evals: seq<Evaluation>): seq<Check> {
    if evals == [] then []
    else
      var e := evals[|evals| - 1];
      ChecksOf(evals[..|evals| - 1]) + (if Blocks(e) && StateOf(e).Some? then [CheckOf(e)] else [])
  }

  /** reducePolicyEvaluations. */
  method ReduceEvaluations(evals: seq<Evaluation>, humanOnly: set<string>)
    returns (state: CheckState, checks: seq<Check>)
    ensures Reduces(state, evals, humanOnly)
    ensures checks == ChecksOf(evals)
  {
    checks := [];
    var g := OPEN_GATE;
    for i := 0 to |evals|
      invariant Summarizes(g, evals[..i], humanOnly)
      invariant checks == ChecksOf(evals[..i])
    {
      var e := evals[i];
      assert evals[..i + 1] == evals[..i] + [e];
      SummarizesNext(g, evals[..i], e, humanOnly);
      assert evals[..i + 1][..i] == evals[..i];
      g := GateStep(g, e, humanOnly);
      if Blocks(e) && StateOf(e).Some? {
        checks := checks + [CheckOf(e)];
      }
    }
    assert evals[..|evals|] == evals;
    state := GateResult(g);
  }

  /** The CI state of some evaluations: failing when any gating one fails; else passing
      when some gating one passes and none is pending, when nothing blocks, or when only
      non-CI policies were evaluated; else pending. */
  ghost predicate Reduces(state: CheckState, evals: seq<Evaluation>, humanOnly: set<string>) {
    var failing, pending, passing :=
      AnyGate(evals, humanOnly, Failing), AnyGate(evals, humanOnly, Pending), AnyGate(evals, humanOnly, Passing);
    && (state.Failing? <==> failing)
    && (state.Passing? <==>
          !failing &&
          ((passing && !pending) || !AnyBlocking(evals) || (!pending && !passing && AnyNonCI(evals))))
  }

  function CheckOf(e: Evaluation): Check
    requires StateOf(e).Some?
  {
    Check(e.id, KindOf(e.policyType), ReportedState(KindOf(e.policyType), StateOf(e).value))
  }

  // ---------------------------------------------------------------- said of the statuses

  /** Build, status-check and unrecognised policies bear on CI. */
  ghost predicate CIType(t: PolicyType) {
    t == Build || t == StatusCheck || t == UnknownType
  }

  ghost predicate CountsForCI(e: Evaluation, humanOnly: set<string>) {
    e.enabled && e.blocking && CIType(e.policyType) && e.id !in humanOnly
  }

  /** A rejected or broken evaluation, its build not canceled. */
  ghost predicate SaysNo(e: Evaluation) {
    !e.buildCanceled && (e.status == Rejected || e.status == Broken)
  }

  ghost predicate SaysYes(e: Evaluation) {
    !e.buildCanceled && e.status == Approved
  }

  ghost predicate SaysWait(e: Evaluation) {
    e.buildCanceled || e.status == Queued || e.status == Running
  }

  lemma SaysState(e: Evaluation)
    ensures SaysNo(e) <==> StateOf(e) == Some(Failing)
    ensures SaysYes(e) <==> StateOf(e) == Some(Passing)
    ensures SaysWait(e) <==> StateOf(e) == Some(Pending)
    ensures CIType(e.policyType) <==> GatesCI(KindOf(e.policyType))
  {
  }

  /** The CI state, said of the raw statuses and policy types: failing exactly when a blocking
      CI policy not left to people is rejected or broken; passing exactly when none is and
      some such policy is approved and none waits, or nothing blocks, or only policies of
      other types have an answer. */
  lemma CIStateMeans(evals: seq<Evaluation>, humanOnly: set<string>, state: CheckState)
    requires Reduces(state, evals, humanOnly)
    ensures state.Failing? <==> exists e :: e in evals && CountsForCI(e, humanOnly) && SaysNo(e)
    ensures state.Passing? <==>
            && (forall e :: e in evals && CountsForCI(e, humanOnly) ==> !SaysNo(e))
            && (|| ((exists e :: e in evals && CountsForCI(e, humanOnly) && SaysYes(e))
                    && forall e :: e in evals && CountsForCI(e, humanOnly) ==> !SaysWait(e))
                || (forall e :: e in evals ==> !e.enabled || !e.blocking)
                || ((forall e :: e in evals && CountsForCI(e, humanOnly) ==> !SaysYes(e) && !SaysWait(e))
                    && exists e :: e in evals && e.enabled && e.blocking && !CIType(e.policyType)
                                   && (SaysNo(e) || SaysYes(e) || SaysWait(e))))
  {
    forall e | e in evals
      ensures SaysNo(e) && CountsForCI(e, humanOnly) <==> Gates(e, humanOnly) && StateOf(e) == Some(Failing)
      ensures SaysYes(e) && CountsForCI(e, humanOnly) <==> Gates(e, humanOnly) && StateOf(e) == Some(Passing)
      ensures SaysWait(e) && CountsForCI(e, humanOnly) <==> Gates(e, humanOnly) && StateOf(e) == Some(Pending)
      ensures NonCI(e) <==>
              e.enabled && e.blocking && !CIType(e.policyType) && (SaysNo(e) || SaysYes(e) || SaysWait(e))
    {
      SaysState(e);
    }
  }

  // ---------------------------------------------------------------- agreement

  /** The CI state does not depend on the order, or the multiplicity, of the evaluations. */
  lemma OrderIrrelevant(a: seq<Evaluation>, b: seq<Evaluation>, humanOnly: set<string>, s: CheckState, t: CheckState)
    requires forall e :: e in a <==> e in b
    requires Reduces(s, a, humanOnly) && Reduces(t, b, humanOnly)
    ensures s == t
  {
  }

  predicate FailsCI(e: Evaluation) {
    Blocks(e) && StateOf(e) == Some(Failing) && GatesCI(KindOf(e.policyType))
  }

  function FailingCI(evals: seq<Evaluation>): seq<Evaluation> {
    if evals == [] then []
    else
      var e := evals[|evals| - 1];
      FailingCI(evals[..|evals| - 1]) + (if FailsCI(e) then [e] else [])
  }

  /** failingCIEvaluations. */
  method FailingCIEvaluations(evals: seq<Evaluation>) returns (out: seq<Evaluation>)
    ensures out == FailingCI(evals)
  {
    out := [];
    for i := 0 to |evals|
      invariant out == FailingCI(evals[..i])
    {
      var e := evals[i];
      assert evals[..i + 1][..i] == evals[..i];
      if Blocks(e) && StateOf(e) == Some(Failing) {
        if GatesCI(KindOf(e.policyType)) {
          out := out + [e];
        }
      }
    }
    assert evals[..|evals|] == evals;
  }

  lemma {:induction false} FailingCIMembers(evals: seq<Evaluation>)
    ensures forall e :: e in FailingCI(evals) <==> e in evals && FailsCI(e)
    ensures forall e :: e in FailingCI(evals) <==> e in evals && CountsForCI(e, {}) && SaysNo(e)
  {
    if evals != [] {
      FailingCIMembers(evals[..|evals| - 1]);
      assert evals == evals[..|evals| - 1] + [evals[|evals| - 1]];
    }
  }

  /** The CI state is failing exactly when a reported failure is not one the loop declared
      human-only; with none declared, exactly when there is a failure to report. */
  lemma FailingAgrees(evals: seq<Evaluation>, humanOnly: set<string>, state: CheckState)
    requires Reduces(state, evals, humanOnly)
    ensures state.Failing? <==> exists e :: e in FailingCI(evals) && e.id !in humanOnly
    ensures humanOnly == {} ==> (state.Failing? <==> FailingCI(evals) != [])
  {
    FailingCIMembers(evals);
    if state.Failing? {
      var e :| e in evals && Gates(e, humanOnly) && StateOf(e) == Some(Failing);
      assert e in FailingCI(evals);
    }
    if e :| e in FailingCI(evals) && e.id !in humanOnly {
      assert Gates(e, humanOnly);
    }
    if humanOnly == {} && FailingCI(evals) != [] {
      assert FailingCI(evals)[0] in FailingCI(evals);
    }
  }

  /** adoEvaluationsMergePolicy; none is undecided. */
  method EvaluationsMergePolicy(evals: seq<Evaluation>) returns (policy: Option<MergePolicy>)
    ensures policy.None? <==> !AnyBlocking(evals)
    ensures policy == Some(Direct) <==> AnyBlocking(evals) && Unmet(evals) == {}
  {
    policy := None;
    for i := 0 to |evals|
      invariant policy == if AnyBlocking(evals[..i]) then Some(Direct) else None
      invariant Unmet(evals[..i]) == {}
    {
      assert evals[..i + 1] == evals[..i] + [evals[i]];
      AnyOtherNext(evals[..i], evals[i]);
      if Blocks(evals[i]) {
        policy := Some(Direct);
        if !Satisfied(evals[i]) {
          assert evals[i] in Unmet(evals);
          assert evals[i] in evals;
          return Some(MergeQueue);
        }
      }
    }
    assert evals[..|evals|] == evals;
  }

  /** The blocking evaluations still holding the completion. */
  ghost function Unmet(evals: seq<Evaluation>): set<Evaluation> {
    set e | e in evals && e.enabled && e.blocking && !e.status.Approved? && !e.status.NotApplicable?
  }

  ghost predicate ForReviewers(t: PolicyType) {
    t == MinimumReviewers || t == RequiredReviewers
  }

  /** adoEvaluationsAwaitHuman. */
  method EvaluationsAwaitHuman(evals: seq<Evaluation>) returns (waiting: bool)
    ensures waiting <==> Unmet(evals) != {} && forall e :: e in Unmet(evals) ==> ForReviewers(e.policyType)
  {
    waiting := false;
    for i := 0 to |evals|
      invariant waiting <==> Unmet(evals[..i]) != {}
      invariant forall e :: e in Unmet(evals[..i]) ==> ForReviewers(e.policyType)
    {
      assert evals[..i + 1] == evals[..i] + [evals[i]];
      if Blocks(evals[i]) && !Satisfied(evals[i]) {
        assert evals[i] in Unmet(evals[..i + 1]) && evals[i] in Unmet(evals);
        if !KindOf(evals[i].policyType).Reviewer? {
          return false;
        }
        waiting := true;
      } else {
        assert Unmet(evals[..i + 1]) == Unmet(evals[..i]);
      }
    }
    assert evals[..|evals|] == evals;
  }

  /** A direct merge or a wait on reviewers never stands beside a failing CI state. */
  lemma LandingNeverBesideFailing(evals: seq<Evaluation>, humanOnly: set<string>, state: CheckState)
    requires Reduces(state, evals, humanOnly)
    requires forall e :: e in Unmet(evals) ==> ForReviewers(e.policyType)
    ensures !state.Failing?
  {
  }

  /** Canceled marks only stand on rejected evaluations. */
  predicate MarksRejected(evals: seq<Evaluation>) {
    forall e :: e in evals && e.buildCanceled ==> e.status.Rejected?
  }

  /** A pull request that may be completed directly has a passing CI state exactly when
      some approved policy counts: a non-CI one, or a CI one not declared human-only. With
      every blocking policy notApplicable the merge is direct and CI still pending. */
  lemma DirectPassesIff(evals: seq<Evaluation>, humanOnly: set<string>, state: CheckState)
    requires Reduces(state, evals, humanOnly) && MarksRejected(evals)
    requires AnyBlocking(evals) && Unmet(evals) == {}
    ensures state.Passing? <==>
            exists e :: e in evals && Blocks(e) && e.status.Approved? && (NonCI(e) || Gates(e, humanOnly))
    ensures !state.Failing?
  {
    LandingNeverBesideFailing(evals, humanOnly, state);
    assert forall e :: e in evals && Blocks(e) ==> Satisfied(e) || e in Unmet(evals);
    assert !AnyGate(evals, humanOnly, Pending);
    if state.Passing? {
      if AnyGate(evals, humanOnly, Passing) {
        var e :| e in evals && Gates(e, humanOnly) && StateOf(e) == Some(Passing);
        assert e.status.Approved?;
      } else {
        var e :| e in evals && NonCI(e);
        assert e !in Unmet(evals);
        assert e.status.Approved?;
      }
    }
    if e :| e in evals && Blocks(e) && e.status.Approved? && (NonCI(e) || Gates(e, humanOnly)) {
      assert !e.buildCanceled;
      assert StateOf(e) == Some(Passing);
    }
  }

  /** One blocking build policy that does not apply: the merge is direct, CI pending. */
  lemma DirectBesidePending()
    ensures var evals := [Evaluation("1", Build, true, true, NotApplicable, None, false)];
            AnyBlocking(evals) && Unmet(evals) == {} && MarksRejected(evals) && Reduces(Pending, evals, {})
  {
    var evals := [Evaluation("1", Build, true, true, NotApplicable, None, false)];
    assert evals[0] in evals;
  }

  lemma {:induction false} ChecksMembers(evals: seq<Evaluation>)
    ensures forall c :: c in ChecksOf(evals) <==>
              exists e :: e in evals && Blocks(e) && StateOf(e).Some? && c == CheckOf(e)
  {
    if evals != [] {
      var front, e := evals[..|evals| - 1], evals[|evals| - 1];
      ChecksMembers(front);
      assert evals == front + [e];
      assert forall x :: x in evals <==> x in front || x == e;
    }
  }

  /** The per-policy checks tell the same story: one is failing exactly when some CI
      evaluation fails, human-only or not. */
  lemma ChecksAgree(evals: seq<Evaluation>)
    ensures (exists c :: c in ChecksOf(evals) && c.state.Failing?) <==> FailingCI(evals) != []
    ensures forall c :: c in ChecksOf(evals) && c.state.Failing? ==> GatesCI(c.kind)
  {
    ChecksMembers(evals);
    FailingCIMembers(evals);
    if FailingCI(evals) != [] {
      var e := FailingCI(evals)[0];
      assert e in FailingCI(evals);
      assert CheckOf(e) in ChecksOf(evals);
    }
    if c :| c in ChecksOf(evals) && c.state.Failing? {
      var e :| e in evals && Blocks(e) && StateOf(e).Some? && c == CheckOf(e);
      assert e in FailingCI(evals);
    }
  }

  /** What is reported of one blocking evaluation that says anything. */
  lemma ChecksSay(evals: seq<Evaluation>, e: Evaluation)
    requires e in evals && e.enabled && e.blocking && (SaysNo(e) || SaysYes(e) || SaysWait(e))
    ensures exists c :: c in ChecksOf(evals) && c.id == e.id
              && (c.state.Passing? <==> SaysYes(e)) && (c.state.Failing? <==> CIType(e.policyType) && SaysNo(e))
              && (c.kind.Reviewer? <==> ForReviewers(e.policyType))
              && (c.kind.CommentResolution? <==> e.policyType == CommentRequirements)
              && (c.kind.WorkItemLinking? <==> e.policyType == WorkItemLinkingType)
              && (c.kind.OtherPolicy? <==> e.policyType == UnknownType)
  {
    SaysState(e);
    ChecksMembers(evals);
    assert CheckOf(e) in ChecksOf(evals);
  }

  // ---------------------------------------------------------------- canceled builds

  /** What one evaluation looks like once its build has been read; canceled says of each
      build whether its result is canceled, and none that it could not be read. */
  function Marked(e: Evaluation, canceled: map<nat, bool>): Evaluation {
    if e.buildId.None? || !Blocks(e) || !e.status.Rejected? || !e.policyType.Build? then e
    else e.(buildCanceled := e.buildId.value in canceled && canceled[e.buildId.value])
  }

  /** markCanceledBuilds, in place; ends after reading n builds when the caller's context
      does. */
  method MarkCanceledBuilds(evals: array<Evaluation>, canceled: map<nat, bool>, n: nat) returns (ended: bool)
    modifies evals
    ensures !ended ==> evals[..] == MarkedAll(old(evals[..]), canceled)
    ensures exists k :: 0 <= k <= evals.Length
              && evals[..k] == MarkedAll(old(evals[..k]), canceled) && evals[k..] == old(evals[k..])
  {
    var done := 0;
    for i := 0 to evals.Length
      invariant forall j :: 0 <= j < i ==> evals[j] == Marked(old(evals[j]), canceled)
      invariant forall j :: i <= j < evals.Length ==> evals[j] == old(evals[j])
    {
      var e := evals[i];
      if !(e.buildId.None? || !Blocks(e) || !e.status.Rejected? || !e.policyType.Build?) {
        if done == n {
          assert evals[..i] == MarkedAll(old(evals[..i]), canceled) && evals[i..] == old(evals[i..]);
          return true;
        }
        done := done + 1;
        evals[i] := e.(buildCanceled := e.buildId.value in canceled && canceled[e.buildId.value]);
      }
    }
    assert evals[..evals.Length] == MarkedAll(old(evals[..evals.Length]), canceled);
    assert evals[..evals.Length] == evals[..] && old(evals[..evals.Length]) == old(evals[..]);
    return false;
  }

  function MarkedAll(evals: seq<Evaluation>, canceled: map<nat, bool>): seq<Evaluation> {
    seq(|evals|, i requires 0 <= i < |evals| => Marked(evals[i], canceled))
  }

  /** Marking turns a failure into pending for a canceled build and changes nothing else:
      what stays failing is exactly the failures whose build was not canceled, no merge
      or human verdict changes, and only rejected evaluations are marked. */
  lemma MarkingIsHarmless(evals: seq<Evaluation>, canceled: map<nat, bool>)
    requires forall e :: e in evals ==> !e.buildCanceled
    ensures MarksRejected(MarkedAll(evals, canceled))
    ensures forall i :: 0 <= i < |evals| ==>
              var e, m := evals[i], MarkedAll(evals, canceled)[i];
              && m == e.(buildCanceled := m.buildCanceled)
              && (m.buildCanceled <==>
                    && e.enabled && e.blocking && e.policyType.Build? && e.status.Rejected?
                    && e.buildId.Some? && e.buildId.value in canceled && canceled[e.buildId.value])
              && (FailsCI(m) <==> FailsCI(e) && !m.buildCanceled)
              && (StateOf(m) != StateOf(e) ==> StateOf(e) == Some(Failing) && StateOf(m) == Some(Pending))
  {
  }
}
