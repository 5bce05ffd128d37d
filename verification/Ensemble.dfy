/** Scoring a scenario from several judges and routing it to pass, fail or human review.
    Floating-point numbers are modelled as reals. */
module Ensemble {
  import opened Text

  datatype Kind = Deterministic | LLM | Classifier | Human

  datatype JudgeResult = JudgeResult(judge: string, kind: Kind, score: real, confidence: real, strict: bool)

  type Weights = map<Kind, real>

  const DEFAULT_WEIGHTS: Weights := map[Deterministic := 0.4, LLM := 0.4, Classifier := 0.2]

  /** The weights in force: an absent or an empty table is the default one. */
  function InForce(weights: Option<Weights>): Weights {
    if weights.None? || weights.value == map[] then DEFAULT_WEIGHTS else weights.value
  }

  // ---------------------------------------------------------------- reference

  function OfKind(results: seq<JudgeResult>, kind: Kind): seq<JudgeResult> {
    if results == [] then []
    else
      var r := results[|results| - 1];
      OfKind(results[..|results| - 1], kind) + (if r.kind == kind then [r] else [])
  }

  function KindWeight(w: Weights, kind: Kind): real {
    if kind in w && w[kind] > 0.0 then w[kind] else 0.0
  }

  /** A judge's own weight: its kind's, split evenly among the judges of that kind. */
  function Share(all: seq<JudgeResult>, w: Weights, kind: Kind): real {
    if OfKind(all, kind) == [] then 0.0 else KindWeight(w, kind) / (|OfKind(all, kind)| as real)
  }

  function ShareTable(all: seq<JudgeResult>, w: Weights): Kind -> real {
    kind => Share(all, w, kind)
  }

  /** Judge by judge: some quantity of each, summed. */
  function Sum(rs: seq<JudgeResult>, f: JudgeResult -> real): real {
    if rs == [] then 0.0 else Sum(rs[..|rs| - 1], f) + f(rs[|rs| - 1])
  }

  function Plain(): JudgeResult -> real {
    (r: JudgeResult) => r.score
  }

  function Weight(share: Kind -> real): JudgeResult -> real {
    (r: JudgeResult) => share(r.kind)
  }

  function Weighted(share: Kind -> real): JudgeResult -> real {
    (r: JudgeResult) => r.score * share(r.kind)
  }

  /** The ensemble score: the weighted mean, or the plain mean when nothing has weight. */
  function Score(results: seq<JudgeResult>, w: Weights): real
    requires results != []
  {
    var share := ShareTable(results, w);
    if Sum(results, Weight(share)) == 0.0 then Sum(results, Plain()) / (|results| as real)
    else Sum(results, Weighted(share)) / Sum(results, Weight(share))
  }

  // ---------------------------------------------------------------- grouped computation

  /** A quantity counted for some kinds only. */
  ghost function Only(f: JudgeResult -> real, kinds: set<Kind>): JudgeResult -> real {
    (r: JudgeResult) => if r.kind in kinds then f(r) else 0.0
  }

  lemma {:induction false} SumSame(rs: seq<JudgeResult>, f: JudgeResult -> real, g: JudgeResult -> real)
    requires forall r :: r in rs ==> f(r) == g(r)
    ensures Sum(rs, f) == Sum(rs, g)
  {
    if rs != [] {
      assert rs[|rs| - 1] in rs;
      SumSame(rs[..|rs| - 1], f, g);
    }
  }

  lemma {:induction false} SumZero(rs: seq<JudgeResult>, f: JudgeResult -> real)
    requires forall r :: r in rs ==> f(r) == 0.0
    ensures Sum(rs, f) == 0.0
  {
    if rs != [] {
      assert rs[|rs| - 1] in rs;
      SumZero(rs[..|rs| - 1], f);
    }
  }

  /** Counting one more kind adds the sum over that kind's judges. */
  lemma {:induction false} KindJoins(rs: seq<JudgeResult>, f: JudgeResult -> real, kinds: set<Kind>, kind: Kind)
    requires kind !in kinds
    ensures Sum(rs, Only(f, kinds + {kind})) == Sum(rs, Only(f, kinds)) + Sum(OfKind(rs, kind), f)
  {
    if rs != [] {
      var front, r := rs[..|rs| - 1], rs[|rs| - 1];
      KindJoins(front, f, kinds, kind);
      if r.kind == kind {
        assert OfKind(rs, kind)[..|OfKind(rs, kind)| - 1] == OfKind(front, kind);
      } else {
        assert OfKind(rs, kind) == OfKind(front, kind);
      }
    }
  }

  lemma {:induction false} OfKindKinds(rs: seq<JudgeResult>, kind: Kind)
    ensures forall r :: r in OfKind(rs, kind) ==> r.kind == kind
  {
    if rs != [] {
      OfKindKinds(rs[..|rs| - 1], kind);
    }
  }

  lemma {:induction false} OfKindHas(rs: seq<JudgeResult>, r: JudgeResult)
    requires r in rs
    ensures OfKind(rs, r.kind) != []
  {
    if r != rs[|rs| - 1] {
      assert r in rs[..|rs| - 1];
      OfKindHas(rs[..|rs| - 1], r);
    }
  }

  /** The judges by kind. */
  ghost predicate Groups(groups: map<Kind, seq<JudgeResult>>, results: seq<JudgeResult>) {
    forall k: Kind :: if k in groups then groups[k] == OfKind(results, k) != [] else OfKind(results, k) == []
  }

  /** The kinds in order of first appearance. */
  ghost predicate Ordered(order: seq<Kind>, kinds: set<Kind>) {
    && (forall i, j :: 0 <= i < j < |order| ==> order[i] != order[j])
    && (forall k: Kind :: k in order <==> k in kinds)
  }

  lemma GroupsNext(groups: map<Kind, seq<JudgeResult>>, results: seq<JudgeResult>, r: JudgeResult)
    requires Groups(groups, results)
    ensures Groups(groups[r.kind := (if r.kind in groups then groups[r.kind] else []) + [r]], results + [r])
  {
  }

  method GroupByKind(results: seq<JudgeResult>) returns (groups: map<Kind, seq<JudgeResult>>, order: seq<Kind>)
    ensures Groups(groups, results) && Ordered(order, groups.Keys)
  {
    groups, order := map[], [];
    for i := 0 to |results|
      invariant Groups(groups, results[..i]) && Ordered(order, groups.Keys)
    {
      var r := results[i];
      assert results[..i + 1] == results[..i] + [r];
      GroupsNext(groups, results[..i], r);
      if r.kind !in groups {
        order := order + [r.kind];
        groups := groups[r.kind := [r]];
      } else {
        groups := groups[r.kind := groups[r.kind] + [r]];
      }
    }
    assert results[..|results|] == results;
  }

  /** The inner loop: one kind's judges, each with the kind's share. */
  method AddGroup(group: seq<JudgeResult>, each: real, weighted0: real, total0: real, ghost share: Kind -> real)
    returns (weighted: real, total: real)
    requires forall r :: r in group ==> share(r.kind) == each
    ensures weighted == weighted0 + Sum(group, Weighted(share))
    ensures total == total0 + Sum(group, Weight(share))
  {
    weighted, total := weighted0, total0;
    for i := 0 to |group|
      invariant weighted == weighted0 + Sum(group[..i], Weighted(share))
      invariant total == total0 + Sum(group[..i], Weight(share))
    {
      assert group[..i + 1][..i] == group[..i];
      assert group[i] in group;
      weighted := weighted + group[i].score * each;
      total := total + each;
    }
    assert group[..|group|] == group;
  }

  lemma ShareOfGroup(results: seq<JudgeResult>, w: Weights, group: seq<JudgeResult>, kind: Kind)
    requires group == OfKind(results, kind) != []
    ensures ShareTable(results, w)(kind) == if kind in w && w[kind] > 0.0 then w[kind] / (|group| as real) else 0.0
  {
  }

  /** The outer loop: every kind in turn, skipping those without weight. */
  method WeighGroups(results: seq<JudgeResult>, w: Weights, groups: map<Kind, seq<JudgeResult>>, order: seq<Kind>)
    returns (weighted: real, total: real)
    requires Groups(groups, results) && Ordered(order, groups.Keys)
    ensures weighted == Sum(results, Weighted(ShareTable(results, w)))
    ensures total == Sum(results, Weight(ShareTable(results, w)))
  {
    weighted, total := 0.0, 0.0;
    ghost var share := ShareTable(results, w);
    ghost var seen: set<Kind> := {};
    SumZero(results, Only(Weighted(share), seen));
    SumZero(results, Only(Weight(share), seen));
    for i := 0 to |order|
      invariant seen == set k | k in order[..i]
      invariant weighted == Sum(results, Only(Weighted(share), seen))
      invariant total == Sum(results, Only(Weight(share), seen))
    {
      var kind := order[i];
      assert kind in order;
      var group := groups[kind];
      OfKindKinds(results, kind);
      ShareOfGroup(results, w, group, kind);
      KindJoins(results, Weighted(share), seen, kind);
      KindJoins(results, Weight(share), seen, kind);
      if kind in w && w[kind] > 0.0 {
        weighted, total := AddGroup(group, w[kind] / (|group| as real), weighted, total, share);
      } else {
        SumZero(group, Weighted(share));
        SumZero(group, Weight(share));
      }
      seen := seen + {kind};
    }
    forall r | r in results ensures r.kind in seen {
      OfKindHas(results, r);
    }
    SumSame(results, Only(Weighted(share), seen), Weighted(share));
    SumSame(results, Only(Weight(share), seen), Weight(share));
  }

  /** compute_ensemble_score; none is the error for no results. */
  method ComputeEnsembleScore(results: seq<JudgeResult>, weights: Option<Weights>) returns (score: Option<real>)
    ensures score.None? <==> results == []
    ensures score.Some? ==> score.value == Score(results, InForce(weights))
  {
    if results == [] {
      return None;
    }
    var w := InForce(weights);
    var groups, order := GroupByKind(results);
    var weighted, total := WeighGroups(results, w, groups, order);
    if total == 0.0 {
      var sum := SumScores(results);
      return Some(sum / (|results| as real));
    }
    return Some(weighted / total);
  }

  method SumScores(results: seq<JudgeResult>) returns (sum: real)
    ensures sum == Sum(results, Plain())
  {
    sum := 0.0;
    for i := 0 to |results|
      invariant sum == Sum(results[..i], Plain())
    {
      assert results[..i + 1][..i] == results[..i];
      sum := sum + results[i].score;
    }
    assert results[..|results|] == results;
  }

  // ---------------------------------------------------------------- the score

  lemma ScaleUp(a: real, b: real, u: real)
    requires a <= b && u >= 0.0
    ensures a * u <= b * u
  {
  }

  lemma Distributes(c: real, a: real, b: real)
    ensures c * (a + b) == c * a + c * b
  {
  }

  lemma {:induction false} SumMonotone(rs: seq<JudgeResult>, f: JudgeResult -> real, g: JudgeResult -> real)
    requires forall r :: r in rs ==> f(r) <= g(r)
    ensures Sum(rs, f) <= Sum(rs, g)
  {
    if rs != [] {
      assert rs[|rs| - 1] in rs;
      SumMonotone(rs[..|rs| - 1], f, g);
    }
  }

  ghost function Scaled(c: real, f: JudgeResult -> real): JudgeResult -> real {
    (r: JudgeResult) => c * f(r)
  }

  lemma {:induction false} SumScales(rs: seq<JudgeResult>, c: real, f: JudgeResult -> real)
    ensures Sum(rs, Scaled(c, f)) == c * Sum(rs, f)
  {
    if rs != [] {
      SumScales(rs[..|rs| - 1], c, f);
      Distributes(c, Sum(rs[..|rs| - 1], f), f(rs[|rs| - 1]));
    }
  }

  ghost predicate Within(rs: seq<JudgeResult>, lo: real, hi: real) {
    forall r :: r in rs ==> lo <= r.score <= hi
  }

  /** No judge counts against the ensemble. */
  ghost predicate NonNegative(share: Kind -> real) {
    forall k: Kind :: share(k) >= 0.0
  }

  lemma ShareTableNonNegative(all: seq<JudgeResult>, w: Weights)
    ensures NonNegative(ShareTable(all, w))
  {
  }

  lemma {:induction false} WeightedAbove(rs: seq<JudgeResult>, share: Kind -> real, lo: real, hi: real)
    requires Within(rs, lo, hi) && NonNegative(share)
    ensures lo * Sum(rs, Weight(share)) <= Sum(rs, Weighted(share))
  {
    forall r | r in rs ensures Scaled(lo, Weight(share))(r) <= Weighted(share)(r) {
      ScaleUp(lo, r.score, share(r.kind));
    }
    SumMonotone(rs, Scaled(lo, Weight(share)), Weighted(share));
    SumScales(rs, lo, Weight(share));
  }

  lemma {:induction false} WeightedBelow(rs: seq<JudgeResult>, share: Kind -> real, lo: real, hi: real)
    requires Within(rs, lo, hi) && NonNegative(share)
    ensures Sum(rs, Weighted(share)) <= hi * Sum(rs, Weight(share))
  {
    forall r | r in rs ensures Weighted(share)(r) <= Scaled(hi, Weight(share))(r) {
      ScaleUp(r.score, hi, share(r.kind));
    }
    SumMonotone(rs, Weighted(share), Scaled(hi, Weight(share)));
    SumScales(rs, hi, Weight(share));
  }

  ghost function Flat(c: real): JudgeResult -> real {
    (r: JudgeResult) => c
  }

  lemma {:induction false} SumFlat(rs: seq<JudgeResult>, c: real)
    ensures Sum(rs, Flat(c)) == c * (|rs| as real)
  {
    if rs != [] {
      var n := (|rs| - 1) as real;
      SumFlat(rs[..|rs| - 1], c);
      Distributes(c, n, 1.0);
      assert |rs| as real == n + 1.0;
    }
  }

  lemma Divided(s: real, t: real, lo: real, hi: real)
    requires t > 0.0 && lo * t <= s <= hi * t
    ensures lo <= s / t <= hi
  {
  }

  lemma {:induction false} PlainAbove(results: seq<JudgeResult>, lo: real, hi: real)
    requires Within(results, lo, hi)
    ensures lo * (|results| as real) <= Sum(results, Plain())
  {
    SumMonotone(results, Flat(lo), Plain());
    SumFlat(results, lo);
  }

  lemma {:induction false} PlainBelow(results: seq<JudgeResult>, lo: real, hi: real)
    requires Within(results, lo, hi)
    ensures Sum(results, Plain()) <= hi * (|results| as real)
  {
    SumMonotone(results, Plain(), Flat(hi));
    SumFlat(results, hi);
  }

  lemma {:induction false} MeanOf(s: real, n: nat, lo: real, hi: real)
    requires n > 0 && lo * (n as real) <= s <= hi * (n as real)
    ensures lo <= s / (n as real) <= hi
  {
    Divided(s, n as real, lo, hi);
  }

  lemma {:induction false} MeanWithin(results: seq<JudgeResult>, lo: real, hi: real)
    requires results != [] && Within(results, lo, hi)
    ensures lo <= Sum(results, Plain()) / (|results| as real) <= hi
  {
    PlainAbove(results, lo, hi);
    PlainBelow(results, lo, hi);
    MeanOf(Sum(results, Plain()), |results|, lo, hi);
  }

  lemma {:induction false} WeightNonNegative(rs: seq<JudgeResult>, share: Kind -> real)
    requires NonNegative(share)
    ensures Sum(rs, Weight(share)) >= 0.0
  {
    if rs != [] {
      WeightNonNegative(rs[..|rs| - 1], share);
      assert share(rs[|rs| - 1].kind) >= 0.0;
    }
  }

  lemma {:induction false} WeightedMeanWithin(results: seq<JudgeResult>, share: Kind -> real, lo: real, hi: real)
    requires Within(results, lo, hi) && NonNegative(share) && Sum(results, Weight(share)) != 0.0
    ensures lo <= Sum(results, Weighted(share)) / Sum(results, Weight(share)) <= hi
  {
    var s, t := Sum(results, Weighted(share)), Sum(results, Weight(share));
    assert t > 0.0 by {
      WeightNonNegative(results, share);
    }
    assert lo * t <= s <= hi * t by {
      WeightedAbove(results, share, lo, hi);
      WeightedBelow(results, share, lo, hi);
    }
    Divided(s, t, lo, hi);
  }

  /** The ensemble score lies between the lowest and the highest judge's score, whatever the
      weights, the zero-weight fallback included. */
  lemma {:induction false} ScoreWithin(results: seq<JudgeResult>, w: Weights, lo: real, hi: real)
    requires results != [] && Within(results, lo, hi)
    ensures lo <= Score(results, w) <= hi
  {
    ShareTableNonNegative(results, w);
    if Sum(results, Weight(ShareTable(results, w))) == 0.0 {
      MeanWithin(results, lo, hi);
    } else {
      WeightedMeanWithin(results, ShareTable(results, w), lo, hi);
    }
  }

  /** The same judges, each scoring at least as high as before. */
  ghost predicate Raised(before: seq<JudgeResult>, after: seq<JudgeResult>) {
    && |before| == |after|
    && forall i :: 0 <= i < |before| ==>
         before[i].score <= after[i].score && after[i] == before[i].(score := after[i].score)
  }

  lemma {:induction false} RaisedKinds(before: seq<JudgeResult>, after: seq<JudgeResult>, kind: Kind)
    requires Raised(before, after)
    ensures |OfKind(before, kind)| == |OfKind(after, kind)|
  {
    if before != [] {
      RaisedKinds(before[..|before| - 1], after[..|after| - 1], kind);
    }
  }

  lemma {:induction false} RaisedSum(
    before: seq<JudgeResult>, after: seq<JudgeResult>, f: JudgeResult -> real, g: JudgeResult -> real)
    requires |before| == |after| && forall i :: 0 <= i < |before| ==> f(before[i]) <= g(after[i])
    ensures Sum(before, f) <= Sum(after, g)
  {
    if before != [] {
      RaisedSum(before[..|before| - 1], after[..|after| - 1], f, g);
    }
  }

  lemma RaisedWeighted(before: seq<JudgeResult>, after: seq<JudgeResult>, share: Kind -> real, share': Kind -> real)
    requires Raised(before, after) && NonNegative(share) && forall k: Kind :: share(k) == share'(k)
    ensures Sum(before, Weighted(share)) <= Sum(after, Weighted(share'))
  {
  }

  lemma RaisedWeight(before: seq<JudgeResult>, after: seq<JudgeResult>, share: Kind -> real, share': Kind -> real)
    requires Raised(before, after) && forall k: Kind :: share(k) == share'(k)
    ensures Sum(before, Weight(share)) == Sum(after, Weight(share'))
  {
  }

  lemma {:induction false} RaisedShares(before: seq<JudgeResult>, after: seq<JudgeResult>, w: Weights, kind: Kind)
    requires Raised(before, after)
    ensures Share(before, w, kind) == Share(after, w, kind)
  {
    RaisedKinds(before, after, kind);
  }

  lemma DivideUp(a: real, b: real, t: real)
    requires a <= b && t > 0.0
    ensures a / t <= b / t
  {
  }

  /** Raising judges' scores never lowers the ensemble score. */
  lemma {:induction false} ScoreMonotone(before: seq<JudgeResult>, after: seq<JudgeResult>, w: Weights)
    requires before != [] && Raised(before, after)
    ensures Score(before, w) <= Score(after, w)
  {
    var share, share' := ShareTable(before, w), ShareTable(after, w);
    ShareTableNonNegative(before, w);
    forall kind: Kind ensures share(kind) == share'(kind) {
      RaisedShares(before, after, w, kind);
    }
    RaisedWeight(before, after, share, share');
    if Sum(before, Weight(share)) == 0.0 {
      RaisedSum(before, after, Plain(), Plain());
      DivideUp(Sum(before, Plain()), Sum(after, Plain()), |before| as real);
    } else {
      RaisedWeighted(before, after, share, share');
      WeightNonNegative(before, share);
      DivideUp(Sum(before, Weighted(share)), Sum(after, Weighted(share')), Sum(before, Weight(share)));
    }
  }

  // ---------------------------------------------------------------- routing

  datatype Verdict = Pass | Fail | HumanReview

  datatype Rules = Rules(passThreshold: real, grayZoneFloor: real, lowConfidenceFloor: real, safetyCritical: bool)

  predicate StrictFailure(r: JudgeResult) {
    r.kind.Deterministic? && r.strict && r.score < 1.0
  }

  function SafetyThreshold(rules: Rules): real {
    if rules.passThreshold > 0.95 then rules.passThreshold else 0.95
  }

  predicate AnyStrictFailure(results: seq<JudgeResult>) {
    exists r :: r in results && StrictFailure(r)
  }

  /** A judge short of the bar a safety-critical scenario sets. */
  predicate Disagreement(results: seq<JudgeResult>, rules: Rules) {
    rules.safetyCritical && exists r :: r in results && r.score < SafetyThreshold(rules)
  }

  predicate LowConfidence(results: seq<JudgeResult>, rules: Rules) {
    exists r :: r in results && r.kind.LLM? && r.confidence < rules.lowConfidenceFloor
  }

  /** Every strict deterministic check passed in full. */
  ghost predicate ChecksHold(results: seq<JudgeResult>) {
    forall r :: r in results && r.kind == Deterministic && r.strict ==> r.score >= 1.0
  }

  /** In a safety-critical scenario every judge reaches 0.95 and the pass threshold. */
  ghost predicate Agreed(results: seq<JudgeResult>, rules: Rules) {
    rules.safetyCritical ==>
      forall r :: r in results ==> r.score >= rules.passThreshold && r.score >= 0.95
  }

  /** No LLM judge is below the confidence floor. */
  ghost predicate Confident(results: seq<JudgeResult>, rules: Rules) {
    forall r :: r in results && r.kind == LLM ==> r.confidence >= rules.lowConfidenceFloor
  }

  /** What a pass and a fail certify; anything else is for a person. */
  ghost predicate Routed(v: Verdict, results: seq<JudgeResult>, score: real, rules: Rules) {
    && (v.Pass? <==>
          && ChecksHold(results) && Agreed(results, rules) && Confident(results, rules)
          && score >= rules.passThreshold)
    && (v.Fail? <==>
          || !ChecksHold(results)
          || (Agreed(results, rules) && Confident(results, rules)
              && score < rules.passThreshold && score < rules.grayZoneFloor))
  }

  /** route_for_review; none is the error of scoring no results. */
  method RouteForReview(results: seq<JudgeResult>, supplied: Option<real>, rules: Rules)
    returns (decision: Option<(Verdict, real)>)
    ensures decision.None? <==> supplied.None? && results == []
    ensures decision.Some? ==>
              && decision.value.1 == (if supplied.Some? then supplied.value else Score(results, DEFAULT_WEIGHTS))
              && Routed(decision.value.0, results, decision.value.1, rules)
  {
    var score := supplied;
    if score.None? {
      score := ComputeEnsembleScore(results, None);
      if score.None? {
        return None;
      }
    }
    var e := score.value;
    if AnyStrictFailure(results) {
      return Some((Fail, e));
    }
    if Disagreement(results, rules) {
      return Some((HumanReview, e));
    }
    if LowConfidence(results, rules) {
      return Some((HumanReview, e));
    }
    if rules.grayZoneFloor <= e < rules.passThreshold {
      return Some((HumanReview, e));
    }
    if e >= rules.passThreshold {
      return Some((Pass, e));
    }
    return Some((Fail, e));
  }

  function Rank(v: Verdict): nat {
    match v
    case Fail => 0
    case HumanReview => 1
    case Pass => 2
  }

  /** Raising scores repairs, never causes, a failure or a disagreement. */
  lemma {:induction false} RaisedFlags(before: seq<JudgeResult>, after: seq<JudgeResult>, rules: Rules)
    requires Raised(before, after)
    ensures AnyStrictFailure(after) ==> AnyStrictFailure(before)
    ensures Disagreement(after, rules) ==> Disagreement(before, rules)
    ensures LowConfidence(after, rules) <==> LowConfidence(before, rules)
  {
    assert forall i :: 0 <= i < |before| ==> before[i] in before && after[i] in after;
    if AnyStrictFailure(after) {
      var i :| 0 <= i < |after| && StrictFailure(after[i]);
      assert StrictFailure(before[i]);
    }
    if Disagreement(after, rules) {
      var i :| 0 <= i < |after| && after[i].score < SafetyThreshold(rules);
      assert before[i].score < SafetyThreshold(rules);
    }
    if LowConfidence(after, rules) {
      var i :| 0 <= i < |after| && after[i].kind.LLM? && after[i].confidence < rules.lowConfidenceFloor;
      assert before[i] in before;
    }
    if LowConfidence(before, rules) {
      var i :| 0 <= i < |before| && before[i].kind.LLM? && before[i].confidence < rules.lowConfidenceFloor;
      assert after[i] in after;
    }
  }

  /** The last disagreement of a safety-critical scenario is resolved while the score the
      caller supplied is below both thresholds: review turns into failure. */
  predicate Unmasked(before: seq<JudgeResult>, after: seq<JudgeResult>, score: real, rules: Rules) {
    && !AnyStrictFailure(before) && Disagreement(before, rules) && !Disagreement(after, rules)
    && !LowConfidence(before, rules) && score < rules.passThreshold && score < rules.grayZoneFloor
  }

  /** With scores the caller supplies, raising judges' scores never lowers the verdict
      exactly when it unmasks no failing score. */
  lemma {:induction false} SuppliedVerdictMonotoneIff(
    before: seq<JudgeResult>, after: seq<JudgeResult>, score: real, score': real, rules: Rules, v: Verdict, v': Verdict)
    requires Raised(before, after) && score <= score'
    requires Routed(v, before, score, rules) && Routed(v', after, score', rules)
    ensures Rank(v) <= Rank(v') <==> !Unmasked(before, after, score', rules)
  {
    RaisedFlags(before, after, rules);
  }

  /** Raising judges' scores never lowers the verdict on the ensemble's own score. */
  lemma {:induction false} VerdictMonotone(
    before: seq<JudgeResult>, after: seq<JudgeResult>, w: Weights, rules: Rules, v: Verdict, v': Verdict)
    requires before != [] && Raised(before, after)
    requires Routed(v, before, Score(before, w), rules) && Routed(v', after, Score(after, w), rules)
    ensures Rank(v) <= Rank(v')
  {
    ScoreMonotone(before, after, w);
    SuppliedVerdictMonotoneIff(before, after, Score(before, w), Score(after, w), rules, v, v');
    if Unmasked(before, after, Score(after, w), rules) {
      var top := Highest(after);
      ScoreWithin(after, w, SafetyThreshold(rules), top);
      assert false;
    }
  }

  ghost function Highest(rs: seq<JudgeResult>): (hi: real)
    requires rs != []
    ensures forall r :: r in rs ==> r.score <= hi
  {
    if |rs| == 1 then rs[0].score
    else
      var hi := Highest(rs[..|rs| - 1]);
      if rs[|rs| - 1].score > hi then rs[|rs| - 1].score else hi
  }

  /** A supplied score is not the judges': raising one judge turns review into failure. */
  lemma {:induction false} SuppliedVerdictCanDrop()
    ensures exists before, after, rules, v, v' ::
              && Raised(before, after) && Routed(v, before, 0.5, rules) && Routed(v', after, 0.5, rules)
              && Rank(v) > Rank(v')
  {
    var rules := Rules(0.8, 0.6, 0.6, true);
    var before := [JudgeResult("style", Classifier, 0.9, 1.0, true)];
    var after := [JudgeResult("style", Classifier, 0.95, 1.0, true)];
    assert before[0] in before;
    assert Disagreement(before, rules) && !Disagreement(after, rules);
    assert Routed(HumanReview, before, 0.5, rules) && Routed(Fail, after, 0.5, rules);
    assert Raised(before, after);
  }
}
