/** The ensemble score kind by kind, said without the judges' shares: each kind's weight times
    the mean of its judges. */
module EnsembleKinds {
  import opened Text
  import opened Ensemble

  /** The weight a kind brings: its own if positive, and if some judge is of that kind. */
  ghost function KindBrings(results: seq<JudgeResult>, w: Weights, kind: Kind): real {
    if OfKind(results, kind) != [] && kind in w && w[kind] > 0.0 then w[kind] else 0.0
  }

  /** m is the mean score of the kind's judges: scoring m each, they add up the same. */
  ghost predicate IsMean(results: seq<JudgeResult>, kind: Kind, m: real) {
    Sum(OfKind(results, kind), Flat(m)) == Sum(OfKind(results, kind), Plain())
  }

  ghost predicate AreMeans(results: seq<JudgeResult>, w: Weights, mean: Kind -> real) {
    forall k: Kind :: KindBrings(results, w, k) != 0.0 ==> IsMean(results, k, mean(k))
  }

  /** Kind by kind: some quantity of each, summed. */
  ghost function Total(kinds: seq<Kind>, g: Kind -> real): real {
    if kinds == [] then 0.0 else Total(kinds[..|kinds| - 1], g) + g(kinds[|kinds| - 1])
  }

  ghost function Brings(results: seq<JudgeResult>, w: Weights): Kind -> real {
    kind => KindBrings(results, w, kind)
  }

  ghost function Parts(results: seq<JudgeResult>, w: Weights, mean: Kind -> real): Kind -> real {
    kind => KindBrings(results, w, kind) * mean(kind)
  }

  /** The kinds listed are distinct and include every judge's. */
  ghost predicate Covers(kinds: seq<Kind>, results: seq<JudgeResult>) {
    && (forall i, j :: 0 <= i < j < |kinds| ==> kinds[i] != kinds[j])
    && (forall r :: r in results ==> r.kind in kinds)
  }

  // ---------------------------------------------------------------- one kind

  /** A kind's judges are exactly those of that kind, each as often. */
  lemma {:induction false} OfKindExact(rs: seq<JudgeResult>, kind: Kind, r: JudgeResult)
    ensures multiset(OfKind(rs, kind))[r] == if r.kind == kind then multiset(rs)[r] else 0
  {
    if rs != [] {
      OfKindExact(rs[..|rs| - 1], kind, r);
      assert rs == rs[..|rs| - 1] + [rs[|rs| - 1]];
    }
  }

  lemma {:induction false} Quotient(x: real, s: real, t: real)
    requires t != 0.0 && x == s / t
    ensures x * t == s
  {
  }

  /** The shares of a kind's judges make up what the kind brings. */
  ghost predicate Splits(share: Kind -> real, results: seq<JudgeResult>, w: Weights) {
    forall k: Kind :: SplitsAt(share(k), results, w, k)
  }

  ghost predicate SplitsAt(u: real, results: seq<JudgeResult>, w: Weights, kind: Kind) {
    Sum(OfKind(results, kind), Flat(u)) == KindBrings(results, w, kind)
  }

  /** Judges whose kind brings nothing get no share. */
  ghost predicate Silent(share: Kind -> real, results: seq<JudgeResult>, w: Weights) {
    forall k: Kind :: KindBrings(results, w, k) == 0.0 ==> share(k) == 0.0
  }

  lemma {:induction false} FlatShare(group: seq<JudgeResult>, u: real, weight: real)
    requires group != [] && u == weight / (|group| as real)
    ensures Sum(group, Flat(u)) == weight
  {
    SumFlat(group, u);
    Quotient(u, weight, |group| as real);
  }

  lemma {:induction false} ShareSplits(results: seq<JudgeResult>, w: Weights, kind: Kind)
    ensures SplitsAt(Share(results, w, kind), results, w, kind)
    ensures KindBrings(results, w, kind) == 0.0 ==> Share(results, w, kind) == 0.0
  {
    if OfKind(results, kind) != [] {
      FlatShare(OfKind(results, kind), Share(results, w, kind), KindBrings(results, w, kind));
    }
  }

  lemma {:induction false} ShareTableSplits(results: seq<JudgeResult>, w: Weights)
    ensures Splits(ShareTable(results, w), results, w) && Silent(ShareTable(results, w), results, w)
  {
    forall k: Kind
      ensures SplitsAt(ShareTable(results, w)(k), results, w, k)
      ensures KindBrings(results, w, k) == 0.0 ==> ShareTable(results, w)(k) == 0.0
    {
      ShareSplits(results, w, k);
    }
  }

  /** A kind's judges carry its weight between them. */
  lemma {:induction false} WeightOfKind(results: seq<JudgeResult>, w: Weights, share: Kind -> real, kind: Kind)
    requires SplitsAt(share(kind), results, w, kind)
    ensures Sum(OfKind(results, kind), Weight(share)) == KindBrings(results, w, kind)
  {
    OfKindKinds(results, kind);
    SumSame(OfKind(results, kind), Weight(share), Flat(share(kind)));
  }

  lemma {:induction false} SumScaled(group: seq<JudgeResult>, share: Kind -> real, kind: Kind)
    requires forall r :: r in group ==> r.kind == kind
    ensures Sum(group, Weighted(share)) == share(kind) * Sum(group, Plain())
  {
    SumSame(group, Weighted(share), Scaled(share(kind), Plain()));
    SumScales(group, share(kind), Plain());
  }

  lemma Commutes(u: real, m: real)
    ensures u * m == m * u
  {
  }

  /** u m times over is m u times over. */
  lemma {:induction false} FlatSwaps(group: seq<JudgeResult>, u: real, m: real)
    ensures u * Sum(group, Flat(m)) == m * Sum(group, Flat(u))
  {
    SumScales(group, u, Flat(m));
    SumScales(group, m, Flat(u));
    forall r | r in group ensures Scaled(u, Flat(m))(r) == Scaled(m, Flat(u))(r) {
      Commutes(u, m);
    }
    SumSame(group, Scaled(u, Flat(m)), Scaled(m, Flat(u)));
  }

  lemma Swapped(sum: real, u: real, s: real, m: real, weight: real)
    requires sum == u * s && u * s == m * weight
    ensures sum == weight * m
  {
  }

  lemma {:induction false} GroupPart(group: seq<JudgeResult>, share: Kind -> real, kind: Kind, m: real, weight: real)
    requires forall r :: r in group ==> r.kind == kind
    requires Sum(group, Flat(m)) == Sum(group, Plain()) && Sum(group, Flat(share(kind))) == weight
    ensures Sum(group, Weighted(share)) == weight * m
  {
    SumScaled(group, share, kind);
    FlatSwaps(group, share(kind), m);
    Swapped(Sum(group, Weighted(share)), share(kind), Sum(group, Flat(m)), m, Sum(group, Flat(share(kind))));
  }

  /** A kind without weight adds nothing to the score. */
  lemma {:induction false} GroupSilent(group: seq<JudgeResult>, share: Kind -> real, kind: Kind)
    requires forall r :: r in group ==> r.kind == kind
    requires share(kind) == 0.0
    ensures Sum(group, Weighted(share)) == 0.0
  {
    SumZero(group, Weighted(share));
  }

  // ---------------------------------------------------------------- all kinds

  ghost function GroupSums(rs: seq<JudgeResult>, f: JudgeResult -> real): Kind -> real {
    kind => Sum(OfKind(rs, kind), f)
  }

  ghost function Listed(kinds: seq<Kind>): set<Kind> {
    set k | k in kinds
  }

  lemma {:induction false} OnlyListed(rs: seq<JudgeResult>, f: JudgeResult -> real, kinds: seq<Kind>)
    requires forall i, j :: 0 <= i < j < |kinds| ==> kinds[i] != kinds[j]
    ensures Sum(rs, Only(f, Listed(kinds))) == Total(kinds, GroupSums(rs, f))
  {
    if kinds == [] {
      SumZero(rs, Only(f, Listed(kinds)));
    } else {
      var front, last := kinds[..|kinds| - 1], kinds[|kinds| - 1];
      OnlyListed(rs, f, front);
      assert kinds == front + [last];
      assert Listed(kinds) == Listed(front) + {last};
      KindJoins(rs, f, Listed(front), last);
    }
  }

  lemma {:induction false} SumByKind(rs: seq<JudgeResult>, f: JudgeResult -> real, kinds: seq<Kind>)
    requires Covers(kinds, rs)
    ensures Sum(rs, f) == Total(kinds, GroupSums(rs, f))
  {
    OnlyListed(rs, f, kinds);
    SumSame(rs, Only(f, Listed(kinds)), f);
  }

  lemma {:induction false} TotalSame(kinds: seq<Kind>, g: Kind -> real, h: Kind -> real)
    requires forall k :: k in kinds ==> g(k) == h(k)
    ensures Total(kinds, g) == Total(kinds, h)
  {
    if kinds != [] {
      assert kinds[|kinds| - 1] in kinds;
      TotalSame(kinds[..|kinds| - 1], g, h);
    }
  }

  lemma {:induction false} WeightTotal(results: seq<JudgeResult>, w: Weights, share: Kind -> real, kinds: seq<Kind>)
    requires Covers(kinds, results) && Splits(share, results, w)
    ensures Sum(results, Weight(share)) == Total(kinds, Brings(results, w))
  {
    SumByKind(results, Weight(share), kinds);
    forall k | k in kinds ensures GroupSums(results, Weight(share))(k) == Brings(results, w)(k) {
      assert SplitsAt(share(k), results, w, k);
      WeightOfKind(results, w, share, k);
    }
    TotalSame(kinds, GroupSums(results, Weight(share)), Brings(results, w));
  }

  lemma {:induction false} PartOfKind(
    results: seq<JudgeResult>, w: Weights, share: Kind -> real, mean: Kind -> real, kind: Kind)
    requires SplitsAt(share(kind), results, w, kind)
    requires KindBrings(results, w, kind) != 0.0 ==> IsMean(results, kind, mean(kind))
    requires KindBrings(results, w, kind) == 0.0 ==> share(kind) == 0.0
    ensures Sum(OfKind(results, kind), Weighted(share)) == Parts(results, w, mean)(kind)
  {
    OfKindKinds(results, kind);
    if KindBrings(results, w, kind) == 0.0 {
      GroupSilent(OfKind(results, kind), share, kind);
    } else {
      GroupPart(OfKind(results, kind), share, kind, mean(kind), KindBrings(results, w, kind));
    }
  }

  lemma {:induction false} PartTotal(
    results: seq<JudgeResult>, w: Weights, share: Kind -> real, mean: Kind -> real, kinds: seq<Kind>)
    requires Covers(kinds, results) && Splits(share, results, w) && Silent(share, results, w)
    requires AreMeans(results, w, mean)
    ensures Sum(results, Weighted(share)) == Total(kinds, Parts(results, w, mean))
  {
    SumByKind(results, Weighted(share), kinds);
    forall k | k in kinds ensures GroupSums(results, Weighted(share))(k) == Parts(results, w, mean)(k) {
      assert SplitsAt(share(k), results, w, k);
      PartOfKind(results, w, share, mean, k);
    }
    TotalSame(kinds, GroupSums(results, Weighted(share)), Parts(results, w, mean));
  }

  /** The score is the sum of each kind's weight times its judges' mean, over the weight the
      present kinds bring; when they bring none, it is the plain mean of all judges. */
  lemma {:induction false} ScoreByKind(results: seq<JudgeResult>, w: Weights, mean: Kind -> real, kinds: seq<Kind>)
    requires results != [] && Covers(kinds, results) && AreMeans(results, w, mean)
    ensures Score(results, w) ==
            if Total(kinds, Brings(results, w)) != 0.0
            then Total(kinds, Parts(results, w, mean)) / Total(kinds, Brings(results, w))
            else Sum(results, Plain()) / (|results| as real)
  {
    ShareTableSplits(results, w);
    WeightTotal(results, w, ShareTable(results, w), kinds);
    PartTotal(results, w, ShareTable(results, w), mean, kinds);
  }

  lemma {:induction false} ScoreRatio(
    results: seq<JudgeResult>, w: Weights, mean: Kind -> real, kinds: seq<Kind>, weighted: real, total: real)
    requires results != [] && Covers(kinds, results) && AreMeans(results, w, mean)
    requires weighted == Total(kinds, Parts(results, w, mean)) && total == Total(kinds, Brings(results, w)) != 0.0
    ensures Score(results, w) == weighted / total
  {
    ScoreByKind(results, w, mean, kinds);
  }

  lemma SameTimes(x: real, y: real, m: real)
    requires x == y
    ensures x * m == y * m
  {
  }

  lemma {:induction false} PartsSame(
    a: seq<JudgeResult>, b: seq<JudgeResult>, w: Weights, mean: Kind -> real, kinds: seq<Kind>)
    requires forall k :: k in kinds ==> KindBrings(a, w, k) == KindBrings(b, w, k)
    ensures Total(kinds, Parts(a, w, mean)) == Total(kinds, Parts(b, w, mean))
  {
    forall k | k in kinds ensures Parts(a, w, mean)(k) == Parts(b, w, mean)(k) {
      SameTimes(KindBrings(a, w, k), KindBrings(b, w, k), mean(k));
    }
    TotalSame(kinds, Parts(a, w, mean), Parts(b, w, mean));
  }

  /** So a kind without weight does not move the score, and a kind's judges matter only through
      their mean. */
  lemma {:induction false} OnlyMeansMatter(
    a: seq<JudgeResult>, b: seq<JudgeResult>, w: Weights, mean: Kind -> real, kinds: seq<Kind>)
    requires a != [] && b != [] && Covers(kinds, a) && Covers(kinds, b)
    requires AreMeans(a, w, mean) && AreMeans(b, w, mean)
    requires forall k :: k in kinds ==> KindBrings(a, w, k) == KindBrings(b, w, k)
    requires Total(kinds, Brings(a, w)) != 0.0
    ensures Score(a, w) == Score(b, w)
  {
    var weighted, total := Total(kinds, Parts(a, w, mean)), Total(kinds, Brings(a, w));
    TotalSame(kinds, Brings(a, w), Brings(b, w));
    PartsSame(a, b, w, mean, kinds);
    ScoreRatio(a, w, mean, kinds, weighted, total);
    ScoreRatio(b, w, mean, kinds, weighted, total);
  }

  // ---------------------------------------------------------------- the default table

  /** Without a table, or with an empty one, deterministic and LLM judges weigh 0.4 each,
      classifiers 0.2 and people nothing. */
  lemma {:induction false} DefaultTable()
    ensures InForce(None) == InForce(Some(map[])) == map[Deterministic := 0.4, LLM := 0.4, Classifier := 0.2]
    ensures forall w: Weights :: w != map[] ==> InForce(Some(w)) == w
  {
  }

  lemma {:induction false} OfKindNext(rs: seq<JudgeResult>, r: JudgeResult, kind: Kind)
    ensures OfKind(rs + [r], kind) == OfKind(rs, kind) + (if r.kind == kind then [r] else [])
  {
    assert (rs + [r])[..|rs|] == rs;
  }

  lemma {:induction false} ExampleGroups(d: JudgeResult, a: JudgeResult, b: JudgeResult, k: Kind)
    ensures OfKind([d, a, b], k) ==
            (if d.kind == k then [d] else []) + (if a.kind == k then [a] else []) + (if b.kind == k then [b] else [])
  {
    OfKindNext([], d, k);
    assert [] + [d] == [d];
    OfKindNext([d], a, k);
    OfKindNext([d] + [a], b, k);
    assert [d] + [a] + [b] == [d, a, b];
  }

  function ExampleMean(): Kind -> real {
    (kind: Kind) => if kind == Deterministic then 1.0 else 0.0
  }

  lemma {:induction false} ExampleMeans(d: JudgeResult, a: JudgeResult, b: JudgeResult, k: Kind)
    requires d.kind == Deterministic && d.score == 1.0
    requires a.kind == b.kind == LLM && a.score == b.score == 0.0
    ensures IsMean([d, a, b], k, ExampleMean()(k))
  {
    OfKindKinds([d, a, b], k);
    forall r | r in OfKind([d, a, b], k) ensures Flat(ExampleMean()(k))(r) == Plain()(r) {
      ExampleGroups(d, a, b, k);
    }
    SumSame(OfKind([d, a, b], k), Flat(ExampleMean()(k)), Plain());
  }

  lemma {:induction false} ExampleBrings(d: JudgeResult, a: JudgeResult, b: JudgeResult, k: Kind)
    requires d.kind == Deterministic && a.kind == b.kind == LLM
    ensures KindBrings([d, a, b], InForce(None), k) == if k == Deterministic || k == LLM then 0.4 else 0.0
  {
    ExampleGroups(d, a, b, k);
  }

  /** One deterministic judge in full and two LLM judges at nothing score a half: the LLM kind
      weighs what the deterministic one does, however many judges it has. */
  lemma {:induction false} DefaultExample(d: JudgeResult, a: JudgeResult, b: JudgeResult)
    requires d.kind == Deterministic && d.score == 1.0
    requires a.kind == b.kind == LLM && a.score == b.score == 0.0
    ensures Score([d, a, b], InForce(None)) == 0.5
  {
    var rs, w, kinds, mean := [d, a, b], InForce(None), [Deterministic, LLM], ExampleMean();
    forall k: Kind ensures KindBrings(rs, w, k) != 0.0 ==> IsMean(rs, k, mean(k)) {
      ExampleMeans(d, a, b, k);
    }
    ExampleBrings(d, a, b, Deterministic);
    ExampleBrings(d, a, b, LLM);
    assert kinds[0] in kinds && kinds[1] in kinds && kinds[..1] == [Deterministic] && [Deterministic][..0] == [];
    assert Total(kinds, Brings(rs, w)) == 0.8 && Total(kinds, Parts(rs, w, mean)) == 0.4;
    ScoreByKind(rs, w, mean, kinds);
  }
}
