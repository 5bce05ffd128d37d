/** Any number of calls linking pull requests to one work item at once. Each call reads the
    item, stops if the link is there, and otherwise adds it by a patch guarded by the
    revision it read, up to four times. Calls interleave step by step with each other and
    with writers that add no link, and any request may fail, landed or not. */
module LinkProtocol {
  import opened Text
  import opened Revision
  import opened WorkItemWrites

  datatype Pc = Reading | Patching(rev: nat) | Succeeded | Exhausted | Failed

  /** since is the revision at the start; conflicts counts the patches refused for the
      revision, clashes those among them refused although the revision stood. */
  datatype Call = Call(url: string, since: nat, conflicts: nat, clashes: nat, pc: Pc)

  /** The relations after each revision; revision r is history[r - 1]. */
  datatype State = State(history: seq<seq<Relation>>, calls: map<nat, Call>)

  /** OtherWrite is anybody else's patch; Clash a conflict reported without a change of
      revision. */
  datatype Action =
    | Start(id: nat, url: string)
    | Act(id: nat)
    | Clash(id: nat)
    | Fail(id: nat, landed: bool)
    | OtherWrite(relations: seq<Relation>)

  predicate Done(pc: Pc) {
    pc.Succeeded? || pc.Exhausted? || pc.Failed?
  }

  function Current(s: State): seq<Relation> {
    if s.history == [] then [] else s.history[|s.history| - 1]
  }

  function LinkTo(url: string): Relation {
    Relation("ArtifactLink", url)
  }

  /** A patch refused for the revision counts, and is tried again four times at most. */
  function Conflicted(c: Call, clash: bool): Call {
    c.(conflicts := c.conflicts + 1,
       clashes := c.clashes + (if clash then 1 else 0),
       pc := if c.conflicts + 1 >= RETRIES then Exhausted else Reading)
  }

  /** One request of one call: what it writes, and where the call then stands. */
  function Step(history: seq<seq<Relation>>, current: seq<Relation>, c: Call): (seq<seq<Relation>>, Call) {
    match c.pc
    case Reading => (history, c.(pc := if Links(current, c.url) >= 1 then Succeeded else Patching(|history|)))
    case Patching(rev) =>
      if rev == |history| then (history + [current + [LinkTo(c.url)]], c.(pc := Succeeded))
      else (history, Conflicted(c, false))
    case _ => (history, c)
  }

  predicate Live(s: State, id: nat) {
    id in s.calls && !Done(s.calls[id].pc)
  }

  /** Nobody else adds a link. */
  ghost predicate AddsNoLink(before: seq<Relation>, after: seq<Relation>) {
    forall url :: Links(after, url) <= Links(before, url)
  }

  ghost function Next(s: State, a: Action): State {
    match a
    case Start(id, url) =>
      if id in s.calls then s else s.(calls := s.calls[id := Call(url, |s.history|, 0, 0, Reading)])
    case Act(id) =>
      if !Live(s, id) then s
      else
        var (history, c) := Step(s.history, Current(s), s.calls[id]);
        State(history, s.calls[id := c])
    case Clash(id) =>
      if !Live(s, id) || !s.calls[id].pc.Patching? then s
      else s.(calls := s.calls[id := Conflicted(s.calls[id], true)])
    case Fail(id, landed) =>
      if !Live(s, id) then s
      else
        var (history, _) := Step(s.history, Current(s), s.calls[id]);
        State(if landed then history else s.history, s.calls[id := s.calls[id].(pc := Failed)])
    case OtherWrite(relations) =>
      if AddsNoLink(Current(s), relations) then s.(history := s.history + [relations]) else s
  }

  /** Every run on an item with these relations. */
  ghost function Run(initial: seq<Relation>, actions: seq<Action>): State {
    if actions == [] then State([initial], map[])
    else Next(Run(initial, actions[..|actions| - 1]), actions[|actions| - 1])
  }

  // ---------------------------------------------------------------- what each call knows

  lemma {:induction false} SameLinks(relations: seq<Relation>, a: string, b: string)
    requires SameFold(a, b)
    ensures Links(relations, a) == Links(relations, b)
  {
    if relations != [] {
      SameLinks(relations[..|relations| - 1], a, b);
    }
  }

  lemma LinkAdds(relations: seq<Relation>, url: string, other: string)
    ensures Links(relations + [LinkTo(url)], other) == Links(relations, other) + (if SameFold(url, other) then 1 else 0)
  {
    assert (relations + [LinkTo(url)])[..|relations|] == relations;
  }

  /** A call about to patch the current revision has read it without the link. */
  predicate Informed(s: State, c: Call) {
    c.pc.Patching? ==> c.pc.rev <= |s.history| && (c.pc.rev == |s.history| ==> Links(Current(s), c.url) == 0)
  }

  /** Four conflicts end a call, and each but the clashes took another revision. */
  predicate Counted(s: State, c: Call) {
    && c.clashes <= c.conflicts <= RETRIES
    && (c.pc.Exhausted? <==> c.conflicts == RETRIES)
    && c.since + c.conflicts <= (if c.pc.Patching? then c.pc.rev else |s.history|) + c.clashes
  }

  /** A call that succeeded has the link at some revision current during it. */
  ghost predicate WasLinked(history: seq<seq<Relation>>, c: Call) {
    exists k :: 0 <= k < |history| && c.since <= k + 1 && Links(history[k], c.url) >= 1
  }

  ghost predicate Sound(s: State, c: Call) {
    Informed(s, c) && Counted(s, c) && c.since <= |s.history| && (c.pc.Succeeded? ==> WasLinked(s.history, c))
  }

  lemma SoundGrows(s: State, t: State, c: Call)
    requires Sound(s, c) && (t.history == s.history || exists r :: t.history == s.history + [r])
    ensures Sound(t, c)
  {
    if c.pc.Succeeded? {
      var k :| 0 <= k < |s.history| && c.since <= k + 1 && Links(s.history[k], c.url) >= 1;
      assert t.history[k] == s.history[k];
    }
  }

  lemma SoundActs(s: State, c: Call)
    requires Sound(s, c) && !Done(c.pc) && s.history != []
    ensures var (history, d) := Step(s.history, Current(s), c); Sound(State(history, s.calls), d)
  {
    var (history, d) := Step(s.history, Current(s), c);
    if d.pc.Succeeded? {
      LinkAdds(Current(s), c.url, c.url);
      assert Links(history[|history| - 1], c.url) >= 1;
    }
  }

  lemma SoundStep(s: State, a: Action)
    requires s.history != [] && forall id :: id in s.calls ==> Sound(s, s.calls[id])
    ensures Next(s, a).history != [] && forall id :: id in Next(s, a).calls ==> Sound(Next(s, a), Next(s, a).calls[id])
  {
    var t := Next(s, a);
    if (a.Act? || a.Fail?) && Live(s, a.id) {
      SoundActs(s, s.calls[a.id]);
    }
    forall id | id in t.calls ensures Sound(t, t.calls[id]) {
      if id in s.calls {
        SoundGrows(s, t, s.calls[id]);
      }
    }
  }

  lemma {:induction false} RunIsSound(initial: seq<Relation>, actions: seq<Action>)
    ensures var s := Run(initial, actions);
            s.history != [] && forall id :: id in s.calls ==> Sound(s, s.calls[id])
  {
    if actions != [] {
      RunIsSound(initial, actions[..|actions| - 1]);
      SoundStep(Run(initial, actions[..|actions| - 1]), actions[|actions| - 1]);
    }
  }

  // ---------------------------------------------------------------- the links

  function AtLeastOne(n: nat): nat {
    if n < 1 then 1 else n
  }

  /** However many calls link the same pull request at once, to an item that others write to
      without adding links, and whichever requests fail, the item never carries the link
      more than once, unless it already did before. */
  lemma {:induction false} AtMostOneLink(initial: seq<Relation>, actions: seq<Action>, url: string)
    ensures Links(Current(Run(initial, actions)), url) <= AtLeastOne(Links(initial, url))
  {
    if actions != [] {
      var front, a := actions[..|actions| - 1], actions[|actions| - 1];
      AtMostOneLink(initial, front, url);
      RunIsSound(initial, front);
      LinkStep(Run(initial, front), a, url);
    }
  }

  /** One step adds no link, or the first. */
  lemma LinkStep(s: State, a: Action, url: string)
    requires s.history != [] && forall id :: id in s.calls ==> Sound(s, s.calls[id])
    ensures var before, after := Links(Current(s), url), Links(Current(Next(s, a)), url);
            after <= before || (before == 0 && after == 1)
  {
    if (a.Act? || a.Fail?) && Live(s, a.id) {
      var c := s.calls[a.id];
      LinkAdds(Current(s), c.url, url);
      if SameFold(c.url, url) {
        SameLinks(Current(s), c.url, url);
      }
    }
  }

  /** A call that reports success has the link in place at a revision current during it,
      whoever put it there. */
  lemma LinkedWasLinked(initial: seq<Relation>, actions: seq<Action>, id: nat)
    requires var s := Run(initial, actions); id in s.calls && s.calls[id].pc.Succeeded?
    ensures var s := Run(initial, actions); WasLinked(s.history, s.calls[id])
  {
    RunIsSound(initial, actions);
  }

  /** A call gives up exactly after four conflicts, and then at least four revisions were
      written during it, but for the conflicts the server reported without one. */
  lemma FourAttempts(initial: seq<Relation>, actions: seq<Action>, id: nat)
    requires id in Run(initial, actions).calls
    ensures var s := Run(initial, actions); var c := s.calls[id];
            && c.conflicts <= RETRIES
            && (c.pc.Exhausted? <==> c.conflicts == RETRIES)
            && (c.pc.Exhausted? ==> |s.history| - c.since + c.clashes >= RETRIES)
  {
    RunIsSound(initial, actions);
  }

  /** How often the server reported a conflict to the call although the revision stood. */
  function Clashes(actions: seq<Action>, id: nat): nat {
    if actions == [] then 0
    else Clashes(actions[..|actions| - 1], id) + (if actions[|actions| - 1] == Clash(id) then 1 else 0)
  }

  /** Without such reports a call gives up only after four revisions were written during it. */
  lemma {:induction false} ClashesAreReported(initial: seq<Relation>, actions: seq<Action>, id: nat)
    requires id in Run(initial, actions).calls
    ensures Run(initial, actions).calls[id].clashes <= Clashes(actions, id)
  {
    var front, a := actions[..|actions| - 1], actions[|actions| - 1];
    if id in Run(initial, front).calls {
      ClashesAreReported(initial, front, id);
    }
  }

  lemma ActsTwice(s: State, id: nat)
    requires s.history != [] && id in s.calls && s.calls[id].pc.Reading?
    ensures var t := Next(Next(s, Act(id)), Act(id));
            && t.calls == s.calls[id := s.calls[id].(pc := Succeeded)]
            && Links(Current(t), s.calls[id].url) >= 1
  {
    var c := s.calls[id];
    LinkAdds(Current(s), c.url, c.url);
    var read := Next(s, Act(id));
    assert read.history == s.history && read.calls[id].url == c.url;
  }

  lemma {:induction false} RunNext(initial: seq<Relation>, actions: seq<Action>, a: Action)
    ensures Run(initial, actions + [a]) == Next(Run(initial, actions), a)
  {
    assert (actions + [a])[..|actions|] == actions;
  }

  /** A call whose read and patch nobody comes between succeeds, on whatever attempt and
      whatever the other calls are at; the item then carries the link. */
  lemma {:induction false} UndisturbedLinks(initial: seq<Relation>, actions: seq<Action>, id: nat)
    requires var s := Run(initial, actions); id in s.calls && s.calls[id].pc.Reading?
    ensures var s, t := Run(initial, actions), Run(initial, actions + [Act(id)] + [Act(id)]);
            && t.calls == s.calls[id := s.calls[id].(pc := Succeeded)]
            && Links(Current(t), s.calls[id].url) >= 1
  {
    RunNext(initial, actions, Act(id));
    RunNext(initial, actions + [Act(id)], Act(id));
    RunIsSound(initial, actions);
    ActsTwice(Run(initial, actions), id);
  }

  /** Nobody else removes the link. */
  ghost predicate Keeps(initial: seq<Relation>, actions: seq<Action>, url: string) {
    actions == [] ||
    (var front, a := actions[..|actions| - 1], actions[|actions| - 1];
     && Keeps(initial, front, url)
     && (a.OtherWrite? ==> Links(a.relations, url) >= Links(Current(Run(initial, front)), url)))
  }

  /** Some call has reported the link. */
  predicate Reported(s: State, url: string) {
    exists id :: id in s.calls && s.calls[id].pc.Succeeded? && SameFold(s.calls[id].url, url)
  }

  /** If nobody removes it, the link is there, once, from the first reported success on. */
  lemma {:induction false} ExactlyOneLink(initial: seq<Relation>, actions: seq<Action>, url: string)
    requires Keeps(initial, actions, url) && Links(initial, url) <= 1
    ensures Reported(Run(initial, actions), url) ==> Links(Current(Run(initial, actions)), url) == 1
  {
    AtMostOneLink(initial, actions, url);
    if actions != [] {
      var front, a := actions[..|actions| - 1], actions[|actions| - 1];
      ExactlyOneLink(initial, front, url);
      RunIsSound(initial, front);
      ReportedStep(Run(initial, front), a, url);
    }
  }

  /** One request adds its own link or none. */
  lemma StepKeeps(history: seq<seq<Relation>>, current: seq<Relation>, c: Call, url: string)
    requires history != [] && history[|history| - 1] == current
    ensures var (after, d) := Step(history, current, c);
            && after != []
            && Links(after[|after| - 1], url) >= Links(current, url)
            && (d.pc.Succeeded? && !c.pc.Succeeded? && SameFold(c.url, url) ==> Links(after[|after| - 1], url) >= 1)
  {
    LinkAdds(current, c.url, url);
    if SameFold(c.url, url) {
      SameLinks(current, c.url, url);
    }
  }

  lemma ReportedStep(s: State, a: Action, url: string)
    requires s.history != [] && (Reported(s, url) ==> Links(Current(s), url) >= 1)
    requires a.OtherWrite? ==> Links(a.relations, url) >= Links(Current(s), url)
    ensures Reported(Next(s, a), url) ==> Links(Current(Next(s, a)), url) >= 1
  {
    var t := Next(s, a);
    if (a.Act? || a.Fail?) && Live(s, a.id) {
      StepKeeps(s.history, Current(s), s.calls[a.id], url);
    }
    assert Links(Current(t), url) >= Links(Current(s), url);
    if Reported(t, url) && !Reported(s, url) {
      var id :| id in t.calls && t.calls[id].pc.Succeeded? && SameFold(t.calls[id].url, url);
      assert a == Act(id);
    }
  }
}
