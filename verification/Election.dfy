/** The claim election: which run owns a work item, read from its comment thread.

    Comments are listed in ascending server id, which is the order they were posted.
    A comment is a claim breadcrumb, a release breadcrumb, or neither (module
    Breadcrumb reads that off the body). Every author has its own epochs; only the
    epoch of the provider's own identity, the marker author, elects a run. Both kinds of
    identity are trimmed as they are read off the server's answers. */
module Election {
  import opened Text

  datatype Crumb = Claim(run: string) | Release(run: string) | Note

  datatype Comment = Comment(author: string, crumb: Crumb)

  datatype Epoch = Epoch(author: string, trusted: bool, run: string)

  datatype OpenEpoch = OpenEpoch(epoch: Epoch, start: nat)

  // ---------------------------------------------------------------- one author's log

  /** The owner a single author's breadcrumbs elect: the first claim opens an epoch and
      only a release naming its run closes it. */
  function Owner(log: seq<Crumb>): Option<string> {
    if log == [] then None
    else
      var before := Owner(log[..|log| - 1]);
      match log[|log| - 1]
      case Claim(run) => if before.Some? then before else Some(run)
      case Release(run) => if before == Some(run) then None else before
      case Note => before
  }

  lemma OwnerOfExtended(log: seq<Crumb>, c: Crumb)
    ensures Owner(log + [c]) ==
            match c
            case Claim(run) => if Owner(log).Some? then Owner(log) else Some(run)
            case Release(run) => if Owner(log) == Some(run) then None else Owner(log)
            case Note => Owner(log)
  {
  }

  /** Claim p opens the epoch that is still open at the end of the log. */
  predicate Opens(log: seq<Crumb>, p: nat, run: string) {
    && p < |log|
    && log[p] == Claim(run)
    && Owner(log[..p]).None?
    && Release(run) !in log[p + 1..]
  }

  /** The owner stays the owner until a release names it. */
  lemma {:induction false} OwnerStable(log: seq<Crumb>, more: seq<Crumb>, run: string)
    requires Owner(log) == Some(run)
    requires Release(run) !in more
    ensures Owner(log + more) == Some(run)
  {
    if more == [] {
      assert log + more == log;
    } else {
      OwnerStable(log, more[..|more| - 1], run);
      assert (log + more)[..|log + more| - 1] == log + more[..|more| - 1];
      assert more[|more| - 1] in more;
    }
  }

  lemma OpenerOwns(log: seq<Crumb>, p: nat, run: string)
    requires Opens(log, p, run)
    ensures Owner(log) == Some(run)
  {
    assert log[..p + 1][..p] == log[..p];
    OwnerStable(log[..p + 1], log[p + 1..], run);
    assert log[..p + 1] + log[p + 1..] == log;
  }

  lemma {:induction false} OwnerHasOpener(log: seq<Crumb>, run: string) returns (p: nat)
    requires Owner(log) == Some(run)
    ensures Opens(log, p, run)
  {
    var front, c := log[..|log| - 1], log[|log| - 1];
    if Owner(front) == Some(run) {
      p := OwnerHasOpener(front, run);
      assert front[..p] == log[..p];
      assert log[p + 1..] == front[p + 1..] + [c];
    } else {
      p := |front|;
    }
  }

  /** The election read off the log without replaying it: a run owns the item exactly
      when it claimed while nothing was open and has not been released since. */
  lemma OwnerOpened(log: seq<Crumb>, run: string)
    ensures Owner(log) == Some(run) <==> exists p: nat :: Opens(log, p, run)
  {
    if Owner(log) == Some(run) {
      var p := OwnerHasOpener(log, run);
    }
    if p: nat :| Opens(log, p, run) {
      OpenerOwns(log, p, run);
    }
  }

  /** A claim posted while an epoch is open never wins, then or later: every thread
      elects the same owner with that claim struck out. */
  lemma {:induction false} LateClaimNeverWins(log: seq<Crumb>, p: nat)
    requires p < |log| && log[p].Claim?
    requires Owner(log[..p]).Some?
    ensures Owner(log[..p] + log[p + 1..]) == Owner(log)
  {
    var struck := log[..p] + log[p + 1..];
    if p == |log| - 1 {
      assert struck == log[..p];
    } else {
      var front := log[..|log| - 1];
      assert front[..p] == log[..p];
      LateClaimNeverWins(front, p);
      assert struck[..|struck| - 1] == front[..p] + front[p + 1..];
    }
  }

  /** Two claims cannot both hold the open epoch. */
  lemma OpenerUnique(log: seq<Crumb>, p: nat, r: string, q: nat, s: string)
    requires Opens(log, p, r) && Opens(log, q, s)
    ensures p == q && r == s
  {
    OpenerOwns(log, p, r);
    OpenerOwns(log, q, s);
    if p < q { OpenerNotReopened(log, p, q, r); }
    if q < p { OpenerNotReopened(log, q, p, s); }
  }

  lemma OpenerNotReopened(log: seq<Crumb>, p: nat, q: nat, run: string)
    requires Opens(log, p, run) && p < q <= |log|
    ensures Owner(log[..q]) == Some(run)
  {
    var front := log[..q];
    assert front[..p] == log[..p];
    assert log[p + 1..] == front[p + 1..] + log[q..];
    OpenerOwns(front, p, run);
  }

  /** A claim in the log with nobody owning the item means some epoch was released
      after it: the only way a claimer's own breadcrumb can elect nobody. */
  lemma {:induction false} UnownedAfterClaim(log: seq<Crumb>, p: nat)
    requires p < |log| && log[p].Claim?
    requires Owner(log).None?
    ensures exists k :: p < k < |log| && log[k].Release?
  {
    var front := log[..|log| - 1];
    if Owner(front).None? {
      UnownedAfterClaim(front, p);
      var k :| p < k < |front| && front[k].Release?;
      assert log[k].Release?;
    } else {
      assert log[|log| - 1].Release?;
    }
  }

  // ---------------------------------------------------------------- every author's log

  /** The key one identity's epochs are stored under. */
  function Key(author: string): string {
    Lower(Trim(author))
  }

  predicate Trusted(author: string, marker: string) {
    SameFold(author, marker)
  }

  lemma TrustedSharesKey(author: string, marker: string)
    requires Trusted(author, marker)
    ensures Key(author) == Key(marker)
  {
    TrimOfLower(author);
    TrimOfLower(marker);
  }

  /** The epoch open under one key after the comments. */
  function OpenUnder(comments: seq<Comment>, marker: string, key: string): Option<OpenEpoch> {
    if comments == [] then None
    else
      var last := |comments| - 1;
      var c := comments[last];
      var before := OpenUnder(comments[..last], marker, key);
      if Key(c.author) != key || key == "" then before
      else
        match c.crumb
        case Release(run) => if before.Some? && before.value.epoch.run == run then None else before
        case Claim(run) =>
          if before.Some? then before
          else Some(OpenEpoch(Epoch(c.author, Trusted(c.author, marker), run), last))
        case Note => before
  }

  /** The breadcrumbs the marker author posted, in order. */
  function Own(comments: seq<Comment>, marker: string): seq<Crumb> {
    if comments == [] then []
    else
      var last := comments[|comments| - 1];
      Own(comments[..|comments| - 1], marker) + (if Trusted(last.author, marker) then [last.crumb] else [])
  }

  /** What the multi-author scan elects. */
  function Elected(comments: seq<Comment>, marker: string): Option<string> {
    var open := OpenUnder(comments, marker, Key(marker));
    if open.Some? && open.value.epoch.trusted then Some(open.value.epoch.run) else None
  }

  lemma {:induction false} OpenedByKey(comments: seq<Comment>, marker: string, key: string)
    ensures var open := OpenUnder(comments, marker, key);
            open.Some? ==>
              && open.value.start < |comments|
              && comments[open.value.start].author == open.value.epoch.author
              && comments[open.value.start].crumb == Claim(open.value.epoch.run)
              && Key(open.value.epoch.author) == key
              && open.value.epoch.trusted == Trusted(open.value.epoch.author, marker)
  {
    if comments != [] {
      OpenedByKey(comments[..|comments| - 1], marker, key);
    }
  }

  predicate Trimmed(id: string) {
    Trim(id) == id
  }

  predicate AllTrimmed(comments: seq<Comment>) {
    forall c :: c in comments ==> Trimmed(c.author)
  }

  /** Trimmed identities share a key exactly when they are the same. */
  lemma KeyIsIdentity(author: string, marker: string)
    requires Trimmed(author) && Trimmed(marker)
    ensures Key(author) == Key(marker) <==> Trusted(author, marker)
  {
  }

  /** The trusted epoch is the fold over the marker author's own breadcrumbs: no other
      author's comment can open, keep open or close it. */
  lemma {:induction false} ElectedIsOwner(comments: seq<Comment>, marker: string)
    requires Trimmed(marker) && marker != "" && AllTrimmed(comments)
    ensures Elected(comments, marker) == Owner(Own(comments, marker))
  {
    if comments != [] {
      var front, c := comments[..|comments| - 1], comments[|comments| - 1];
      assert forall d :: d in front ==> d in comments;
      assert c in comments;
      ElectedIsOwner(front, marker);
      OpenIsTrusted(front, marker);
      KeyIsIdentity(c.author, marker);
      LowerKeepsLength(marker);
      if Trusted(c.author, marker) {
        OwnerOfExtended(Own(front, marker), c.crumb);
        assert Own(comments, marker) == Own(front, marker) + [c.crumb];
      } else {
        assert OpenUnder(comments, marker, Key(marker)) == OpenUnder(front, marker, Key(marker));
        assert Own(comments, marker) == Own(front, marker);
      }
    }
  }

  lemma LowerKeepsLength(marker: string)
    requires Trimmed(marker) && marker != ""
    ensures Key(marker) != ""
  {
    assert |Lower(marker)| == |marker|;
  }

  lemma OpenIsTrusted(comments: seq<Comment>, marker: string)
    requires Trimmed(marker) && AllTrimmed(comments)
    ensures var open := OpenUnder(comments, marker, Key(marker)); open.Some? ==> open.value.epoch.trusted
  {
    OpenedByKey(comments, marker, Key(marker));
    var open := OpenUnder(comments, marker, Key(marker));
    if open.Some? {
      assert comments[open.value.start] in comments;
    }
  }

  /** One appended comment moves the scan's election only from nobody to the run of a claim
      by the marker author, or from an owner to nobody by the marker author's release
      naming it. Every other comment, and every comment of another author, leaves it. */
  lemma ElectionMoves(comments: seq<Comment>, c: Comment, marker: string)
    requires Trimmed(marker) && marker != "" && AllTrimmed(comments + [c])
    ensures var before, after := Elected(comments, marker), Elected(comments + [c], marker);
            && (before.None? ==> (after.Some? <==> Trusted(c.author, marker) && c.crumb.Claim?))
            && (before.None? && after.Some? ==> after.value == c.crumb.run)
            && (before.Some? ==> (after.None? <==> Trusted(c.author, marker) && c.crumb == Release(before.value)))
            && (before.Some? && after.Some? ==> after == before)
  {
    var all := comments + [c];
    assert all[..|comments|] == comments;
    assert c in all && forall d :: d in comments ==> d in all;
    KeyIsIdentity(c.author, marker);
    LowerKeepsLength(marker);
    OpenIsTrusted(comments, marker);
  }

  lemma {:induction false} OwnConcat(a: seq<Comment>, b: seq<Comment>, marker: string)
    ensures Own(a + b, marker) == Own(a, marker) + Own(b, marker)
  {
    if b == [] {
      assert a + b == a;
    } else {
      assert (a + b)[..|a + b| - 1] == a + b[..|b| - 1];
      OwnConcat(a, b[..|b| - 1], marker);
    }
  }

  lemma OwnSplits(comments: seq<Comment>, p: nat, marker: string)
    requires p < |comments|
    ensures Own(comments, marker) ==
            Own(comments[..p], marker) + (if Trusted(comments[p].author, marker) then [comments[p].crumb] else [])
            + Own(comments[p + 1..], marker)
  {
    assert comments == comments[..p + 1] + comments[p + 1..];
    OwnConcat(comments[..p + 1], comments[p + 1..], marker);
    assert comments[..p + 1][..p] == comments[..p];
  }

  /** A claim posted while the scan elects somebody, by whatever author, never wins, then
      or later: every thread elects the same run with that comment struck out. */
  lemma LateClaimNeverElected(comments: seq<Comment>, p: nat, marker: string)
    requires Trimmed(marker) && marker != "" && AllTrimmed(comments)
    requires p < |comments| && comments[p].crumb.Claim? && Elected(comments[..p], marker).Some?
    ensures Elected(comments[..p] + comments[p + 1..], marker) == Elected(comments, marker)
  {
    ElectedIsOwner(comments, marker);
    ElectedIsOwner(comments[..p], marker);
    ElectedIsOwner(comments[..p] + comments[p + 1..], marker);
    OwnSplits(comments, p, marker);
    OwnConcat(comments[..p], comments[p + 1..], marker);
    if Trusted(comments[p].author, marker) {
      StruckFold(Own(comments[..p], marker), comments[p].crumb, Own(comments[p + 1..], marker));
    } else {
      assert Own(comments[..p], marker) + [] == Own(comments[..p], marker);
    }
  }

  lemma StruckFold(before: seq<Crumb>, c: Crumb, after: seq<Crumb>)
    requires c.Claim? && Owner(before).Some?
    ensures Owner(before + after) == Owner(before + [c] + after)
  {
    var log := before + [c] + after;
    assert log[..|before|] == before && log[|before| + 1..] == after;
    LateClaimNeverWins(log, |before|);
  }

  // ---------------------------------------------------------------- the scan itself

  /** epochs lists every open epoch, one per key, in the order they were opened. */
  ghost predicate Listing(epochs: seq<Epoch>, starts: seq<nat>, comments: seq<Comment>, marker: string) {
    && |starts| == |epochs|
    && (forall i, j :: 0 <= i < j < |starts| ==> starts[i] < starts[j])
    && (forall i :: 0 <= i < |epochs| ==>
          OpenUnder(comments, marker, Key(epochs[i].author)) == Some(OpenEpoch(epochs[i], starts[i])))
    && (forall key :: OpenUnder(comments, marker, key).Some? ==>
          exists i :: 0 <= i < |epochs| && Key(epochs[i].author) == key)
  }

  /** The table of open epochs after the whole thread. */
  method OpenEpochs(comments: seq<Comment>, marker: string) returns (open: map<string, OpenEpoch>)
    ensures forall key :: key in open <==> OpenUnder(comments, marker, key).Some?
    ensures forall key :: key in open ==> OpenUnder(comments, marker, key) == Some(open[key])
  {
    open := map[];
    for index := 0 to |comments|
      invariant forall key :: key in open <==> OpenUnder(comments[..index], marker, key).Some?
      invariant forall key :: key in open ==> OpenUnder(comments[..index], marker, key) == Some(open[key])
    {
      var comment := comments[index];
      var author := Key(comment.author);
      assert comments[..index + 1][..index] == comments[..index];
      if author != "" {
        match comment.crumb
        case Release(run) =>
          if author in open && open[author].epoch.run == run {
            open := open - {author};
          }
        case Claim(run) =>
          if author !in open {
            open := open[author := OpenEpoch(Epoch(comment.author, Trusted(comment.author, marker), run), index)];
          }
        case Note =>
      }
    }
    assert comments[..|comments|] == comments;
  }

  method ScanClaimEpochs(comments: seq<Comment>, marker: string)
    returns (epochs: seq<Epoch>)
    ensures exists starts :: Listing(epochs, starts, comments, marker)
  {
    var open := OpenEpochs(comments, marker);
    var ordered := ByOpening(open, comments, marker);
    epochs := [];
    ghost var starts: seq<nat> := [];
    for i := 0 to |ordered|
      invariant |epochs| == |starts| == i
      invariant forall j :: 0 <= j < i ==> epochs[j] == ordered[j].epoch && starts[j] == ordered[j].start
    {
      epochs, starts := epochs + [ordered[i].epoch], starts + [ordered[i].start];
    }
    forall key | OpenUnder(comments, marker, key).Some?
      ensures exists i :: 0 <= i < |epochs| && Key(epochs[i].author) == key
    {
      assert open[key] in ordered;
      OpenedByKey(comments, marker, key);
    }
    assert Listing(epochs, starts, comments, marker);
  }

  /** Takes the open epochs out of the table and orders them by their opening comment. */
  method ByOpening(open: map<string, OpenEpoch>, ghost comments: seq<Comment>, ghost marker: string)
    returns (ordered: seq<OpenEpoch>)
    requires forall key :: key in open ==> OpenUnder(comments, marker, key) == Some(open[key])
    ensures forall i, j :: 0 <= i < j < |ordered| ==> ordered[i].start < ordered[j].start
    ensures forall e :: e in ordered ==> OpenUnder(comments, marker, Key(e.epoch.author)) == Some(e)
    ensures forall key :: key in open ==> open[key] in ordered
  {
    ordered := [];
    var rest := open.Keys;
    while rest != {}
      invariant rest <= open.Keys
      invariant forall i, j :: 0 <= i < j < |ordered| ==> ordered[i].start < ordered[j].start
      invariant forall e :: e in ordered ==>
                  Key(e.epoch.author) in open.Keys - rest && open[Key(e.epoch.author)] == e
      invariant forall key :: key in open.Keys - rest ==> open[key] in ordered
      decreases rest
    {
      var key :| key in rest;
      var entry := open[key];
      OpenedByKey(comments, marker, key);
      forall e | e in ordered ensures e.start != entry.start {
        OpenedByKey(comments, marker, Key(e.epoch.author));
      }
      ordered := Insert(ordered, entry);
      rest := rest - {key};
    }
  }

  function Insert(ordered: seq<OpenEpoch>, entry: OpenEpoch): (r: seq<OpenEpoch>)
    requires forall i, j :: 0 <= i < j < |ordered| ==> ordered[i].start < ordered[j].start
    requires forall e :: e in ordered ==> e.start != entry.start
    ensures forall i, j :: 0 <= i < j < |r| ==> r[i].start < r[j].start
    ensures forall e :: e in r <==> e in ordered || e == entry
  {
    if ordered == [] || entry.start < ordered[0].start then [entry] + ordered
    else
      var tail := Insert(ordered[1..], entry);
      assert forall e :: e in tail ==> ordered[0].start < e.start;
      [ordered[0]] + tail
  }

  /** The comments as mapADOComment hands them on. */
  function Mapped(served: seq<Comment>): seq<Comment> {
    seq(|served|, i requires 0 <= i < |served| => served[i].(author := Trim(served[i].author)))
  }

  lemma MappedIsTrimmed(served: seq<Comment>)
    ensures AllTrimmed(Mapped(served))
  {
    forall c | c in Mapped(served) ensures Trimmed(c.author) {
      var i :| 0 <= i < |served| && Mapped(served)[i] == c;
      TrimTwice(served[i].author);
    }
  }

  /** The breadcrumbs served under an identity, in order; spaces around an author and case do
      not matter. */
  ghost function Posted(served: seq<Comment>, identity: string): seq<Crumb> {
    if served == [] then []
    else
      var last := served[|served| - 1];
      Posted(served[..|served| - 1], identity)
      + (if SameFold(Trim(last.author), Trim(identity)) then [last.crumb] else [])
  }

  lemma {:induction false} PostedIsOwn(served: seq<Comment>, identity: string)
    requires Trim(identity) != ""
    ensures Own(Mapped(served), Trim(identity)) == Posted(served, identity)
  {
    if served != [] {
      PostedIsOwn(served[..|served| - 1], identity);
      assert Mapped(served)[..|served| - 1] == Mapped(served[..|served| - 1]);
    }
  }

  datatype Lookup = NoIdentity | Found(winner: Option<string>)

  /** adoClaimWinner on what the server answers, whoever wrote which comments: the first
      trusted epoch of the scan is the owner the provider's own breadcrumbs elect. */
  method ClaimWinner(served: seq<Comment>, identity: string) returns (r: Lookup)
    ensures r.NoIdentity? <==> Trim(identity) == ""
    ensures r.Found? ==> r.winner == Owner(Posted(served, identity))
  {
    var marker := Trim(identity);
    if marker == "" {
      return NoIdentity;
    }
    TrimTwice(identity);
    var comments := Mapped(served);
    MappedIsTrimmed(served);
    var epochs := ScanClaimEpochs(comments, marker);
    ElectedIsOwner(comments, marker);
    PostedIsOwn(served, identity);
    for i := 0 to |epochs|
      invariant forall j :: 0 <= j < i ==> !epochs[j].trusted
    {
      if epochs[i].trusted {
        OpenedByKey(comments, marker, Key(epochs[i].author));
        TrustedSharesKey(epochs[i].author, marker);
        return Found(Some(epochs[i].run));
      }
    }
    if OpenUnder(comments, marker, Key(marker)).Some? {
      var i :| 0 <= i < |epochs| && Key(epochs[i].author) == Key(marker);
    }
    return Found(None);
  }

  /** However many authors hold open epochs, at most one of them is trusted. */
  lemma AtMostOneTrusted(epochs: seq<Epoch>, starts: seq<nat>, comments: seq<Comment>, marker: string, i: nat, j: nat)
    requires Listing(epochs, starts, comments, marker)
    requires i < |epochs| && j < |epochs| && epochs[i].trusted && epochs[j].trusted
    ensures i == j
  {
    OpenedByKey(comments, marker, Key(epochs[i].author));
    OpenedByKey(comments, marker, Key(epochs[j].author));
    TrustedSharesKey(epochs[i].author, marker);
    TrustedSharesKey(epochs[j].author, marker);
    assert starts[i] == starts[j];
  }
}
