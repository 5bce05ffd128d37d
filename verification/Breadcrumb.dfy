/** The breadcrumb lines that carry a claim or a release in a comment body: how they
    are written, and how the two line patterns
    (?m)^goobers-claim:\s*run=(\S+)\s*$ and (?m)^goobers-claim-release:\s*run=(\S+)\s*$
    read them back. */
module Breadcrumb {
  import opened Text
  import opened Election

  const CLAIM := "goobers-claim:"
  const RELEASE := "goobers-claim-release:"
  const RUN := "run="

  predicate Blank(s: string) {
    forall i :: 0 <= i < |s| ==> Space(s[i])
  }

  predicate Solid(s: string) {
    forall i :: 0 <= i < |s| ==> !Space(s[i])
  }

  predicate LineStart(body: string, i: nat) {
    i <= |body| && (i == 0 || body[i - 1] == '\n')
  }

  predicate LineEnd(body: string, i: nat) {
    i == |body| || (i < |body| && body[i] == '\n')
  }

  /** One way the pattern can match: the word at i, white space up to j, run=, the
      captured run up to e, white space up to m, and the end of a line. */
  ghost predicate Matches(word: string, body: string, i: nat, j: nat, e: nat, m: nat) {
    && LineStart(body, i)
    && i + |word| <= j && j + |RUN| < e <= m <= |body|
    && body[i..i + |word|] == word
    && Blank(body[i + |word|..j])
    && body[j..j + |RUN|] == RUN
    && Solid(body[j + |RUN|..e])
    && Blank(body[e..m])
    && LineEnd(body, m)
  }

  // ---------------------------------------------------------------- the matcher

  function SkipBlank(body: string, i: nat): (j: nat)
    requires i <= |body|
    ensures i <= j <= |body|
    decreases |body| - i
  {
    if i < |body| && Space(body[i]) then SkipBlank(body, i + 1) else i
  }

  function SkipSolid(body: string, i: nat): (j: nat)
    requires i <= |body|
    ensures i <= j <= |body|
    decreases |body| - i
  {
    if i < |body| && !Space(body[i]) then SkipSolid(body, i + 1) else i
  }

  /** Only white space stands between i and the end of its line. */
  predicate ClosesLine(body: string, i: nat)
    requires i <= |body|
    decreases |body| - i
  {
    LineEnd(body, i) || (Space(body[i]) && ClosesLine(body, i + 1))
  }

  predicate StartsAt(body: string, i: nat, word: string) {
    i + |word| <= |body| && body[i..i + |word|] == word
  }

  /** The run named at j, when the rest of its line is blank. */
  function RunAt(body: string, j: nat): Option<string>
    requires j <= |body|
  {
    if !StartsAt(body, j, RUN) then None
    else
      var k := j + |RUN|;
      var e := SkipSolid(body, k);
      if e == k || !ClosesLine(body, e) then None else Some(body[k..e])
  }

  function MatchAt(word: string, body: string, i: nat): Option<string>
    requires i <= |body|
  {
    if !LineStart(body, i) || !StartsAt(body, i, word) then None
    else RunAt(body, SkipBlank(body, i + |word|))
  }

  /** The leftmost match's run at or after i. */
  function FindRun(word: string, body: string, i: nat): Option<string>
    requires i <= |body|
    decreases |body| - i
  {
    if MatchAt(word, body, i).Some? then MatchAt(word, body, i)
    else if i == |body| then None
    else FindRun(word, body, i + 1)
  }

  /** What a comment body means to the election: a release line wins over a claim line. */
  function CrumbOf(body: string): Crumb {
    var released, claimed := FindRun(RELEASE, body, 0), FindRun(CLAIM, body, 0);
    if released.Some? then Release(released.value)
    else if claimed.Some? then Claim(claimed.value)
    else Note
  }

  // ---------------------------------------------------------------- against the pattern

  lemma {:induction false} SkippedIsBlank(body: string, i: nat)
    requires i <= |body|
    ensures Blank(body[i..SkipBlank(body, i)])
    decreases |body| - i
  {
    if i < |body| && Space(body[i]) {
      SkippedIsBlank(body, i + 1);
      assert body[i..SkipBlank(body, i)] == [body[i]] + body[i + 1..SkipBlank(body, i + 1)];
    }
  }

  lemma {:induction false} SkippedIsSolid(body: string, i: nat)
    requires i <= |body|
    ensures Solid(body[i..SkipSolid(body, i)])
    decreases |body| - i
  {
    if i < |body| && !Space(body[i]) {
      SkippedIsSolid(body, i + 1);
      assert body[i..SkipSolid(body, i)] == [body[i]] + body[i + 1..SkipSolid(body, i + 1)];
    }
  }

  /** A run read back is never empty and never holds white space. */
  lemma {:induction false} FoundIsSolid(word: string, body: string, i: nat)
    requires i <= |body|
    ensures var r := FindRun(word, body, i); r.Some? ==> r.value != "" && Solid(r.value)
    decreases |body| - i
  {
    if MatchAt(word, body, i).Some? {
      SkippedIsSolid(body, SkipBlank(body, i + |word|) + |RUN|);
    } else if i < |body| {
      FoundIsSolid(word, body, i + 1);
    }
  }

  lemma {:induction false} ClosesLineMeans(body: string, e: nat) returns (m: nat)
    requires e <= |body| && ClosesLine(body, e)
    ensures e <= m <= |body| && Blank(body[e..m]) && LineEnd(body, m)
    decreases |body| - e
  {
    m := e;
    if !LineEnd(body, e) {
      m := ClosesLineMeans(body, e + 1);
      assert body[e..m] == [body[e]] + body[e + 1..m];
    }
  }

  lemma {:induction false} ClosesLineFrom(body: string, e: nat, m: nat)
    requires e <= m <= |body| && Blank(body[e..m]) && LineEnd(body, m)
    ensures ClosesLine(body, e)
    decreases m - e
  {
    if !LineEnd(body, e) {
      assert body[e] == body[e..m][0];
      assert body[e + 1..m] == body[e..m][1..];
      ClosesLineFrom(body, e + 1, m);
    }
  }

  lemma {:induction false} SkipBlankStops(body: string, i: nat, j: nat)
    requires i <= j < |body| && Blank(body[i..j]) && !Space(body[j])
    ensures SkipBlank(body, i) == j
    decreases j - i
  {
    if i < j {
      assert body[i] == body[i..j][0];
      assert body[i + 1..j] == body[i..j][1..];
      SkipBlankStops(body, i + 1, j);
    }
  }

  lemma {:induction false} SkipSolidStops(body: string, i: nat, j: nat)
    requires i <= j <= |body| && Solid(body[i..j]) && (j == |body| || Space(body[j]))
    ensures SkipSolid(body, i) == j
    decreases j - i
  {
    if i < j {
      assert body[i] == body[i..j][0];
      assert body[i + 1..j] == body[i..j][1..];
      SkipSolidStops(body, i + 1, j);
    }
  }

  /** The matcher finds exactly what the pattern matches at i, and every way the
      pattern can match there captures the same run. */
  lemma MatchAtIsPattern(word: string, body: string, i: nat, run: string)
    requires i <= |body|
    ensures MatchAt(word, body, i) == Some(run)
            <==> exists j: nat, e: nat, m: nat :: Matches(word, body, i, j, e, m) && body[j + |RUN|..e] == run
  {
    if MatchAt(word, body, i) == Some(run) {
      SkippedIsBlank(body, i + |word|);
      var j := SkipBlank(body, i + |word|);
      SkippedIsSolid(body, j + |RUN|);
      var e := SkipSolid(body, j + |RUN|);
      var m := ClosesLineMeans(body, e);
      assert Matches(word, body, i, j, e, m);
    }
    if j: nat, e: nat, m: nat :| Matches(word, body, i, j, e, m) && body[j + |RUN|..e] == run {
      MatchAtFinds(word, body, i, j, e, m);
    }
  }

  lemma MatchAtFinds(word: string, body: string, i: nat, j: nat, e: nat, m: nat)
    requires Matches(word, body, i, j, e, m)
    ensures MatchAt(word, body, i) == Some(body[j + |RUN|..e])
  {
    assert body[j] == body[j..j + |RUN|][0] == 'r';
    SkipBlankStops(body, i + |word|, j);
    if e < |body| {
      if e < m { assert body[e] == body[e..m][0]; }
      assert Space(body[e]);
    }
    SkipSolidStops(body, j + |RUN|, e);
    ClosesLineFrom(body, e, m);
  }

  // ---------------------------------------------------------------- round trips

  /** A breadcrumb comment: the machine line, then anything (the note, the release
      reason, the attribution marker). */
  function Render(word: string, run: string, rest: string): string {
    word + " " + RUN + run + "\n\n" + rest
  }

  lemma FirstLineMatches(word: string, run: string, rest: string)
    requires run != "" && Solid(run)
    ensures FindRun(word, Render(word, run, rest), 0) == Some(run)
  {
    var body := Render(word, run, rest);
    var j := |word| + 1;
    var e := j + |RUN| + |run|;
    assert body[0..|word|] == word;
    assert body[|word|..j] == " ";
    assert body[j..j + |RUN|] == RUN;
    assert body[j + |RUN|..e] == run;
    assert body[e] == '\n';
    assert Matches(word, body, 0, j, e, e);
    MatchAtFinds(word, body, 0, j, e, e);
  }

  lemma {:induction false} SkipBlankShift(pre: string, s: string, i: nat)
    requires i <= |s|
    ensures SkipBlank(pre + s, |pre| + i) == |pre| + SkipBlank(s, i)
    decreases |s| - i
  {
    if i < |s| && Space(s[i]) { SkipBlankShift(pre, s, i + 1); }
  }

  lemma {:induction false} SkipSolidShift(pre: string, s: string, i: nat)
    requires i <= |s|
    ensures SkipSolid(pre + s, |pre| + i) == |pre| + SkipSolid(s, i)
    decreases |s| - i
  {
    if i < |s| && !Space(s[i]) { SkipSolidShift(pre, s, i + 1); }
  }

  lemma {:induction false} ClosesLineShift(pre: string, s: string, i: nat)
    requires i <= |s|
    ensures ClosesLine(pre + s, |pre| + i) == ClosesLine(s, i)
    decreases |s| - i
  {
    if i < |s| && !LineEnd(s, i) && Space(s[i]) { ClosesLineShift(pre, s, i + 1); }
  }

  lemma StartsAtShift(pre: string, s: string, i: nat, word: string)
    ensures StartsAt(pre + s, |pre| + i, word) == StartsAt(s, i, word)
  {
  }

  lemma RunAtShift(pre: string, s: string, j: nat)
    requires j <= |s|
    ensures RunAt(pre + s, |pre| + j) == RunAt(s, j)
  {
    StartsAtShift(pre, s, j, RUN);
    if StartsAt(s, j, RUN) {
      var k := j + |RUN|;
      SkipSolidShift(pre, s, k);
      var e := SkipSolid(s, k);
      ClosesLineShift(pre, s, e);
      assert (pre + s)[|pre| + k..|pre| + e] == s[k..e];
    }
  }

  /** Text before a line break does not change what matches after it. */
  lemma MatchAtShift(word: string, pre: string, s: string, i: nat)
    requires i <= |s| && pre != "" && pre[|pre| - 1] == '\n'
    ensures MatchAt(word, pre + s, |pre| + i) == MatchAt(word, s, i)
  {
    StartsAtShift(pre, s, i, word);
    if StartsAt(s, i, word) {
      SkipBlankShift(pre, s, i + |word|);
      RunAtShift(pre, s, SkipBlank(s, i + |word|));
      assert |pre| + i + |word| == |pre| + (i + |word|);
    }
  }

  lemma {:induction false} FindRunShift(word: string, pre: string, s: string, i: nat)
    requires i <= |s| && pre != "" && pre[|pre| - 1] == '\n'
    ensures FindRun(word, pre + s, |pre| + i) == FindRun(word, s, i)
    decreases |s| - i
  {
    MatchAtShift(word, pre, s, i);
    if i < |s| { FindRunShift(word, pre, s, i + 1); }
  }

  /** Searching can start at n when nothing matches before it. */
  lemma {:induction false} FindRunSkips(word: string, body: string, i: nat, n: nat)
    requires i <= n <= |body|
    requires forall k :: i <= k < n ==> MatchAt(word, body, k).None?
    ensures FindRun(word, body, i) == FindRun(word, body, n)
    decreases n - i
  {
    if i < n { FindRunSkips(word, body, i + 1, n); }
  }

  function ClaimLine(run: string): string {
    CLAIM + " " + RUN + run + "\n\n"
  }

  /** The only line starts in a claim line are its own and the blank line's. */
  lemma ClaimLineStarts(run: string, rest: string, k: nat)
    requires Solid(run) && 0 < k < |ClaimLine(run)| && LineStart(ClaimLine(run) + rest, k)
    ensures (ClaimLine(run) + rest)[k] == '\n'
  {
    var line := ClaimLine(run);
    assert line[k - 1] == '\n';
    assert Solid(CLAIM) && Solid(RUN);
    assert k == |line| - 1;
  }

  lemma NoReleaseInClaimLine(run: string, rest: string, k: nat)
    requires Solid(run) && k < |ClaimLine(run)|
    ensures MatchAt(RELEASE, ClaimLine(run) + rest, k).None?
  {
    var body := ClaimLine(run) + rest;
    if k == 0 {
      assert body[13] == ':' && RELEASE[13] == '-';
    } else if LineStart(body, k) {
      ClaimLineStarts(run, rest, k);
      assert RELEASE[0] == 'g';
    }
  }

  /** No release line hides in a claim comment's own line. */
  lemma ClaimLineIsNoRelease(run: string, rest: string)
    requires Solid(run)
    ensures FindRun(RELEASE, Render(CLAIM, run, rest), 0) == FindRun(RELEASE, rest, 0)
  {
    var line := ClaimLine(run);
    assert Render(CLAIM, run, rest) == line + rest;
    forall k | 0 <= k < |line| ensures MatchAt(RELEASE, line + rest, k).None? {
      NoReleaseInClaimLine(run, rest, k);
    }
    FindRunSkips(RELEASE, line + rest, 0, |line|);
    FindRunShift(RELEASE, line, rest, 0);
  }

  /** A claim comment reads back as a claim by its own run exactly when the run id is
      non-empty and has no white space and the text after the line carries no release
      line. The providers only require a run id that is not all white space. */
  lemma ClaimRoundTrip(run: string, rest: string)
    ensures CrumbOf(Render(CLAIM, run, rest)) == Claim(run)
            <==> run != "" && Solid(run) && FindRun(RELEASE, rest, 0).None?
  {
    FoundIsSolid(CLAIM, Render(CLAIM, run, rest), 0);
    if run != "" && Solid(run) {
      FirstLineMatches(CLAIM, run, rest);
      ClaimLineIsNoRelease(run, rest);
    }
  }

  /** A release comment reads back as a release of its run exactly when the run id is
      non-empty and has no white space, whatever text follows the line. */
  lemma ReleaseRoundTrip(run: string, rest: string)
    ensures CrumbOf(Render(RELEASE, run, rest)) == Release(run) <==> run != "" && Solid(run)
  {
    FoundIsSolid(RELEASE, Render(RELEASE, run, rest), 0);
    if run != "" && Solid(run) {
      FirstLineMatches(RELEASE, run, rest);
    }
  }

  // ---------------------------------------------------------------- the claim comment

  const NOTE_START := "Claimed by Goobers run `"
  const NOTE_END := "` for exactly-once processing."

  /** The note claimBreadcrumb prints under its machine line. */
  function ClaimNote(run: string): string {
    NOTE_START + run + NOTE_END
  }

  /** claimBreadcrumb. */
  function ClaimBreadcrumb(run: string): string {
    Render(CLAIM, run, ClaimNote(run))
  }

  predicate OneLine(s: string) {
    '\n' !in s
  }

  /** A single line that does not begin like the pattern carries no match. */
  lemma NoMatchInLine(word: string, s: string)
    requires OneLine(s) && word != "" && s != "" && s[0] != word[0]
    ensures FindRun(word, s, 0).None?
  {
    forall k | 0 <= k < |s| ensures MatchAt(word, s, k).None? {
      if k > 0 {
        assert s[k - 1] in s;
      }
    }
    FindRunSkips(word, s, 0, |s|);
  }

  lemma NoteIsOneLine(run: string)
    requires OneLine(run)
    ensures OneLine(ClaimNote(run)) && ClaimNote(run)[0] == 'C'
  {
    assert OneLine(NOTE_START) && OneLine(NOTE_END);
    assert NOTE_START[0] == 'C';
  }

  /** The claim comment as written reads back as its run's claim exactly for non-empty run
      ids without white space. */
  lemma ClaimBreadcrumbRoundTrip(run: string)
    ensures CrumbOf(ClaimBreadcrumb(run)) == Claim(run) <==> run != "" && Solid(run)
  {
    ClaimRoundTrip(run, ClaimNote(run));
    if Solid(run) {
      assert OneLine(run);
      NoteIsOneLine(run);
      assert RELEASE[0] == 'g';
      NoMatchInLine(RELEASE, ClaimNote(run));
    }
  }

  /** A run id of two words: its claim is not seen as a claim by it. */
  lemma SpacedRunDoesNotReadBack()
    ensures CrumbOf(ClaimBreadcrumb("run 1")) != Claim("run 1")
  {
    assert Space("run 1"[3]);
    ClaimBreadcrumbRoundTrip("run 1");
  }
}
