# Goobers providers, verified

Goobers lets many automation runs share a forge (GitHub, Gitea, Azure DevOps) through weak
primitives: an append-only comment thread, a revision-guarded patch, paged lists, a merge job
the server runs on its own. This project models the provider code that copes with those
primitives, and the judge ensemble that scores evaluation scenarios, and proves what they
promise over every input, every interleaving and every run.

| file | what it models |
|---|---|
| `Text.dfy` | trimming, case folding, decimal numbers |
| `Breadcrumb.dfy` | claim and release lines in comment bodies, and the two line patterns that read them |
| `Election.dfy` | which run owns a work item, read from the comment thread |
| `ClaimProtocol.dfy`, `ClaimLabel.dfy`, `StrayLabel.dfy` | claim and release calls of any number of runs, interleaved step by step, with failures; mutual exclusion, authority and the claim label |
| `Selection.dfy` | the reference listing: the matching records, in order |
| `AdoPaging.dfy`, `GithubPaging.dfy`, `GiteaPaging.dfy` | three resumable listings, each against that reference |
| `LabelScan.dfy`, `GrowingScan.dfy`, `LabelReplay.dfy` | GitHub's incremental label-history scan over any number of cycles, and while events arrive; what its transitions replay to |
| `LabelWalk.dfy`, `Tags.dfy` | Azure DevOps label history, anchored to a revision; case-insensitive tags |
| `Revision.dfy`, `WorkItemWrites.dfy` | writes guarded by a `test` on `/rev` (sections 4.6 and 5 of RFC 6902) against arbitrary other writers |
| `LinkProtocol.dfy` | any number of link calls interleaved on one work item |
| `Landing.dfy` | polling and cancelling auto-complete against the server's completion job |
| `Policy.dfy` | reducing branch-policy evaluations, and the verdicts that must agree with it |
| `CredentialRefresh.dfy` | the refreshing delivered credential |
| `Backoff.dfy` | the jittered wait for a claim label |
| `Ensemble.dfy`, `EnsembleKinds.dfy` | the judge ensemble score and review routing; the score kind by kind |

The forge is an explicit state machine: each provider call is one atomic step, other parties act
between any two of them, and a failed call may or may not have landed. Clocks, jitter, resolver
answers and other requests' outcomes are parameters. Where the code mutates state in place the
model does too (classes, an array, loops), and each such method is tied to a function of the old
state about which the properties are proved. Real arithmetic stands for floating point.

## What turned out false, and exactly when

Each of these has a lemma with a concrete input or run and a lemma giving the exact condition.

- Mutual exclusion fails for hooks that name the caller owner when no epoch is open
  (Gitea's `missingBreadcrumbWinner`), and holds for exactly the others:
  `ClaimProtocol.TwoOwners`, `ClaimProtocol.MutualExclusionIff`.
- A release that does not name the run it expects, or cannot restore a label, can take the label
  off the next owner: `ClaimLabel.LostLabel`, `ClaimLabel.LabelSafeIff`.
- The converse, no label on a free item, fails for every provider when a claim overlaps a release,
  and holds when none does, however many claims, or releases, race: `StrayLabel.LabelledLate`,
  `StrayLabel.LabelExactIff`.
- A retried claim can be told it owns an item that never carried the label, unless the provider
  restores an owned label or waits for it (GitHub does; Azure DevOps and Gitea do not):
  `ClaimLabel.ToldUnlabelled`, `ClaimLabel.ToldSawLabelIff`.
- A breadcrumb reads back as written exactly for run ids without white space (and, for a claim,
  when the text after it carries no release line); callers only reject blank ids:
  `Breadcrumb.SpacedRunDoesNotReadBack`, `Breadcrumb.ClaimRoundTrip`,
  `Breadcrumb.ClaimBreadcrumbRoundTrip`, `Breadcrumb.ReleaseRoundTrip`.
- A Gitea cursor resumes at the wrong record when the page width changes between calls, except in
  the first page: `GiteaPaging.WiderPageLosesRecord`, `GiteaPaging.ResumesIffSameWidth`.
- Azure DevOps label transitions, sorted by date as returned, replay to the wrong membership when
  dates go back: `LabelWalk.BackdatedReplay`, `LabelWalk.SortedReplayIff`.
- `Cancelled` is honest exactly when the server shows a cleared auto-complete as absent; an object
  without an identity, which the code also accepts as cleared, hides a running completion from the
  re-read: `Landing.EmptyIdentityHidesCompletion`, `Landing.CancelIsHonestIff`,
  `Landing.CancelledReadIsHonestIff`. The comment above
  the re-read also says the pull request must still be active; the code does not check that, so an
  abandoned one is reported Cancelled, which is harmless and is what the model does.
- `Pending` does not promise a landing, and a queue time left by an earlier completion can keep a
  finished cancel from being reported: `Landing.FailedCompletionCanPollPending`,
  `Landing.PollEvictsIff`, `Landing.StaleQueueTimeHidesCancel`, `Landing.UndisturbedCancel`.
- A direct merge can stand beside a pending CI state, when every blocking policy is
  notApplicable or human-only: `Policy.DirectBesidePending`, `Policy.DirectPassesIff`.
- With a score supplied by the caller, raising a judge's score can lower the verdict:
  `Ensemble.SuppliedVerdictCanDrop`, `Ensemble.SuppliedVerdictMonotoneIff`.

## Model

| member | source | states |
|---|---|---|
| `Election.OwnerOpened` | providers/ado_workitems.go:1058-1103 | a run owns the item exactly when it claimed while nothing was open and no release has named it since |
| `Election.OwnerStable` | providers/ado_workitems.go:1066-1093 | an owner stays the owner whatever is appended, until a release names it |
| `Election.LateClaimNeverWins` | providers/ado_workitems.go:1080-1093 | a claim posted while an epoch is open can be struck out of any thread without changing the owner, then or later |
| `Election.OpenerUnique` | providers/ado_workitems.go:1058-1103 | at most one claim holds the open epoch |
| `Election.UnownedAfterClaim` | providers/claim_protocol.go:38-46 | a thread with a claim and no owner has a release after that claim |
| `Election.ElectedIsOwner` | providers/ado_workitems.go:1028-1103 | the multi-author scan over trimmed identities elects what a fold over the marker author's own breadcrumbs elects: no other author's comment opens, keeps open or closes the epoch |
| `Election.ElectionMoves` | providers/ado_workitems.go:1066-1093 | one appended comment moves the scan's election from nobody to a run exactly by the marker author's claim of that run, and from an owner to nobody exactly by the marker author's release naming it |
| `Election.LateClaimNeverElected` | providers/ado_workitems.go:1058-1103 | in the multi-author scan a claim posted while somebody is elected, by whatever author, can be struck out of any thread without changing the election |
| `Election.OpenedByKey` | providers/ado_workitems.go:1080-1093 | every open epoch goes back to a claim comment of that author and run under that key |
| `Election.ScanClaimEpochs` | providers/ado_workitems.go:1058-1103 | the loop over a table of open epochs lists every open epoch, one per author key, in the order they were opened |
| `Election.ByOpening` | providers/ado_workitems.go:1094-1103 | the listed epochs are the table's, ordered by their opening comment |
| `Election.ClaimWinner` | providers/ado_workitems.go:1028-1041 | whoever wrote which comments, and however the server pads identities, the first trusted epoch of the scan is the run elected by the breadcrumbs served under that identity, in the order served; an empty identity is an error |
| `Election.AtMostOneTrusted` | providers/ado_workitems.go:1058-1103 | a scan never lists two trusted epochs |
| `Text.TrimMeans` | providers/ado_workitems.go:1293 | trimming drops white space from both ends, all of it and nothing else |
| `Text.SameFoldMeans` | providers/ado_workitems.go:1058-1093 | two names fold alike exactly when they agree letter by letter up to case |
| `Breadcrumb.MatchAtIsPattern` | providers/github_issues.go:795-803 | the deterministic matcher finds exactly what the line pattern matches, and every way the pattern can match at a place captures the same run |
| `Breadcrumb.FoundIsSolid` | providers/github_issues.go:821-835 | a run id read back is non-empty and free of white space |
| `Breadcrumb.ClaimRoundTrip` | providers/github_issues.go:804-835 | a claim comment reads back as its own claim exactly for run ids without white space and no release line in the text below |
| `Breadcrumb.ClaimBreadcrumbRoundTrip` | providers/github_issues.go:804-806 | the claim comment as written reads back as its run's claim exactly for non-empty run ids without white space |
| `Breadcrumb.SpacedRunDoesNotReadBack` | providers/github_issues.go:804-827 | the claim comment of a two-word run id does not read back as its claim |
| `Breadcrumb.ReleaseRoundTrip` | internal/claimrelease/claimrelease.go:341-344 | a release comment reads back as its own release exactly for run ids without white space, whatever follows |
| `Breadcrumb.ClaimLineIsNoRelease` | providers/github_issues.go:795-819 | a claim line is never taken for a release line |
| `ClaimProtocol.ClaimLinearizes` | providers/claim_protocol.go:19-53 | in every interleaving, the winner a claim reports was the elected owner at a moment inside the call, or was assumed with nobody elected |
| `ClaimProtocol.ToldOwnerIsOwner` | providers/claim_protocol.go:19-53 | in every interleaving, a run told it owns the item is the elected owner until a release names it |
| `ClaimProtocol.MutualExclusion` | providers/claim_protocol.go:19-53 | no reachable state has two live owners, for hooks that assume no winner |
| `ClaimProtocol.MutualExclusionIff` | providers/gitea_issues.go:430-435 | mutual exclusion holds over every interleaving, with or without pinned releases, exactly for the hooks without missingBreadcrumbWinner |
| `ClaimProtocol.TwoOwners` | providers/gitea_issues.go:430-435 | with missingBreadcrumbWinner an interleaving of two claims and a pinned release ends with two live owners |
| `ClaimProtocol.WinnerIsTold` | providers/github_issues.go:529-535 | once every call finished without error, the elected owner has been told it won, in every interleaving and for all hooks |
| `ClaimProtocol.ExactlyOneWinner` | providers/github_issues.go:529-535 | so exactly one run, the elected owner, is recognised as the winner of a held item, for hooks that assume none |
| `ClaimProtocol.InvisibleOnlyAfterRelease` | providers/claim_protocol.go:38-46 | a claimer finds no epoch on reading back only when a release was posted after its breadcrumb |
| `ClaimProtocol.ClaimWins` | providers/claim_protocol.go:19-53 | an undisturbed claim on a free item wins it, labels it and is told so |
| `ClaimProtocol.ClaimLoses` | providers/claim_protocol.go:19-53 | an undisturbed claim on an item another run holds is told that run and changes neither thread nor label |
| `ClaimProtocol.ClaimRetried` | providers/claim_protocol.go:24-33 | an undisturbed claim by the run that holds the item posts nothing and is told it owns it, and the label is back where the provider restores it |
| `ClaimProtocol.ReleasePosts` | providers/claim_protocol.go:67-100 | an undisturbed release whose expected run, if any, is the elected owner, and which the owner's own run makes or the ledger authorizes, names that owner in its breadcrumb and carries the label it read to the label phase |
| `ClaimProtocol.ReleaseFrees` | providers/claim_protocol.go:67-196 | such a release, undisturbed, leaves the item free and unlabelled |
| `ClaimProtocol.PinnedSpares` | providers/claim_protocol.go:151-196 | an undisturbed pinned release that finds a new owner before removing the label leaves it, and after removing it puts it back |
| `ClaimProtocol.ReleaseOfFree` | providers/claim_protocol.go:67-196 | an undisturbed release of an item nobody owns, as when a failed release is retried, is not refused, posts nothing and leaves the item unlabelled |
| `ClaimProtocol.RefusedOnlyFairly` | providers/claim_protocol.go:117-125 | in every interleaving a release is refused only if, at a moment inside the call, the elected owner was not the run it expects, or not its own run without ledger authority |
| `ClaimProtocol.OnlyEntitledPost` | providers/claim_protocol.go:117-149 | in every interleaving a claim or release enters the thread only by a step of a call entitled to it: a claim names the run that makes it; a release names the run it is pinned to if pinned at all, its own run or one the ledger authorizes, and a run that owned the item during that call |
| `ClaimProtocol.HonestStep` | providers/claim_protocol.go:19-53 | every step of every call, failures included, keeps each verdict the election's answer at a moment inside its call |
| `ClaimLabel.HeldUnlabelledIsOwed` | providers/claim_protocol.go:151-196 | with pinned releases that restore, an item held without its label always has a claim that posted and has not labelled, or a release that removed and has not looked again or restored |
| `ClaimLabel.MirroredStep` | providers/claim_protocol.go:127-196 | every step of every call, failures included, keeps that invariant |
| `ClaimLabel.LabelSafeIff` | providers/claim_protocol.go:67-94 | once every call finished without error an open claim carries its label, in every interleaving, exactly when every release names the run it expects and the provider has restoreLabel |
| `ClaimLabel.LostLabel` | providers/claim_protocol.go:168-196 | a release that is not pinned, or cannot restore, can leave the next owner's item unlabelled with every call finished |
| `ClaimLabel.RemovesOnlyFree` | providers/claim_protocol.go:151-196 | in every interleaving a pinned release removes the label only after reading the item free at a moment inside the call |
| `ClaimLabel.ToldSawLabelIff` | providers/github_issues.go:544-549 | a run told it owns the item has seen the label, in every interleaving, exactly for providers that restore an owned label or wait for it |
| `ClaimLabel.SeenWasLabelled` | providers/github_issues.go:544-549 | a call that has the label down as seen had it in place at a moment inside the call, in every interleaving |
| `ClaimLabel.ToldUnlabelled` | providers/ado_workitems.go:927-975 | without either hook a retry after a failed claim is told it owns an item that never carried the label |
| `ClaimLabel.ProviderGuarantees` | providers/rest_shared.go:523-564 | GitHub's hooks give mutual exclusion, label safety and the label seen; Azure DevOps' all but the last; Gitea's label safety, and neither of the others |
| `StrayLabel.LabelExactIff` | providers/claim_protocol.go:19-196 | once every call finished without error the label is on exactly the held items, for any hooks and releases, exactly when no claim overlaps a release; claims may race, and releases may |
| `StrayLabel.LabelledLate` | providers/claim_protocol.go:47-52 | a claim that labels after its own pinned release finished leaves a free item labelled, whatever the hooks |
| `StrayLabel.ApartStep` | providers/claim_protocol.go:19-196 | while claims and releases start apart every step keeps this: a held item without the label has a live claim that will add it, a free one with it a live release that will clear it |
| `Selection.SelectedSplit` | providers/github_backlog.go:196-225 | filtering a listing is filtering its parts in order |
| `Selection.SelectedMeans` | providers/github_backlog.go:196-225 | exactly the matching records are returned, each as often as it is listed |
| `Selection.PageFrom` | providers/github_backlog.go:101-132 | dropping the records before a resume point leaves the listing from there to the end of its page, and a short page is the last |
| `GithubPaging.PagePosition` | providers/github_backlog.go:80-99 | a cursor is refused exactly when it is not a non-negative number; otherwise the position is the page that holds it and its place in it |
| `GithubPaging.FirstOffset` | providers/github_backlog.go:62-99 | without a cursor a call starts at its page, counted in pages of 30 without a limit, 100 under a later filter, else of the limit up to 100 |
| `GithubPaging.IssuesToWorkItems` | providers/github_backlog.go:196-225 | returns the matching records of what it consumed, stops early only with limit matches in hand, and fails only on a record its filter cannot judge |
| `GithubPaging.Candidates` | providers/github_backlog.go:101-132 | the records a read may inspect are the listing from the cursor on, to the end of the page or the budget |
| `GithubPaging.ListWorkItemsPage` | providers/github_backlog.go:101-150 | one call returns exactly the matches among the records it consumed, consumes one before it continues, stops only at the end, at its limit, its budget or its page's end, and its cursor stands right after them |
| `GithubPaging.NextCallContinues` | providers/github_backlog.go:134-150 | the next call resumes at the next unread record whatever its limit, width or budget |
| `GithubPaging.AnswerSplits` | providers/github_backlog.go:80-150 | what one call returned and what a call with its cursor, of any limit, width or budget, has left together are all there was, and less is left |
| `GithubPaging.WalkIsExact` | providers/github_backlog.go:62-150 | following NextCursor until HasNext is false, with limits, widths and budgets changing on the way, returns the filter of the whole listing, in order, each record once |
| `GithubPaging.WalkTerminates` | providers/github_backlog.go:134-150 | no walk through the cursors makes more calls than there are records left, plus one |
| `GiteaPaging.CursorRoundTrip` | providers/gitea_issues.go:181-195 | a printed cursor, "page:skip" included, parses back under every width its skip fits and is refused under the others |
| `GiteaPaging.FirstOffset` | providers/gitea_issues.go:37-60 | without a cursor a call starts at its page, counted in pages of 30 without a limit, else of the limit up to 50 |
| `GiteaPaging.ResumesIffSameWidth` | providers/gitea_issues.go:37-100 | a cursor resumes where it was handed out exactly when the width is the same, or it lies in the first page and its skip fits |
| `GiteaPaging.WiderPageLosesRecord` | providers/gitea_issues.go:37-100 | three matching records read with limit 1 and then, through the cursor, 2: whatever the calls answer, the first returns the first record, the second the third, and the walk is over |
| `GiteaPaging.IssuesToWorkItems` | providers/gitea_issues.go:197-224 | stopping at the limit drops no match of a page no longer than the limit |
| `GiteaPaging.NextPage` | providers/gitea_issues.go:85-100 | a next page is announced exactly when the budget cut this one or the total says so, and its cursor resumes at the next unread record |
| `GiteaPaging.ListWorkItemsPage` | providers/gitea_issues.go:55-100 | with an accurate total one call returns exactly the matches among the records it consumed, and its cursor is accepted and stands right after them |
| `GiteaPaging.AnswerSplits` | providers/gitea_issues.go:37-100 | what one call returned and what a call of the same width with its cursor has left together are all there was, and less is left |
| `GiteaPaging.WalkIsExact` | providers/gitea_issues.go:37-100 | with one page width and an accurate total, following NextCursor until HasNext is false returns the filter of the whole listing, in order, each record once |
| `GiteaPaging.WalkTerminates` | providers/gitea_issues.go:85-100 | with one width no walk through the cursors makes more calls than there are records left, plus one |
| `AdoPaging.CandidateLimit` | providers/ado_workitems.go:127-141 | the candidate limit never exceeds the caller's budget, is absent only without a limit, and unless the budget cuts it is at least the limit and at least the scan ceiling when a filter applies after the fetch |
| `AdoPaging.GetWorkItemsBatch` | providers/ado_workitemsbatch.go:39-75 | chunks of at most 200 with omitted items and unordered responses give the readable items in the order asked |
| `AdoPaging.GetWorkItemRefsBatch` | providers/ado_workitemsbatch.go:88-98 | the index holds exactly the readable items among the ids |
| `AdoPaging.ScanWorkItemCandidates` | providers/ado_workitemsbatch.go:123-158 | returns exactly the matches up to the last candidate inspected, and stops before the last only with limit matches in hand |
| `AdoPaging.ScanChunk` | providers/ado_workitemsbatch.go:137-155 | the loop over one hydrated chunk keeps that, skipping omitted items |
| `AdoPaging.ListWorkItems` | providers/ado_workitems.go:49-102 | one call returns exactly the matches among the candidates above the cursor it inspected; its cursor is the last of them, and it stops only at its limit of matches, its candidate limit or the last candidate of all |
| `AdoPaging.WalkAscends` | providers/ado_workitems.go:143-180 | however the store changes between calls, a walk's hits ascend strictly: nothing is returned twice |
| `AdoPaging.WalkIsSound` | providers/ado_workitems.go:49-102 | every hit matched in the store of the call that returned it |
| `AdoPaging.WalkIsComplete` | providers/ado_workitems.go:49-102 | however the store changes, an item listed and matching throughout is returned |
| `AdoPaging.WalkIsExact` | providers/ado_workitems.go:49-180 | over a fixed store a walk returns precisely the matching items in ascending id order, each once, for every limit, budget, chunk split and set of omitted items |
| `AdoPaging.WalkTerminates` | providers/ado_workitems.go:143-180 | every continuing call moves the cursor past a listed item, so no walk is longer than the listing |
| `AdoPaging.WalkInspectsAll` | providers/ado_workitemsbatch.go:123-158 | a finished walk has evaluated the filter on every candidate |
| `AdoPaging.NarrowedMeans` | providers/ado_workitems.go:231-240 | a narrowed query selects exactly the candidates whose area path and type, where required, are the required ones ignoring case |
| `AdoPaging.NarrowingPreservesListing` | providers/ado_workitems.go:234-256 | whichever of a walk's calls ran narrowed, un-narrowed or fell back, it returns the un-narrowed listing's matches |
| `AdoPaging.NarrowingNeverBreaks` | providers/ado_workitemsbatch.go:165-178 | narrowing never fails a listing that completes without it |
| `LabelScan.ScanState.constructor` | providers/github_issues.go:414-452 | a new scan has seen nothing and is neither truncated nor at the cursor |
| `LabelScan.ScanState.ConsumeEvent` | providers/github_issues.go:479-502 | after each event the result is that of all events seen, and the cursor is reached exactly by an event at or below it |
| `LabelScan.ScanState.ConsumePage` | providers/github_issues.go:454-477 | after each page the result is that of all events seen; it stops exactly on truncation or on reaching the cursor newest first, and reaching it so is never a truncation |
| `LabelScan.ScanState.DetectOrder` | providers/github_issues.go:463-465 | the order is fixed by the first page of two or more events and a descending one has been seen |
| `LabelScan.ScanWorkItemLabelTransitions` | providers/github_issues.go:414-518 | served in either strict order and any page split, a scan that is not truncated returns exactly the transitions newer than the cursor and the highest event id |
| `LabelScan.StoppedIsComplete` | providers/github_issues.go:466-477 | stopping at the cursor newest first leaves nothing newer unread |
| `LabelScan.ScanCycle` | providers/github_issues.go:414-452 | neither the order nor the page split of the same events changes what a scan reports |
| `LabelScan.CursorCovers` | providers/github_issues.go:414-518 | over any number of cycles, each of a history that may grow meanwhile, the accumulated transitions are part of the full history's and hold every one the cursor has passed |
| `LabelScan.IncrementalEqualsFull` | providers/github_issues.go:414-518 | after any number of cycles over an append-only history growing all the while, truncated or not, a scan that is not truncated leaves exactly the transitions of one unbounded scan up to the new cursor, so everything there was when it started |
| `LabelReplay.WantedMeans` | providers/github_issues.go:479-502 | a transition is reported exactly when an event newer than the cursor puts that label on or takes it off, of an issue unless one item was asked for; its id, item, time and direction are read off that event |
| `LabelReplay.ReplayIsCarried` | providers/github_issues.go:414-502 | replaying a full scan's transitions gives, for every item, the label membership that folding the raw events gives |
| `LabelReplay.IncrementalReplays` | providers/github_issues.go:414-518 | so does replaying what any number of incremental cycles accumulated, up to the cursor of the last one that was not truncated |
| `GrowingScan.ScanGrowing` | providers/github_issues.go:414-518 | with each page served from a longer history, in either order, a scan that is not truncated misses nothing at or below its HighEventID, which covers what was there at the start |
| `GrowingScan.NewestNext` | providers/github_issues.go:454-477 | newest first, arriving events push pages back: they overlap, and leave no gap below the newest event seen |
| `GrowingScan.CursorCompletes` | providers/github_issues.go:466-477 | reaching the cursor newest first, on any page of the grown history, nothing newer than the cursor and at or below the newest event seen is missing |
| `LabelWalk.WalkWorkItemLabelUpdates` | providers/ado_labeltransitions.go:97-130 | the walk ends; success has read a prefix that reaches the anchored revision, and it succeeds unless the server stalls, the cap is reached, a change has no date or the history ends early |
| `LabelWalk.ReadPage` | providers/ado_labeltransitions.go:108-121 | a page adds exactly its transitions and highest revision, and fails exactly on an undated change of the label |
| `LabelWalk.CompleteReadsEveryRevision` | providers/ado_labeltransitions.go:97-130 | a successful walk has missed no update up to the anchored revision |
| `LabelWalk.ReplayIsMembership` | providers/ado_labeltransitions.go:174-195 | replaying the transitions of a chained history gives the label's membership; they alternate, an addition first |
| `LabelWalk.CompleteWalkReplays` | providers/ado_labeltransitions.go:97-195 | the transitions of a successful walk replay to whether the item carried the label at the last update read |
| `LabelWalk.SortedReplayIff` | providers/ado_labeltransitions.go:80-91 | sorted by date as they are returned, the transitions replay to membership exactly when the latest-dated goes the same way as the last read, in particular when dates do not go back |
| `LabelWalk.BackdatedReplay` | providers/ado_labeltransitions.go:80-91 | a removal dated before the addition it undoes replays to the label being there |
| `LabelWalk.SortedSorts` | providers/ado_labeltransitions.go:85-90 | the returned transitions are in order of date and event and are those of the walk, none lost or repeated |
| `Tags.TagSetMeans` | providers/ado_labelcase.go:97-103 | a name is carried afterwards exactly when a non-blank label to add, or a non-blank current tag that no label to remove names, is that name, ignoring case and surrounding space; no name appears twice |
| `Tags.TagSetSpelling` | providers/label_reconcile.go:71-122 | every tag left is a current tag as it was spelled, or an added label as spelled when no current tag of that name was kept |
| `Tags.ApplyTagSet` | providers/label_reconcile.go:71-135 | the loops over folded-name tables compute that tag set, keeping existing spellings and order |
| `Tags.Normalize` | providers/label_reconcile.go:124-135 | computes the normalized names, which NormalizedMembers and NormalizedConcat describe |
| `Tags.NormalizedMembers` | providers/label_reconcile.go:124-135 | the normalized names are exactly the trimmed non-blank ones |
| `Tags.NormalizedConcat` | providers/label_reconcile.go:124-135 | normalizing goes part by part, so in order |
| `Revision.Server.Write` | providers/ado_workitems.go:1752-1755 | against any other writers a guarded write lands at most once, only on the revision it names and as the patch of that very revision; a conflict or refusal wrote nothing |
| `Revision.Server.Send` | providers/ado_workitems.go:1791-1803 | a patch whose test fails changes nothing, and one that lands is the next revision |
| `Revision.LastEditDecides` | providers/ado_workitems.go:1791-1803 | of the edits in one patch the last to set a field decides its value |
| `WorkItemWrites.SetClaimLabel` | providers/ado_workitems.go:980-1012 | a reported label change is one revision, the add and remove applied to the tags right before it, and it gives up exactly after four conflicts or on a refusal, having written nothing |
| `WorkItemWrites.LabelPatchMeans` | providers/ado_workitems.go:980-1012 | a label change leaves every non-blank label it adds on the item, none it removes, every other tag that was there and nothing else, ignoring case, and every other field as it was |
| `WorkItemWrites.LinkPullRequest` | providers/ado_workitems.go:368-404 | success means the item carried the link during the call, and the call's one revision, if any, adds the first link; it gives up exactly after four conflicts or on a refusal |
| `LinkProtocol.AtMostOneLink` | providers/ado_workitems.go:368-404 | in every interleaving of any number of link calls with writers that add no link, failed requests included, the item never carries the link to a pull request more than once unless it did before |
| `LinkProtocol.ExactlyOneLink` | providers/ado_workitems.go:368-404 | if nobody removes it, the link is there exactly once from the first reported success on |
| `LinkProtocol.LinkedWasLinked` | providers/ado_workitems.go:368-404 | a call that reports success has the link in place at a revision current during the call, whoever put it there |
| `LinkProtocol.FourAttempts` | providers/ado_workitems.go:368-404 | a call gives up exactly after four conflicts, and then four revisions were written during it but for conflicts reported without one |
| `LinkProtocol.ClashesAreReported` | providers/ado_workitems.go:368-404 | those exceptions are at most the conflicts the server reported although the revision stood |
| `LinkProtocol.UndisturbedLinks` | providers/ado_workitems.go:368-404 | whatever other calls are at, a call whose read and patch nobody comes between succeeds and the item carries the link |
| `LinkProtocol.SoundStep` | providers/ado_workitems.go:368-404 | every step of every call keeps this: a patch that can land was computed from a read without the link |
| `WorkItemWrites.HasLink` | providers/ado_workitems.go:368-385 | the relation scan finds a link exactly when the item carries one, ignoring case in the url |
| `WorkItemWrites.ClosedStateIsCompleted` | providers/ado_workitems.go:1486-1503 | the state a close moves to is one the type's table calls Completed |
| `WorkItemWrites.CategoryMeans` | providers/ado_workitems.go:1591-1598 | a state's category is that of the table's entry of that name, ignoring case |
| `WorkItemWrites.ClosableIff` | providers/ado_workitems.go:1486-1503 | a type can be closed exactly when its table has a Completed state |
| `WorkItemWrites.SettlesAs` | providers/ado_workitems.go:1718-1733 | carrying out a close plan leaves the item Completed or Removed, or Resolved when the plan says so |
| `WorkItemWrites.CloseOnce` | providers/ado_workitems.go:1677-1698 | one attempt settles the item at its snapshot's revision or writes nothing; a closed item keeps its state, any other ends in the Completed state, or stays at Resolved, and is reported so, only without a Completed state to be found or after a refusal |
| `WorkItemWrites.StopAtResolved` | providers/ado_workitems.go:1705-1714 | stopping at Resolved keeps the state and lands the caller's edits on the same revision |
| `WorkItemWrites.CloseWorkItem` | providers/ado_workitems.go:1654-1675 | a successful close settled the item at one revision, current during the call or the caller's own snapshot: a closed item keeps its state, any other is moved to the Completed state, and one is left and reported at Resolved only when no Completed state was found or the server refused; the caller's edits land exactly once, computed from the revision right before; a pinned close writes on no other revision; it gives up exactly after four conflicts, or one when pinned |
| `Landing.NeverCompletesIffDead` | providers/ado_landing.go:224-270 | a pull request can still complete exactly when a completion runs, or it is armed and active, or it has completed |
| `Landing.PollIsHonest` | providers/ado_landing.go:280-339 | Evicted is never reported for a pull request that completes later, and Merged exactly for one that has |
| `Landing.PollEvictsIff` | providers/ado_landing.go:280-339 | a pull request that will never complete is reported Evicted exactly when it is abandoned or shows neither an auto-complete object nor a queue time whose merge status has not failed |
| `Landing.FailedCompletionCanPollPending` | providers/ado_landing.go:330-339 | after a failed completion whose preview was recomputed the poll stays Pending for a pull request that never completes |
| `Landing.CancelledIsDead` | providers/ado_landing.go:224-270 | whatever the server does around the requests, Cancelled and NotArmed mean it never completes; LandedBefore is reported exactly when the last read shows it completed, NotArmed exactly when the first shows it abandoned, or active without an auto-complete or a completion in flight, and a queued completion when a read shows one |
| `Landing.UndisturbedCancel` | providers/ado_landing.go:224-270 | undisturbed, cancelling an armed pull request disarms it for good and reports so exactly when no earlier queue time makes it look in flight |
| `Landing.StaleQueueTimeHidesCancel` | providers/ado_landing.go:262-339 | a completion is queued and fails, the preview is recomputed, the pull request is armed again: the cancel disarms it and reports a queued completion |
| `Landing.EmptyIdentityHidesCompletion` | providers/ado_landing.go:240-258 | a cleared arming shown without an identity hides a running completion: Cancelled, and it completes |
| `Landing.CancelIsHonestIff` | providers/ado_landing.go:224-270 | Cancelled is honest in every run exactly when the server shows a cleared auto-complete as absent |
| `Landing.CancelledReadIsHonestIff` | providers/ado_landing.go:240-258 | of a re-read that reports Cancelled: every state that shows it never completes exactly when it is not an active pull request with an empty identity and a completion in flight |
| `Policy.ReduceEvaluations` | providers/ado_policy.go:143-217 | the CI state fails exactly when some gating evaluation fails and passes exactly when one passes and none is pending, nothing blocks, or only non-CI policies were evaluated |
| `Policy.CIStateMeans` | providers/ado_policy.go:143-217 | on raw statuses and policy types: the CI state fails exactly when a blocking build, status or unrecognised policy not left to people is rejected or broken, its build not canceled; it passes exactly when none is and one is approved with none waiting, nothing blocks, or only other policies have an answer |
| `Policy.OrderIrrelevant` | providers/ado_policy.go:194-217 | the CI state depends neither on the order nor on the multiplicity of the evaluations |
| `Policy.FailingCIEvaluations` | providers/ado_cifailures.go:110-122 | the loop keeps exactly the failing CI evaluations, in order |
| `Policy.FailingCIMembers` | providers/ado_cifailures.go:110-122 | that list holds exactly the blocking build, status or unrecognised evaluations that are rejected or broken without a canceled build |
| `Policy.FailingAgrees` | providers/ado_cifailures.go:106-122 | the CI state fails exactly when a reported failure is not human-only; with no human-only ids, exactly when there is a failure to report |
| `Policy.EvaluationsMergePolicy` | providers/ado_policy.go:276-290 | undecided exactly without an enabled blocking evaluation, direct exactly when every such one is approved or notApplicable |
| `Policy.EvaluationsAwaitHuman` | providers/ado_policy.go:295-307 | waits on people exactly when some enabled blocking evaluation is neither approved nor notApplicable and every such one is a reviewer policy |
| `Policy.LandingNeverBesideFailing` | providers/ado_policy.go:172-307 | a direct merge or a wait on reviewers never stands beside a failing CI state |
| `Policy.DirectPassesIff` | providers/ado_policy.go:172-290 | beside a direct merge CI passes exactly when some approved policy counts, and is pending otherwise |
| `Policy.DirectBesidePending` | providers/ado_policy.go:172-290 | one blocking build policy that does not apply: the merge is direct and CI pending |
| `Policy.ChecksAgree` | providers/ado_policy.go:222-254 | some per-policy check fails exactly when there is a CI failure to report, and every failing check gates CI |
| `Policy.ChecksSay` | providers/ado_policy.go:222-254 | every blocking evaluation with an answer has a check of its id and kind that passes exactly if it is approved and fails exactly if it is a CI policy rejected or broken without a canceled build |
| `Policy.MarkCanceledBuilds` | providers/ado_policy.go:123-142 | marks, in place, a prefix of the evaluations and all of them unless the context ended |
| `Policy.MarkingIsHarmless` | providers/ado_policy.go:99-142 | exactly the rejected blocking build evaluations whose build was canceled are marked, nothing else changes, and what stays failing is exactly the failures not marked |
| `CredentialRefresh.NewRefreshingSource` | providers/ado_delivered_refresh.go:25-35 | a malformed initial credential or a missing resolver is refused; otherwise the source starts with it, registered |
| `CredentialRefresh.RefreshingSource.GetCredential` | providers/ado_delivered_refresh.go:49-91 | the object takes the step and gives the answer of the state machine the run lemmas are about |
| `CredentialRefresh.ReturnedIsUsable` | providers/ado_delivered_refresh.go:49-125 | every credential any run returns is well formed, keeps the initial kind and username, was registered first and is unexpired at a clock reading of that call |
| `CredentialRefresh.ReturnedHasMargin` | providers/ado_delivered_refresh.go:98-106 | a credential returned without a refresh does not expire, has more than five minutes left, or a refresh began in the minute before |
| `CredentialRefresh.InvalidatedNeverReturned` | providers/ado_delivered_refresh.go:49-139 | after an invalidation nothing is returned until a later call reaches the resolver and its answer is accepted, and then only what one since delivered |
| `CredentialRefresh.RefusedIff` | providers/ado_delivered_refresh.go:70-80 | a run is refused for good exactly when some refresh was answered with a permanent refusal or an unacceptable credential |
| `CredentialRefresh.RefusedForGood` | providers/ado_delivered_refresh.go:55-80 | after that no call reaches the resolver or returns a credential |
| `CredentialRefresh.UnforcedRefreshesAreSpaced` | providers/ado_delivered_refresh.go:98-106 | with a clock that does not go back, a refresh nothing forces begins at least a minute after every earlier one and in the credential's last five minutes |
| `CredentialRefresh.OutageKeepsCredential` | providers/ado_delivered_refresh.go:81-86 | through any number of temporary failures a source keeps returning its credential up to its expiry |
| `CredentialRefresh.ForcedCall` | providers/ado_delivered_refresh.go:49-91 | an invalid or expired source asked for a credential returns and keeps a fit answer, is refused for good by an unfit one or a refusal, and survives a passing failure |
| `CredentialRefresh.Recovers` | providers/ado_delivered_refresh.go:49-139 | after an invalidation and any number of passing failures, the first fit answer is returned and is the current, valid credential |
| `CredentialRefresh.MarginNeedsNoRefresh` | providers/ado_delivered_refresh.go:93-106 | from then on, while it has more than five minutes left, calls return it and the broker is not asked |
| `Backoff.CeilingNeverWraps` | providers/github_issues.go:721-725 | for every attempt, those where the 64-bit shift wraps included, the ceiling is the unbounded doubling capped at a second |
| `Backoff.DelayBounds` | providers/github_issues.go:721-742 | every delay lies between half its ceiling and its ceiling, so between 50 ms and 1 s, for any jitter |
| `Backoff.JitterIsAdded` | providers/github_issues.go:721-742 | without jitter the delays are 50, 100, 200, 400, then 500 ms; jitter adds what its source answered, cut to what is left below the ceiling |
| `Backoff.WaitForClaimLabel` | providers/github_issues.go:693-719 | the wait ends after at most 13 reads and 5 s of sleep, reports drift exactly when the window is over, and otherwise what the last turn found |
| `Ensemble.ComputeEnsembleScore` | evals/judge_plugin_interface.py:366-407 | the loops over groups compute the judge-by-judge weighted mean that ScoreByKind describes, or the plain mean when nothing has weight; no results is an error |
| `EnsembleKinds.ScoreByKind` | evals/judge_plugin_interface.py:386-407 | the score is the sum over kinds of the kind's weight times its judges' mean, divided by the weight of the kinds present; a kind weighs its table entry if positive; with no weight present it is the plain mean |
| `EnsembleKinds.OnlyMeansMatter` | evals/judge_plugin_interface.py:386-407 | two panels whose weighted kinds have the same means score the same, however many judges each kind has and whatever unweighted kinds say |
| `EnsembleKinds.DefaultTable` | evals/judge_plugin_interface.py:355-385 | without weights, or with an empty table, the table is deterministic 0.4, LLM 0.4, classifier 0.2; any other table stands |
| `EnsembleKinds.DefaultExample` | evals/judge_plugin_interface.py:355-407 | a deterministic judge at 1 and two LLM judges at 0 score 0.5 by default |
| `Ensemble.SumFlat` | evals/judge_plugin_interface.py:395-399 | n judges scoring c each add up to c n, which ties the mean of a kind to its sum |
| `Ensemble.WeighGroups` | evals/judge_plugin_interface.py:386-399 | the loop over groups sums what a judge-by-judge sum gives |
| `Ensemble.GroupByKind` | evals/judge_plugin_interface.py:386-388 | every kind's group is its judges in order, each kind listed once |
| `Ensemble.ScoreWithin` | evals/judge_plugin_interface.py:366-407 | the ensemble score lies between the lowest and highest judge's, for any weights and in the fallback |
| `Ensemble.ScoreMonotone` | evals/judge_plugin_interface.py:366-407 | raising judges' scores never lowers the ensemble score |
| `Ensemble.RouteForReview` | evals/judge_plugin_interface.py:421-490 | a pass and a fail are given exactly when their certificates hold; everything else goes to a person; no results and no score is an error |
| `Ensemble.VerdictMonotone` | evals/judge_plugin_interface.py:421-490 | raising judges' scores never lowers the verdict on the ensemble's own score, in the order fail, human-review, pass |
| `Ensemble.SuppliedVerdictMonotoneIff` | evals/judge_plugin_interface.py:421-490 | with a supplied score that holds exactly when raising scores does not resolve the last safety-critical disagreement over a score below both thresholds |
| `Ensemble.SuppliedVerdictCanDrop` | evals/judge_plugin_interface.py:453-490 | a concrete scenario where raising one judge turns human-review into fail |

## Left out

- HTTP, JSON, URLs and headers: every provider call is one server step or an error.
- Request validation (blank run ids, project scope, tag syntax), mutation recording and attribution markers.
- Comment ids: comments are taken in the order of increasing server id instead of being sorted by it.
- Epoch attribution: the creation time and instance id an epoch carries besides its author and run.
- The REST variant of the epoch scan, which trims neither identity and keys authors by their folded login; the Azure DevOps scan is the reference.
- Reconciling orphaned claims, and the claim ledger: its authorization is a flag on the release request.
- Non-ASCII case folding and white space; strings fold and trim as ASCII.
- Integer width in cursors: decimal numbers are unbounded, so a cursor beyond 64 bits is not refused.
- The sort of GitHub label transitions by time and event id before they are returned; the scan's results are compared as sets.
- Listings without a caller-driven page (listAllWorkItems), which fetch every page and sort.
- The 20000-item ceiling of WIQL queries and the retry of batch requests.
- Relations between one GitHub listing and the next while issues move between pages: GitHub and Gitea walks are over a fixed listing.
- `LinkProtocol.AtMostOneLink`: writers other than link calls are taken to add no artifact link.
- `Revision.Server.Get`: a read that fails ends a writer without a write and is not modelled.
- `WorkItemWrites.CloseWorkItem`: the type's state table is the same on every attempt of one close.
- Re-arming, reactivating or directly completing a pull request while it is polled or cancelled, and MergePullRequest's wait loop.
- Reading the identity behind autoCompleteSetBy: its three observable forms are a datatype.
- Names, links, summaries and conclusions of per-policy checks, and reading policy types and statuses off strings.
- `CredentialRefresh.RefreshingSource.GetCredential`: calls are whole steps, as the mutex makes them; error texts and wire forms are not modelled.
- Rounding: scores and weights are reals, so a total weight is zero exactly when no present kind has a positive one.
- Reasons of review decisions, and the plugins that produce judge results.
