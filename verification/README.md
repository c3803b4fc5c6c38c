# Octelium Enterprise: verified models

Three pieces of Octelium Enterprise are modelled here and proved correct in Dafny 4.11.
`dafny verify dfyconfig.toml` checks everything.

**The license-header rewriter** (`unsorted/licenser/main.go`). It scans a Go file for a leading block of
build-constraint lines, finds a cut point from four first-occurrence searches, rebuilds the file around a new
header, and does so over three directory trees until the first error. It is meant to be rerun. A byte with value v
is modelled as the character with code v, so the results hold for all byte strings; white space is what
`unicode.IsSpace` accepts in UTF-8. Write b for the length of the constraint block and k for the first `package `.
A source is *good* when b is 0 or k is at least b. A header is *clean* when it contains none of the four markers.

- Every file with a package clause comes out with the header, at its beginning or right behind the constraint block,
  and a walk without error does this to exactly the regular `.go` files (`Rewriter`, `Walk`).
- Rerunning settles after one run, and the last header wins, exactly on good sources; on every other source each
  run makes the file strictly longer (`Rerun`).
- An interrupted run followed by a complete one leaves the tree of the complete run alone, exactly when every file
  the interrupted run changed was good (`Resume`).
- Two losses the code does allow are stated exactly. A `// Code generated` notice that is the very first thing in a
  file is cut away, because the tests ask for a position greater than 0. Everything between a constraint block and
  the package clause is cut away as well.

**Derived resource names** (`cluster/common/accessintg/name.go` and its two callers). The joined key, the hash left
opaque, and 31 hexadecimal digits of it: when two keys share a name, and why bindings and identities never do.

**The access-request workflow** (`cluster/nocturne`, `cluster/common/accesscmd`, `cluster/apiserver`). A request is
matched to a policy rule, reviewed step by step by quorums of eligible reviewers, possibly moved on by timeouts,
approved, granted for a bounded time, and revoked or expired. `AccessModel` holds the decisions, `AccessSystem` the
state machine of one request with everything that acts on it, `AccessDecisions` what each operation comes to in terms of
what is stored, `ReviewController` the review controller with its loops. The results are about every run: no approval
without a quorum of eligible reviewers on the last step and a quorum or an allowed timeout on every earlier one, every
vote of a quorum genuine, no forged or double votes, no unbounded access, no step timed out early, no end without its
cause, and review events that may be repeated and reordered at will. Four things do not hold as one might expect, and
are stated exactly or shown by a run.

- A step that excludes the subject excludes a subject who is referred to by uid, and nobody else: a request for
  another user may give a name only, and then that user may approve it (`AccessDuties`).
- The request controller works on the item it is handed. If that is an approved copy from before a revocation, it
  puts the grant of the ended request back, until the next round of the grant watcher or the next reconciliation of
  the ended request (`AccessGrants`).
- The match fixes the length of access in whole seconds. If it comes to less than one second, the requester can still
  change it afterwards, up to the maximum of the rule, unless that is a single millisecond (`AccessSettling`,
  `AccessGrants`).
- Every decision of a reviewer wakes the review controller, a change of the directory does not: a step that is cleared
  because a missing reviewer was disabled waits until a review changes or the step times out (`AccessProgress`).

The controllers change a copy of the request and write it back once; `AccessModel` therefore models them as functions
from the stored request to the written one, and `ReviewController` repeats the most intricate one imperatively.

## Model

| member | source | states |
|---|---|---|
| BuildConstraints.LeadingBuildConstraintEnd | unsorted/licenser/main.go:111-134 | the line loop ends and returns the length of the leading constraint block |
| BuildConstraints.LinesConcat | unsorted/licenser/main.go:113-120 | the scanned lines, terminators included, concatenate back to the source, and only the last can lack its newline |
| BuildConstraints.BuildEndIsLongestRun | unsorted/licenser/main.go:111-134 | the result is the total length of the longest run of leading lines that are constraints after trimming |
| BuildConstraints.ScanLocality | unsorted/licenser/main.go:113-128 | replacing everything behind a terminated block by text that opens with no constraint line leaves the result unchanged |
| BuildConstraints.ScanUnterminated | unsorted/licenser/main.go:114-128 | a block that ends the file without a newline swallows exactly the newline put after it |
| BuildConstraints.TrimmedTestIsContinues | unsorted/licenser/main.go:121-125 | the prefix test on the trimmed line holds if and only if, behind white space, marker and space are followed by something else than white space |
| BuildConstraints.ConstraintExactly | unsorted/licenser/main.go:121-125 | a line is a constraint if and only if, trimmed, it begins with `//go:build ` or `// +build ` |
| Whitespace.SpacesAreUnicode | unsorted/licenser/main.go:121 | decoded from UTF-8, the white space that is trimmed is exactly the set of code points `unicode.IsSpace` accepts |
| Rewriter.GetIdx | unsorted/licenser/main.go:93-109 | the three successive tests compute the cut point |
| Rewriter.CutFoldIsLeast | unsorted/licenser/main.go:93-109 | for any list of markers the tests yield the least of the package position and the positive first marker positions, and a negative result exactly without package clause |
| Rewriter.CutOrderIrrelevant | unsorted/licenser/main.go:96-106 | the order of the tests does not matter |
| Rewriter.CutTail | unsorted/licenser/main.go:77-90 | the cut is in range, and what it leaves starts with a marker and still has its package clause |
| Rewriter.RewriteSource | unsorted/licenser/main.go:76-91 | addHeader computes the rewrite, nil included, with every slice in range |
| Rewriter.OutputExactly | unsorted/licenser/main.go:76-109 | for every source there is an output exactly if `package ` occurs; without constraint block it is header, newline and the source from the least position the tests allow, otherwise block, newline, header, newline and the source from the first `package ` on |
| Rewriter.PrefixReplaced | unsorted/licenser/main.go:76-109 | whatever non-empty, newline-terminated, marker-free prefix precedes a marker, the rewrite replaces exactly that prefix |
| Rewriter.HeaderedFileIsFixed | unsorted/licenser/main.go:90 | header, newline and a tail that starts with a marker are returned unchanged |
| Rewriter.LeadingBlock | unsorted/licenser/main.go:84-87 | in a good source the constraint block ends in a newline, rescans to itself and holds no package clause |
| Rewriter.BlockKept | unsorted/licenser/main.go:84-88 | behind a constraint block the rewrite replaces exactly what stands between block and package clause |
| Rerun.LastHeaderWinsExactly | unsorted/licenser/main.go:76-91 | rewriting with h1 and then h2 equals rewriting with h2 if and only if the source is good, for every clean h1 and every h2 |
| Rerun.IdempotentExactly | unsorted/licenser/main.go:82-90 | a second application changes nothing if and only if the source is good |
| Rerun.BadSourceGrows | unsorted/licenser/main.go:84-88 | when the first package clause lies inside the constraint block the output is longer by a stated amount and no better, including a block without final newline |
| Rerun.GrowsWithoutBound | unsorted/licenser/main.go:84-88 | n runs on such a source add at least n headers |
| Rerun.SettlesAfterOneRun | unsorted/licenser/main.go:76-91 | on a good source any number of runs equals one |
| Rerun.GoodIsInvariant | unsorted/licenser/main.go:76-91 | a rewrite keeps the package clause and neither repairs nor breaks a source |
| Rerun.CodePreserved | unsorted/licenser/main.go:82-90 | the text from the package clause on survives as the end of the output, is where the first package clause then stands exactly for good sources, and the constraint block survives as its beginning |
| Rerun.MarkersBehindCut | unsorted/licenser/main.go:90-109 | without constraint block the markers of the output are those at or behind the cut, shifted, and no others |
| Rerun.MarkersSurviveExactly | unsorted/licenser/main.go:90-106 | without constraint block every occurrence of a marker is in the output, shifted by one fixed distance, if and only if the file does not begin with that marker |
| Rerun.MarkersAroundBlock | unsorted/licenser/main.go:84-88 | with a constraint block the markers of the output are those inside the block and those from the package clause on |
| GoHeader.GoHeaderIsClean | unsorted/licenser/main.go:136-143 | the shipped header contains none of the four markers |
| Walk.Tree.SetHeader | unsorted/licenser/main.go:35-74 | the walk leaves the tree and the error of the visits in order up to the first failure |
| Walk.Tree.DoMain | unsorted/licenser/main.go:18-33 | three roots with early return behave as one walk over all their visits |
| Walk.WalkFrame | unsorted/licenser/main.go:35-74 | after any walk each file holds its original or its rewritten contents, only eligible files changed, and a walk without error rewrote all of them |
| Walk.WalkSucceedsExactly | unsorted/licenser/main.go:38-67 | a walk succeeds if and only if no single visit would fail on the original files |
| Walk.OnlyGoFilesChange | unsorted/licenser/main.go:43-53 | however a walk ends, a path that does not end in .go, or is a directory or no regular file, keeps its contents |
| Walk.SuccessMeansHeaders | unsorted/licenser/main.go:35-74 | after a walk without error every regular file whose path ends in .go and that contains `package ` carries the header at its beginning or right behind its constraint block, and every other such file is as it was |
| Walk.FirstFailureIsReported | unsorted/licenser/main.go:38-71 | a failed walk reports the first visit that would fail on the original files, with its kind of error, and leaves exactly what the walk over the earlier visits leaves |
| Resume.ResumeExactly | unsorted/licenser/main.go:18-74 | interrupted and then completed equals completed alone if and only if every file the interrupted walk changed was good |
| Resume.ResumeAfterFailure | unsorted/licenser/main.go:18-74 | on trees of good files an interrupted run leaves no trace once a later run completes |
| Resume.RootOrderIrrelevant | unsorted/licenser/main.go:20-30 | a successful run gives the same tree for every order of the three roots |
| Resume.FailureSparesLaterRoots | unsorted/licenser/main.go:20-30 | an error in one root ends the run with all later files as they were |
| Join.SplitOfJoin | cluster/common/accessintg/name.go:19 | splitting the key at the separator gives back the parts, up to separators they contain, for every list |
| Join.JoinEqualExactly | cluster/common/accessintg/name.go:19 | two part lists have the same key if and only if they consist of the same separator-free pieces |
| Join.JoinInjective | cluster/common/accessintg/name.go:19 | over non-empty lists of separator-free parts the key determines the list |
| Join.JoinInjectiveUpToLast | cluster/common/accessintg/name.go:19 | over lists of one length the last part may contain separators |
| Join.JoinCollides | cluster/common/accessintg/name.go:19 | concrete lists outside these conditions share a key |
| Names.NameByCharacter | cluster/common/accessintg/name.go:18-21 | the name is the prefix and behind it, character by character, the first 31 nibbles of the digest in lower-case hexadecimal |
| Names.KeyTexts | cluster/common/accessintg/binding.go:32-36 | the hashed text of a binding is its five fields, and that of an identity its two, in this order with a bar between them |
| Names.ParsedOfDecimal | cluster/common/accessintg/binding.go:35 | the printed indices read back as the numbers they were printed from |
| Names.KeptDigitsEqualExactly | cluster/common/accessintg/name.go:20 | the 31 digits coincide if and only if the digests agree on 15 bytes and the next high nibble |
| Names.NamesEqualExactly | cluster/common/accessintg/name.go:18-21 | two names are equal if and only if the prefixes are and the digests agree on 124 bits |
| Names.NamesInjective | cluster/common/accessintg/name.go:18-21 | without 124-bit collisions among the keys, prefix and parts can be told from the name |
| Names.BindingNamesInjective | cluster/common/accessintg/binding.go:32-36 | two bindings share a name if and only if all five key fields agree, whatever the recipient id looks like |
| Names.IdentityNamesInjective | cluster/common/accessintg/identity.go:284-286 | two identities share a name if and only if integration and external id agree, even with separators in external ids |
| Names.BindingIsNoIdentity | cluster/common/accessintg/identity.go:284-286 | a binding never takes an identity's name, whatever the hash does |
| ReviewController.Controller.StepReviewerUsers | cluster/common/accesscmd/review.go:339-400 | expanding reviewers and groups yields exactly the users the eligibility test accepts |
| ReviewController.Controller.IsEligibleReviewer | cluster/nocturne/nocturne/controllers/reviews/ctl.go:386-406 | active user, separation of duties and some matching reviewer, and nothing else |
| ReviewController.Controller.IsStepRejected | cluster/nocturne/nocturne/controllers/reviews/ctl.go:272-294 | true if and only if some eligible reviewer rejects |
| ReviewController.Controller.IsStepApprovedAny | cluster/nocturne/nocturne/controllers/reviews/ctl.go:320-342 | true if and only if some eligible reviewer approves |
| ReviewController.Controller.IsStepApprovedAll | cluster/nocturne/nocturne/controllers/reviews/ctl.go:344-384 | true if and only if there are eligible reviewers and all of them approve |
| ReviewController.Controller.IsStepApprovedCount | cluster/nocturne/nocturne/controllers/reviews/ctl.go:408-442 | compares the number of different eligible approvers with the count, and refuses a count of zero |
| ReviewController.Controller.CurrentStepReviews | cluster/nocturne/nocturne/controllers/reviews/ctl.go:228-270 | exactly the stored reviews of this request at this step |
| ReviewController.Controller.Reconcile | cluster/nocturne/nocturne/controllers/reviews/ctl.go:57-213 | the controller writes the request the review decision function gives, and nothing on an error |
| AccessDecisions.EligibleExactly | cluster/nocturne/nocturne/controllers/reviews/ctl.go:386-406 | a user may review if and only if known, neither disabled nor locked, not an excluded requester or subject, and named by the step or in a group it names |
| AccessDecisions.VerdictExactly | cluster/nocturne/nocturne/controllers/reviews/ctl.go:228-442 | in terms of the stored reviews: one eligible rejection refuses the step; otherwise ANY is cleared by one eligible approval, ALL by one from each eligible user, there being one, and COUNT by that many from different ones, and only so |
| AccessDecisions.IgnoredEvents | cluster/nocturne/nocturne/controllers/reviews/ctl.go:57-139 | events without a standing decision, of another request or step, by ineligible users, about requests that are not pending, or unforced about noted reviews change nothing |
| AccessDecisions.EventOutcome | cluster/nocturne/nocturne/controllers/reviews/ctl.go:179-226 | an event that counts rejects, approves at the last step, moves to the next step and starts its clock, or waits, as the verdict says, and stamps the new state |
| AccessDecisions.EventIsNoted | cluster/nocturne/nocturne/controllers/reviews/ctl.go:141-155 | the request notes the delivered review with its present decision and leaves its other notes alone |
| AccessSafety.NextKeeps | cluster/nocturne/nocturne/controllers/requests/ctl.go:113-217 | every action, a reconciliation of an outdated item included, keeps the invariant on history, rule, steps, times, reviews and grant, and evolves the request only as allowed |
| AccessDelivery.DeliverOutcome | cluster/nocturne/nocturne/controllers/reviews/ctl.go:57-226 | an event that counts moves the request where the stored reviews put it, whichever review it was; any other changes nothing |
| AccessDelivery.RedeliveryIsHarmless | cluster/nocturne/nocturne/controllers/reviews/ctl.go:42-177 | delivering an event again changes nothing, forced or not |
| AccessDelivery.AllEvents | cluster/nocturne/nocturne/controllers/reviews/ctl.go:42-226 | after any list of events the request is where the stored reviews of its step put it if one of the events counts, and unchanged otherwise |
| AccessDelivery.DeliveryOrderIrrelevant | cluster/nocturne/nocturne/controllers/reviews/ctl.go:42-177 | two lists of events that contain the same events, in whatever order, number and at whatever times, forced or not, leave the request at the same status and step |
| AccessDelivery.CopiesDoNotCount | cluster/nocturne/nocturne/controllers/reviews/ctl.go:272-442 | a second stored copy of a review, as long as it is identical, changes the verdict of no step, whatever the requirement |
| AccessDelivery.WithdrawnExactly | cluster/common/accesscmd/review.go:128-170 | a reviewer whose review is changed to another decision still counts with the old one if and only if a second review of theirs for that step carries it |
| AccessProgress.DecisionIsHeard | cluster/nocturne/nocturne/controllers/reviews/ctl.go:42-177 | the event of an accepted decision counts with the review controller, if the review is not noted yet or is changed and delivered as changed |
| AccessProgress.NewReviewIsUnheard | cluster/nocturne/nocturne/controllers/reviews/ctl.go:120-177 | in every run, a review that does not exist and was never deleted has not been noted by the request |
| AccessProgress.NoDecisionIsLost | cluster/nocturne/nocturne/controllers/reviews/ctl.go:42-226 | in every run, once the event of the latest accepted decision has been delivered, in whatever company and order, the request is where the stored reviews of its step put it; so no delivered quorum is lost |
| AccessProgress.ClearedButUnheard | cluster/nocturne/nocturne/controllers/reviews/ctl.go:344-384 | a concrete run in which disabling the last missing reviewer clears a step, and no unforced event of any review moves the request on |
| AccessSettling.AutomaticApproval | cluster/nocturne/nocturne/controllers/requests/ctl.go:710-821 | an automatic approval is not expired in the same pass; access starts with it and lasts for what was asked for or allowed, in whole seconds from one second on |
| AccessSettling.AmendInertExactly | cluster/nocturne/nocturne/controllers/requests/ctl.go:710-747 | durations being whole milliseconds, a change of the duration after the match has no effect on the end of access if and only if the match fixed at least one second or the maximum is one millisecond; otherwise setting none gets the maximum |
| AccessSettling.ReconcileSettles | cluster/nocturne/nocturne/controllers/requests/ctl.go:113-155 | two passes over the current request settle request and grant, whether or not the target can be resolved: an approved request has a grant if and only if the second pass resolves the target or it had one before, any other request has none, and a further pass changes nothing |
| AccessSettling.WatchSettles | cluster/nocturne/nocturne/watcher/watcher.go:274-377 | the watcher moves exactly the requests that are due, leaves none due, and looking again changes nothing |
| AccessClock.ClockRunsSinceEntry | cluster/nocturne/nocturne/controllers/reviews/ctl.go:215-226 | in every run the clock of the current step runs since the action that brought the request to that step |
| AccessClock.NoEarlyTimeout | cluster/nocturne/nocturne/watcher/watcher.go:291-377 | in every run, where the watcher moves a request whose deadline is not over, the current step has had its full timeout since the request came to it |
| AccessEndings.EndsExactly | cluster/nocturne/nocturne/watcher/watcher.go:274-377 | an action ends a request in a given final status if and only if it is one of the causes of that status: its requester cancels it while pending; it is revoked while pending or approved; the stored votes refuse it, its step runs out of time and says so, or no rule or a denial is matched; its deadline, its step or its access is over |
| AccessEndings.EveryEndHasACause | cluster/nocturne/nocturne/controllers/requests/ctl.go:113-155 | in every run, a request that has ended was ended by one action, which had a cause for just that end |
| AccessEndings.AdvancesExactly | cluster/nocturne/nocturne/controllers/reviews/ctl.go:179-226 | a request goes on to its next step if and only if the stored votes clear a step that is not the last, or a step out of time that says so has a next one |
| AccessRuns.RequestLifecycle | cluster/nocturne/nocturne/controllers/requests/ctl.go:736-785 | over any stretch of a run final states stay, approvals are only revoked or expire, rule and end of access never change, steps are not taken back and no past state is forgotten |
| AccessRuns.HistoryIsExact | cluster/nocturne/nocturne/controllers/reviews/ctl.go:477-513 | in every run the history has at most two entries, so the bound of 100 never drops one, and state and history together are exactly the states the request has been in |
| AccessRuns.HandedInRun | cluster/nocturne/nocturne/controllers/requests/ctl.go:69-111 | every item the request controller is handed in a run is a sound earlier form of the current request, which has since changed only as the lifecycle allows |
| AccessRuns.OnlyQuorumOrTimeout | cluster/nocturne/nocturne/watcher/watcher.go:291-418 | only a quorum or an allowed timeout moves a request on, and only a quorum on the last step approves it |
| AccessRuns.ApprovalIsEarned | cluster/nocturne/nocturne/controllers/reviews/ctl.go:179-226 | an approved request was matched by an automatic rule, or had every step of its rule left by quorum or timeout |
| AccessRuns.QuorumIsGenuine | cluster/nocturne/nocturne/controllers/reviews/ctl.go:296-442 | whenever a quorum lets a request leave a step, there are different eligible reviewers who meet the requirement and who each decided earlier, while eligible, to approve that very step: all eligible ones for ALL, at least the required number for COUNT, someone for ANY |
| AccessDuties.QuorumIsActive | cluster/common/accesscmd/review.go:217-244 | every member of a quorum is neither locked nor disabled when it counts, and was neither when deciding |
| AccessRuns.ApprovedByIndependentReviewer | cluster/common/accesscmd/review.go:249-275 | behind every approval by review stands a reviewer of the last step who decided to approve, was eligible, is not the requester unless allowed, and is not the user the request has as its subject, unless allowed or the subject reference has no uid |
| AccessDuties.SubjectKeptOutExactly | cluster/common/accesscmd/request.go:54-69 | whatever the directory, a step that excludes the subject keeps the subject out if and only if the request refers to the subject by uid |
| AccessDuties.SubjectByUidNeverApproves | cluster/common/accesscmd/review.go:85-148 | in no run does a subject referred to by uid decide to approve a step that excludes the subject |
| AccessDuties.SubjectByNameApproves | cluster/common/accesscmd/request.go:153-168 | a concrete run in which a subject referred to by name is the only voter and approves a step that excludes the subject |
| AccessRuns.VoteIsGenuine | cluster/common/accesscmd/review.go:48-149 | a stored review says what its reviewer decided, on the then current step, while eligible |
| AccessRuns.NobodyVotesTwice | cluster/common/accesscmd/review.go:83-148 | no reviewer has two reviews for one step of a request, the lookup and the creation of a review taken as one action |
| AccessRuns.LatestDecisionCounts | cluster/common/accesscmd/review.go:85-148 | in every run, once a decision is accepted, the reviewer counts for that decision on the step and for no other |
| AccessGrants.GrantIsBounded | cluster/nocturne/nocturne/controllers/requests/ctl.go:434-547 | whoever is let in is the subject, or the requester where none is named, was approved at the moment the approval time records, a state the run was in, and only until a later moment, at most the maximum of the rule after it, or 24 hours if the rule sets none; rejected and cancelled requests never have a grant |
| AccessGrants.AccessLengthIsFixedAtMatch | cluster/nocturne/nocturne/controllers/requests/ctl.go:710-821 | by review or automatically, and whatever was amended in between, access ends the whole seconds fixed at the match after the approval, if these come to a second: those asked for then, if within the maximum of the rule, or 24 hours without one, and otherwise that limit |
| AccessGrants.ShortAccessCanGrow | cluster/apiserver/apiserver/access/userrequest.go:121-165 | a concrete run in which half a second is asked for and matched, the duration is then withdrawn, and access ends 24 hours after the approval |
| AccessGrants.GrantAppearsExactly | cluster/nocturne/nocturne/controllers/requests/ctl.go:434-485 | over any stretch of a run without grant at its start, a grant appears if and only if the controller is handed an approved item whose access is fixed and not over and whose target exists |
| AccessGrants.GrantReturnsExactly | cluster/nocturne/nocturne/controllers/requests/ctl.go:69-91 | after the end of a request without grant, the grant comes back if and only if the controller is handed such an item from before the end |
| AccessGrants.AccessCanComeBack | cluster/nocturne/nocturne/controllers/requests/ctl.go:113-155 | a concrete run in which the grant of a revoked request returns, and is removed by the next round of the grant watcher |
| AccessGrants.FinalRequestLosesGrant | cluster/nocturne/nocturne/controllers/requests/ctl.go:134-147 | a final request loses its grant when the controller is handed it or the grant watcher makes its round, and never has one again if and only if no approved, unexpired item from before then is still reconciled |
| AccessGrants.SweepLeavesLiveGrants | cluster/nocturne/nocturne/watcher/watcher.go:167-235 | in every run, after a round of the grant watcher exactly the grants of approved requests whose time is not over are left |

## Left out

- Partial writes, permissions, symbolic links and the order `filepath.Walk` chooses: a visit list with read and write failures stands for them, and a write happens wholly or not at all.
- Whether rewritten files are valid Go: the tool is textual, and `package ` in a comment counts.
- `tsHeader` (unsorted/licenser/main.go:145-153): nothing uses it.
- SHA-256 is an arbitrary function to 32 bytes; purposes outside the declared enumeration, which print as numbers, are not modelled.
- Interleaving inside one read-modify-write: the store's conflict handling lives in another repository. A write of an outdated copy of the request is taken to be refused, and every action but the reconciliation of a request reads and writes in one piece.
- Policy matching (cluster/nocturne/nocturne/controllers/requests/ctl.go:219-432): the matched rule is an input of the request controller, because its CEL conditions are evaluated elsewhere.
- The contents of a policy trigger other than subject and end of access, the reference to it in the request, and deletion of requests.
- References by name only, other than that to the subject, and objects without uid: requesters, reviewers, groups and reviews are identified by uid, and an empty uid matches nobody.
- AccessRuns.NobodyVotesTwice: does not cover two simultaneous first votes of one reviewer, which the source's lookup and creation of a review do not exclude by themselves.
- Errors of the user and group lookups other than "not found", which abort an event without effect.
- Justifications, revisions, step names, origins and notifications: they have no say in the outcome.
- Durations of more than 2^32 seconds, which the source narrows to 32 bits.
- AccessModel.CheckRequest: the watcher is modelled on values, as the copy it writes back; the loop over all requests treats each one independently.
- The other services of the repository, which are not part of this model.
