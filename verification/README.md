# Traversal connector: verification project

A Dafny model of the connector's hand-written state machines and pure transformations, with proofs of what they promise. One module models one component:

| module | what it models |
|---|---|
| `RedactWalk` | one structured redaction rule walked over a decoded JSON tree, scoped by pipe-delimited path prefixes |
| `RedactMeaning` | what that walk makes of every node of a document, and when it raises its flag, from the filters and the replacement alone |
| `RedactEdges`, `MapFill`, `RedactPaths` | exactly when three natural readings of that walk hold: filters, iteration order, paths |
| `RedactRules`, `RuleChains` | compiling a rules document, covering hosts, and running a rule set over a body, rule after rule |
| `RuleLoads` | a body that two rule sets share |
| `OpenLimiter` | the capability verifier's time window and its heap-backed limit on opens |
| `OpenVerdict` | exactly which capabilities are accepted, and the reason each other is given |
| `OpenHistory`, `OpenBound` | exactly when one capability opens more than four pipes |
| `Splice`, `SpliceOutcome`, `StreamConn` | the byte splice, what its outcome names, and the stream adapter, as interleaved steps |
| `Drain`, `PipeServer`, `Tunnels` | the in-flight tracker, pipe admission and shutdown, and the tunnel holders |
| `Upstream`, `UpstreamMeaning`, `Slots` | the covered-response pipeline, what it refuses and what it sends, and its redaction slots |
| `RemoteLoader`, `RemoteMeaning` | the over-the-air config loader: caches, anti-rollback, last known good, and the rules in force as the decoded document says them |
| `Preface`, `PrefaceMeaning`, `Hostname`, `FoldedUnique`, `DialPolicy` | the tunnel preface, canonical hosts and authorities, the folded-duplicate scan of JSON keys, the forbidden-address policy |
| `Strings`, `Wrappers` | the parts of Go's string library the parsers use; `Option` and `Result` |

How it is built:

- Code that changes state is a class or a method, proved against a specification function or relation; the properties are lemmas about that specification. Where goroutines interleave, each is a set of steps between its effects, a run is any sequence of states in which some step leads from each to the next, and the lemmas hold at every state of every run.
- Regular expressions, IDNA, gzip, TOML and JSON text, signatures, hashing and the parsing of IP addresses are arbitrary total functions passed in. Where a result needs a law of theirs (an injective hash, inflate undoing deflate, an address printing as it parses) the lemma requires it and nothing more.
- Clocks, timers, the network and the peer are inputs: a timer may fire at any step, a read or write may have any result, a clock reading is part of the call.
- A Go string or byte slice is a sequence of characters standing for bytes. Times and integers are unbounded.

Where a property fails, the model keeps the code and says so:

- An object's iteration order shows in the result exactly when somewhere in the tree two children sent to one rewritten key have different images there (`CollisionsShowTheOrder`, over every order of every object); `TwoOrdersTwoResults` walks one object in its two orders. Where no keys collide it never shows (`OrderDoesNotMatter`).
- A walk path leaves out array positions and does not tell a separator in a key from its own. Two nodes share a path, and every filter entry that names it, exactly when their keys have the same pieces (`SamePathExactly`); keys that are not empty and hold no separator are told apart (`PlainPathsAreDistinct`), others need not be (`OnePathTwoNodes`).
- A JSON body is redacted by two loads of the rule set, and an update may land between them. The pair then gives what the old set alone would on every body exactly when the two sets' byte-level rules do the same to every text, and what the new set alone would exactly when their structured rules do the same to every document (`UnseenByTheOldSet`, `UnseenByTheNewSet`); equal rules for the host on either side are enough (`SameRulesForTheHost`). A rule that changes kind meanwhile is run by neither pass (`ChangedKindIsMissed`), so that the body leaves as it came with no flag (`ChangedKindInput`). Whether a host is covered is a third load, made when the request began: here it is an input.
- The splice's outcome is not always the first failure: it is the failure of whoever takes the once (`OutcomeIsTheTakers`), which is the first exactly under `FirstFailureExactly`'s condition on who failed when; `LaterFailureWins` is a run in which it is not.
- A filter's entry is documented to cover everything beneath it. That holds of a filter exactly when `""` is not one of its entries (`SubtreesAreCoveredExactly`): at the top of a document `""` covers the document and none of its keys. A `skip_fields` entry `""` skips the document whole, and the path-by-path reading of the filters is right for every other blocklist (`WalkOfDocument`).
- Four opens per capability is a bound on most runs, not all. A `jti` is accepted more than four times exactly when more than four calls for it reach the limiter and one of them does so with, or after, a clock reading past the first one's expiry (`MoreThanFourOpens`, over every run; `AcceptsBySpells` gives the exact number). The clock reading back (`ClockGoingBackReopens`) and two expiries under one `jti` (`SecondExpiryReopens`) are the two ways to it, with eight opens each; with both ruled out the bound holds (`AtMostFourOpens`). The verifier reads its clock before it takes the lock, so concurrent calls may present readings out of order.
- The comment on `Drain` says it refuses new pipes. A pipe already past `open`'s first check is still admitted, even after the tunnels have begun to close (`LateAdmission`); every check made from then on refuses (`CheckedWhileDrainingIsRefused`).
- `UnmatchedWalkIsIdentity` and its kin say a document is unchanged as a tree; its bytes are those of its re-encoding (`UnmatchedDocument`).
- The count of tunnels up is not the tunnels being served: it also has those in the gaps before and after (`UpBoundsServedTunnels`).

`dafny verify dfyconfig.toml` checks the whole project.

## Model

| member | source | states |
|---|---|---|
| `RedactWalk.HasPathPrefixInSet` | internal/redact/redact.go:214-226 | found exactly when some entry is the path itself or an ancestor of it ending at a separator |
| `RedactWalk.ScopeIsClosedDownwards` | internal/redact/redact.go:547-611 | what a filter covers at a non-empty path it covers at every child path |
| `RedactEdges.SubtreesAreCoveredExactly` | internal/redact/redact.go:112-118 | a filter covers everything beneath whatever it covers, at every path, exactly when the empty path is not one of its entries |
| `RedactWalk.WalkOfDocument` | internal/redact/redact.go:547-611 | over every tree, the pruning walk of a document is the reading of the filters that decides each key and each leaf from its own path; a blocklist with `""` is the one exception, and leaves the document alone |
| `RedactWalk.WalkIsPathwise` | internal/redact/redact.go:547-611 | the same at every node, and only for a non-empty path or a blocklist without `""` |
| `RedactWalk.SkippedSubtreeIsIdentity` | internal/redact/redact.go:547-611 | below a skipped path no key and no leaf is rewritten at any depth, so cutting the walk there loses nothing |
| `RedactWalk.EveryLeafComesFromAnInputLeaf` | internal/redact/redact.go:547-611 | in any iteration order, every leaf of the result is the image of an input leaf whose rewritten address it stands at, rewritten exactly as that leaf's own path says |
| `RedactWalk.EveryLeafArrives` | internal/redact/redact.go:547-611 | with no colliding keys every input leaf is found at its rewritten address, rewritten exactly when its path is in scope and not skipped |
| `RedactWalk.OrderDoesNotMatter` | internal/redact/redact.go:559-583 | any two walks of a tree on which key rewriting is injective give the same tree |
| `RedactEdges.WalksAreOrders` | internal/redact/redact.go:547-611 | the walks of a tree are exactly what the code leaves of it over all orders of all its objects |
| `RedactEdges.CollisionsShowTheOrder` | internal/redact/redact.go:547-611 | over a whole tree one result is left whatever the orders exactly when, at every object walked, children sent to one key have the same image there |
| `RedactEdges.TwoOrdersTwoResults` | internal/redact/redact.go:559-583 | one object with two keys rewritten to one, walked in its two orders, leaves two results |
| `MapFill.OrderFor` | internal/redact/redact.go:559-583 | any choice of which key is written last to each new key is what some order of the keys leaves |
| `RedactEdges.OrderLeaves` | internal/redact/redact.go:559-583 | any image of any child is left at its rewritten key by some walk, which is some order |
| `RedactEdges.ImageIsWalk` | internal/redact/redact.go:547-611 | every tree has a walk under every rule |
| `RedactPaths.SamePathExactly` | internal/redact/redact.go:547-611 | two nodes have one walk path exactly when their keys, leading empty ones dropped and the rest cut at separators, have the same pieces |
| `RedactPaths.PlainPathsAreDistinct` | internal/redact/redact.go:547-611 | among keys that are not empty and hold no separator, a path names one list of keys |
| `RedactPaths.OnePathTwoNodes` | internal/redact/redact.go:547-611 | a key with a separator shares its path with two nested keys, and any key with itself under an empty one |
| `RedactWalk.UnmatchedWalkIsIdentity` | internal/redact/redact.go:547-611 | a walk of one rule that hit nothing returns the tree it was given |
| `RedactWalk.UnmatchedIsUnchanged` | internal/redact/redact.go:514-528 | over any list of rules, a flag never raised means the tree is the one that came in |
| `RedactWalk.IsSkipped` | internal/redact/redact.go:547-611 | whether the blocklist covers the path; a rule without one skips nothing |
| `RedactWalk.RedactValueForRule` | internal/redact/redact.go:547-611 | the result is a walk of the value in some iteration order, and the shared flag is raised exactly if it was before or something was hit, whatever the order |
| `RedactWalk.RedactObject` | internal/redact/redact.go:559-583 | an object's fresh map, filled in any order: its keys are the image of the old keys and each value is the walk of some child mapped to that key |
| `RedactWalk.RedactValue` | internal/redact/redact.go:514-528 | the structured rules walked in turn, each over what the one before it left, under one flag |
| `RedactMeaning.WalkMeansEveryNode` | internal/redact/redact.go:547-611 | a document whose keys stay apart is walked to a result exactly when every node of it is found there, at its own address with the keys on it rewritten: a string replaced exactly when its path is in the allowlist and not in the blocklist, a number made a string exactly when it is also changed, null, booleans and array lengths kept, a key rewritten exactly when its object is in the one and its own path not in the other |
| `RedactMeaning.EveryNodeArrives` | internal/redact/redact.go:547-611 | each such node, from any path |
| `RedactMeaning.WalkAddsNothing` | internal/redact/redact.go:547-611 | of any document and in any order, merged keys or not, every node of the result is a node of the input, changed exactly as that one's own path says |
| `RedactMeaning.EveryNodeComes` | internal/redact/redact.go:547-611 | the same from any path |
| `RedactMeaning.FlagMeansAChange` | internal/redact/redact.go:547-611 | the flag is raised exactly when the blocklist does not name the top and, at some address, a string, a number or a key is changed |
| `RedactMeaning.SkippedDocumentStays` | internal/redact/redact.go:547-611 | a blocklist that names the empty path leaves every document as it is |
| `RedactMeaning.PrefixMeans` | internal/redact/redact.go:214-226 | an entry covers a path exactly when it is the path or the path continues it past a separator |
| `RedactRules.CompileHostMatchers` | internal/redact/redact.go:331-367 | the first pattern that does not compile, wildcard or not beside it, or matchers for all of them, or none for an unfiltered rule |
| `RedactRules.FirstBadHostIsFirst` | internal/redact/redact.go:331-367 | the pattern an update is refused for is the earliest bad one |
| `RedactRules.MatchersMeanTheirPatterns` | internal/redact/redact.go:331-367 | some matcher accepts a host exactly when some listed pattern spans the whole name |
| `RedactRules.CheckHost` | internal/redact/redact.go:180-191 | a rule covers a host when it has no matchers or one of them matches |
| `RedactRules.CompileOneMeans` | internal/redact/redact.go:268-325 | one rule compiles exactly when its kind, pattern and every host pattern do, and then fires where, and rewrites as, its entry says |
| `RedactRules.CompileMeansTheDocument` | internal/redact/redact.go:268-325 | a document is accepted exactly when every rule in it compiles, and then rule by rule, in order, means what it says, replacement fallbacks and filters included |
| `RedactRules.CompileRules` | internal/redact/redact.go:268-325 | all the rules compiled in order, or the error of the first that does not |
| `RedactRules.Redactor.Update` | internal/redact/redact.go:258-265 | the rule set is replaced whole, or on any error not at all |
| `RedactRules.Redactor.HasRulesForHost` | internal/redact/redact.go:196-205 | whether some rule in force covers the canonical host |
| `RedactRules.Redactor.Apply` | internal/redact/redact.go:395-412 | the byte-level rules that cover the host, each over what the ones before it left, and whether any changed something |
| `RedactRules.Redactor.ApplyJSON` | internal/redact/redact.go:437-494 | the structured rules that cover the host over the one document, its flag being whether something was hit; with none in scope the text is returned unparsed |
| `RedactRules.UnchangedBytes` | internal/redact/redact.go:395-412 | no reported change means the body that came in |
| `RedactRules.UnmatchedDocument` | internal/redact/redact.go:437-494 | no reported match means the document that was decoded, re-encoded, or the very text when no structured rule is in scope |
| `RedactRules.UncoveredHostIsUntouched` | internal/redact/redact.go:196-205 | on a host the gate says no rule covers, neither path can change any body |
| `RuleChains.BytesAreAChain` | internal/redact/redact.go:395-412 | the byte-level pass ends with the last of a chain of texts, one link for each rule, each its replacement of the text before if the rule is byte-level and covers the host and else that same text; it reports a change exactly when some link differs |
| `RuleChains.BytesCompose` | internal/redact/redact.go:395-412 | running one list of rules and then another is running the second over what the first left, changed if either changed it |
| `RuleChains.BytesOfOne` | internal/redact/redact.go:395-412 | a rule alone |
| `RuleChains.ActiveCompose` | internal/redact/redact.go:437-494 | the structured rules in scope of two lists are those of the one, then those of the other |
| `RuleChains.ActiveOfOne` | internal/redact/redact.go:437-494 | a rule alone is in scope exactly when it is structured and covers the host |
| `RuleChains.JSONIsAChain` | internal/redact/redact.go:437-494 | a result of the structured pass is exactly the text itself where no structured rule covers the host, a fault where it does not decode, and else the last of a chain of walks of what it decodes to, encoded, one walk for each such rule in order, matched exactly when some walk changed something |
| `RuleLoads.UnseenByTheOldSet` | internal/upstream/redact.go:240-251 | an update between the two loads shows on no body, whatever the codec, as the old set alone has it, exactly when the sets' byte-level rules for the host do the same to every text |
| `RuleLoads.UnseenByTheNewSet` | internal/upstream/redact.go:240-251 | and as the new set alone has it exactly when their structured rules for the host do the same to every document, what they report included wherever a report can be seen |
| `RuleLoads.SameRulesForTheHost` | internal/upstream/redact.go:240-251 | equal byte-level rules, or equal structured rules, for the host keep the update unseen |
| `RuleLoads.ChangedKindIsMissed` | internal/upstream/redact.go:240-251 | a rule that moves from byte-level to structured between the loads is run by neither: the body leaves as it came, unflagged, though either set alone rewrites and flags it |
| `RuleLoads.ChangedKindInput` | internal/upstream/redact.go:240-251 | such a body and rule, in full |
| `OpenLimiter.RootIsEarliest` | connector-lib/capability/capability.go:143-157 | the root of the array is no later than any entry |
| `OpenLimiter.StepUp` | connector-lib/capability/capability.go:143-157 | swapping an entry earlier than its parent upwards keeps the array a heap but for that entry |
| `OpenLimiter.StepDown` | connector-lib/capability/capability.go:143-157 | swapping an entry with its earlier child downwards keeps the array a heap but for that entry |
| `OpenLimiter.SiftUp` | connector-lib/capability/capability.go:143-157 | in place, restores the heap after an append, with the same entries and nothing touched beyond them |
| `OpenLimiter.SiftDown` | connector-lib/capability/capability.go:143-157 | in place, restores the heap after the root is replaced, with the same entries and nothing touched beyond them |
| `OpenLimiter.Verifier.Push` | connector-lib/capability/capability.go:143-157 | exactly one entry more, in a heap, whether or not the array had to grow |
| `OpenLimiter.LastToRoot` | connector-lib/capability/capability.go:143-157 | the last entry in the root's place leaves the root at the end and a heap of exactly the others but for the new root |
| `OpenLimiter.Verifier.Pop` | connector-lib/capability/capability.go:143-157 | returns the root and leaves a heap of exactly the other entries |
| `OpenLimiter.Verifier.NothingExpiredIsLeft` | connector-lib/capability/capability.go:306-312 | a root that has not expired means no remembered capability has |
| `OpenLimiter.Verifier.Prune` | connector-lib/capability/capability.go:306-312 | pruning that stops at the root forgets exactly the capabilities expired at the reading, in the heap and in the counts alike |
| `OpenLimiter.Verifier.CountOpen` | connector-lib/capability/capability.go:314-319 | one open more is counted, its expiry recorded only if it is the first, and heap and counts still name the same capabilities |
| `OpenLimiter.Verifier.ForgetRoot` | connector-lib/capability/capability.go:306-312 | the root's capability, and no other, is gone from both |
| `OpenLimiter.Verifier.TakeOpen` | connector-lib/capability/capability.go:306-320 | refines the plain map of unexpired capabilities with counts; keeps the heap a heap, its entries exactly the counted capabilities without repeats, every count from 1 to 4 |
| `OpenLimiter.Verifier.Verify` | connector-lib/capability/capability.go:211-233 | the checks in order and, past them, one open taken; a call refused before that changes nothing |
| `OpenLimiter.CheckClaims` | connector-lib/capability/capability.go:287-304 | whether the claims are all there and well formed |
| `OpenLimiter.CheckCall` | connector-lib/capability/capability.go:211-230 | the first reason against a call, the opens apart |
| `OpenVerdict.AcceptedExactly` | connector-lib/capability/capability.go:211-320 | a capability is accepted exactly when its claims are there and well formed field by field, it is the signer's, the configured issuer's and subject's and for the tunnel audience, the clock is in its window by 30 s either way, it names this connector, this host and this port, and fewer than four live opens are counted for it |
| `OpenVerdict.RefusedInOrder` | connector-lib/capability/capability.go:211-320 | and each of the four reasons is given exactly when what the earlier ones ask holds and what it asks does not |
| `OpenVerdict.AcceptedIsCounted` | connector-lib/capability/capability.go:306-320 | an accepted call adds one live open to its own capability and none to another, remembered until 30 s past its end; a call refused for what it says leaves the opens alone |
| `OpenLimiter.RunIsValid` | connector-lib/capability/capability.go:306-320 | after every run the counts and expiries name the same capabilities and every count is from 1 to 4 |
| `OpenLimiter.AtMostFourOpens` | connector-lib/capability/capability.go:211-320 | over any run in which a capability names one expiry and no reading goes back past it, it is accepted at most four times in all: forgetting it never reopens it |
| `OpenLimiter.AtMostFourOpensByTheClock` | connector-lib/capability/capability.go:211-320 | in particular over any run whose readings never decrease |
| `OpenBound.MoreThanFourOpens` | connector-lib/capability/capability.go:211-320 | with nothing assumed: a jti is accepted more than four times exactly when more than four calls for it reach the limiter and one does so with, or after, a reading past the first one's expiry |
| `OpenBound.AcceptsBySpells` | connector-lib/capability/capability.go:306-320 | a jti is accepted exactly four times at most in each spell of its tries, a spell ending with a reading past its first try's expiry |
| `OpenBound.RunExplains` | connector-lib/capability/capability.go:306-320 | after every run the count and expiry held for a jti are exactly those of its last spell, and nothing is held between spells |
| `OpenHistory.MoreThanOneSpell` | connector-lib/capability/capability.go:306-320 | spells give more than four opens exactly when there are more than four tries and one comes with or after a reading past the first's expiry |
| `OpenHistory.HistoryTells` | connector-lib/capability/capability.go:306-320 | that history, kept call by call, says whether some reading passed the first try's expiry and whether a try came with it or after |
| `OpenLimiter.EveryEntryWasOpened` | connector-lib/capability/capability.go:218-320 | every remembered capability was accepted by some call at most 360 s before its recorded expiry |
| `OpenLimiter.EntriesAreRecent` | connector-lib/capability/capability.go:218-320 | after any call that reached the limiter, every entry kept was opened within the last 360 s |
| `OpenLimiter.FourAreAccepted` | connector-lib/capability/capability.go:306-320 | a capability not remembered is opened by each of its first four valid calls |
| `OpenLimiter.ClockGoingBackReopens` | connector-lib/capability/capability.go:211-320 | a reading that goes back past the expiry gives one capability eight opens |
| `OpenLimiter.SecondExpiryReopens` | connector-lib/capability/capability.go:306-320 | so do two expiries under one jti, the clock only advancing |
| `Splice.StepKeepsInv` | connector-lib/halfconn/splice.go:46-97 | every step of either copier, a timer or the waiter keeps the bytes in order, the once's bookkeeping and the outcome's cause, and undoes no abort |
| `Splice.RunKeepsInv` | connector-lib/halfconn/splice.go:46-97 | so the invariant holds at every instant of every interleaving |
| `Splice.BytesArriveInOrder` | connector-lib/halfconn/splice.go:73-97 | at every instant what one side was sent is a prefix of what was read from the other, and the count is all of it but what a failed last write let through |
| `Splice.CompletedMeansClean` | connector-lib/halfconn/splice.go:46-69 | a Completed result means both sources ended, all their bytes were written and counted, both sinks were half-closed, and no end was or ever will be aborted |
| `Splice.FailedMeansBothAborted` | connector-lib/halfconn/splice.go:46-69 | any other result means each end is aborted exactly once, for good, by whoever took the once |
| `SpliceOutcome.OutcomeIsTheTakers` | connector-lib/halfconn/splice.go:46-97 | the outcome names the last failure of whoever took the once; the limit only if a timer did and one was set |
| `SpliceOutcome.FirstFailureExactly` | connector-lib/halfconn/splice.go:46-97 | that is the first failure there was exactly when the taker failed first and not again, or the other copier failed first at the same end; for a timer, when no copier had failed |
| `SpliceOutcome.LaterFailureWins` | connector-lib/halfconn/splice.go:46-97 | a run in which the first failure is not the one named |
| `Drain.AddKeepsConsistent` | connector-lib/drain/drain.go:33-44 | a count from zero opens a new channel, so zero still means no channel or a closed one |
| `Drain.DoneKeepsConsistent` | connector-lib/drain/drain.go:46-56 | the last Done never closes a nil or an already closed channel |
| `Drain.Tracker.Add` | connector-lib/drain/drain.go:33-44 | refuses exactly at a positive limit, and a refusal changes nothing |
| `Drain.Tracker.Done` | connector-lib/drain/drain.go:46-56 | panics exactly when called more often than Add succeeded, never in closing a channel |
| `Drain.RunKeepsInv` | connector-lib/drain/drain.go:33-89 | in every interleaving zero in flight is exactly an idle channel that is nil or closed, and every earlier channel is closed |
| `Drain.NoLostWakeup` | connector-lib/drain/drain.go:74-89 | a waiter blocked on an open channel waits for work in flight on the channel that work will close; with nothing in flight every blocked waiter can wake |
| `Drain.ChannelsCloseOnce` | connector-lib/drain/drain.go:33-56 | only the last Done closes a channel, the current one, open until then; no channel is reopened |
| `Drain.WaitSawZero` | connector-lib/drain/drain.go:74-89 | a Wait that returned nil had itself, at an earlier instant, looked and found nothing in flight |
| `PipeServer.RunKeepsInv` | internal/pipeserver/server.go:117-185 | in every interleaving of pipes and shutdown the tracker counts exactly the pipes admitted and not released |
| `PipeServer.SlotsMatchPipes` | internal/pipeserver/server.go:124-185 | pipes in flight are admitted minus finished and never more than a positive MaxPipes |
| `PipeServer.EndingCanRelease` | internal/pipeserver/server.go:134-135 | in every run the deferred Done of a pipe that is over can be made and does not panic |
| `PipeServer.AddsAndDones` | internal/pipeserver/server.go:124-185 | the successful Adds so far are exactly the pipes in flight or released, and the Dones so far exactly the pipes released, one each |
| `PipeServer.EachPipeReleasedOnce` | internal/pipeserver/server.go:124-139 | a Done is one pipe's, an accept failure's included, and that pipe is never in flight again |
| `PipeServer.TunnelsCloseDrainedOrLate` | internal/pipeserver/tunnels.go:59-77 | the tunnels close only if the grace period is over or at some instant after draining began no pipe was in flight |
| `PipeServer.SawNoPipes` | internal/pipeserver/tunnels.go:59-77 | shutdown that ended by draining had itself found none in flight while draining |
| `PipeServer.DrainWakes` | internal/pipeserver/server.go:117-122 | blocked shutdown can always go on once no pipe is in flight |
| `PipeServer.CheckedWhileDrainingIsRefused` | internal/pipeserver/server.go:162-170 | a pipe not yet checked when draining began is refused as draining or still unchecked ever after |
| `PipeServer.AdmittedWasCheckedBeforeDraining` | internal/pipeserver/server.go:162-185 | every pipe past its check was checked at an instant before draining |
| `PipeServer.AdmittedIsEntitled` | internal/pipeserver/server.go:162-185 | in every interleaving a pipe is admitted only if its request was well formed and its capability verified, and a refused one has the fault it was refused for |
| `PipeServer.LateAdmission` | internal/pipeserver/server.go:162-185 | such a pipe may be admitted after shutdown found none in flight and closed the tunnels |
| `Tunnels.RunKeepsInv` | internal/pipeserver/tunnels.go:103-198 | in every interleaving each tunnel in use is watched by its own holder and the counters match the tunnels |
| `Tunnels.UpBoundsServedTunnels` | internal/pipeserver/tunnels.go:151-198 | Up is exactly the tunnels being served and those counted but not yet, or no longer, in ServeConn; so never fewer than are served |
| `Tunnels.ReadyForGood` | internal/pipeserver/tunnels.go:89-94 | once ready, ready ever after, however tunnels come and go |
| `Tunnels.ReadyFromFirstTunnel` | internal/pipeserver/tunnels.go:89-94 | ready from the first tunnel on |
| `Tunnels.AtMostCountHeld` | internal/pipeserver/tunnels.go:103-190 | the tunnels neither over nor asked to be replaced are never more than Count |
| `Tunnels.StoppingWindsDown` | internal/pipeserver/tunnels.go:103-190 | once stopping, a holder moves at most six times more, and one that dials has been dialing since before |
| `Tunnels.TunnelsAfterStopping` | internal/pipeserver/tunnels.go:103-190 | once stopping, no more tunnels come up than holders were then on their way to one |
| `Upstream.DecodableBodies` | internal/upstream/redact.go:169-234 | a body can be brought to plaintext exactly when it ends in time, whole, within both limits and in a coding the connector undoes; which bodies count as empty |
| `Upstream.Redact` | internal/upstream/redact.go:240-251 | structured rules of the set in force over JSON, then byte-level rules over what they left, of whatever set is in force by then; byte-level rules alone on anything else |
| `Upstream.Response.StripTraversalHeaders` | internal/upstream/redact.go:123-130 | exactly the headers in the X-Traversal- namespace, in any case, are gone |
| `Upstream.Response.ReplaceBody` | internal/upstream/redact.go:256-274 | the new body with its length, flag and validators, and no trailer |
| `Upstream.Response.Buffer` | internal/upstream/redact.go:169-215 | whatever update lands meanwhile, the body is carried, redacted by the two sets loaded, or refused for the first reason it gives; the upstream body is closed either way, and a refusal leaves the header alone |
| `Upstream.Response.PutBack` | internal/upstream/redact.go:196-215 | the redacted text is sent in the coding it came in, or refused if that fails |
| `Upstream.Response.Respond` | internal/upstream/redact.go:79-116 | a response of an uncovered host passes but for the namespace's headers; a covered one is refused, or carries the redaction by the sets its two loads find; no header of the namespace survives but the connector's own flag |
| `Upstream.FlagAndLength` | internal/upstream/redact.go:256-274 | the flag is sent exactly when some rule changed something; a non-empty body has its own Content-Length; no trailer and no range offer are sent |
| `Upstream.OnlyTheFlag` | internal/upstream/redact.go:123-130 | of the stripped namespace only the flag can be sent |
| `Upstream.ValidatorsDescribeTheBytes` | internal/upstream/redact.go:256-274 | a validator is kept only on the very bytes that came, and is kept then unless they were re-encoded |
| `Upstream.UnchangedTextIsSentAsItCame` | internal/upstream/redact.go:169-251 | a body in no coding that is not JSON and carries no flag is sent byte for byte |
| `Upstream.UnchangedJsonIsTheSameDocument` | internal/upstream/redact.go:169-251 | JSON without the flag is the same document, or the same text when no structured rule is in scope |
| `Upstream.ReceiverReadsTheRedaction` | internal/upstream/redact.go:169-215 | if inflate undoes deflate, a receiver that undoes the coding the header names reads the redacted text |
| `UpstreamMeaning.RefusedInOrder` | internal/upstream/redact.go:79-251 | a covered response is refused for its status or type, then as a part, then for want of a slot, then by what first goes wrong in reading its body, in that order and for nothing else |
| `UpstreamMeaning.AcceptedWasRedactable` | internal/upstream/redact.go:79-234 | an accepted covered response had a type of text, JSON, XML or one of the listed applications, no switch of protocols, part, event stream or gRPC, a slot, and a body whole, in time, in a known coding and within both limits |
| `UpstreamMeaning.RedactableIsAccepted` | internal/upstream/redact.go:79-251 | and such a response in no coding that is not JSON is accepted |
| `UpstreamMeaning.MalformedIsMalformed` | internal/upstream/redact.go:240-251 | a body is malformed only if it is JSON, a structured rule covers the host, and it does not decode or a chain of walks of it does not encode |
| `UpstreamMeaning.NotPutBack` | internal/upstream/redact.go:169-214 | a body is not put back only if it came deflated and what the rules make of it will not deflate |
| `UpstreamMeaning.TextTypeMeans` | internal/upstream/redact.go:298-309 | the types that are text: none, those that begin as text, those that are or end as JSON or XML, and five applications |
| `UpstreamMeaning.BinaryTypes` | internal/upstream/redact.go:298-309 | PDF, octet streams and PNG images are none of them |
| `UpstreamMeaning.NamespaceExactly` | internal/upstream/redact.go:123-130 | a header is in the connector's namespace exactly when its first twelve letters are the prefix, in any case |
| `UpstreamMeaning.EmptyIsSentAsItCame` | internal/upstream/redact.go:169-234 | a body empty on the wire or once inflated goes out as it came, with no flag |
| `UpstreamMeaning.TextIsRedacted` | internal/upstream/redact.go:169-274 | a body that is not JSON goes out, in its coding, as the last text of the chain of byte-level rules of the second load over its plaintext, with the flag in its header exactly when some link differs |
| `UpstreamMeaning.OneRuleOverText` | internal/upstream/redact.go:169-274 | with one covering byte-level rule and no coding, the body sent is that rule's replacement of the one that came |
| `UpstreamMeaning.JSONIsRedacted` | internal/upstream/redact.go:169-274 | a JSON body goes out, in its coding, as a chain of walks by the structured rules of the first load and then the chain of byte-level rules of the second, with the flag exactly when either changed it |
| `Slots.SlotsAreConserved` | internal/upstream/redact.go:104-165 | in every interleaving of responses and of goroutines closing bodies, the slots in use are the responses past acquire whose slot is not yet received back, never above capacity, and no receive ever blocks |
| `Slots.SendsAndReceives` | internal/upstream/redact.go:104-165 | the sends so far are exactly the responses that hold a slot or held one, and the receives so far exactly the responses that held one, one each |
| `Slots.EachSlotReturnedOnce` | internal/upstream/redact.go:157-165 | however often a body is closed, a receive gives back one response's slot, and that response never holds one again |
| `RemoteLoader.ParseConfig` | internal/redact/remote.go:33-69 | the rules, or the first thing wrong with the document |
| `RemoteLoader.RulesErrorMeans` | internal/redact/remote.go:45-67 | no rule is refused exactly when the rules are named, all differently, with patterns, and each of a kind its filters suit |
| `RemoteLoader.ParseAccepts` | internal/redact/remote.go:33-69 | a document is accepted exactly when it is within the size, of schema version 1, complete, and its rules acceptable |
| `RemoteLoader.Loader.Refresh` | internal/redact/remote.go:175-274 | one refresh takes the loader and the rules in force to the specified state, for every answer the server can give |
| `RemoteLoader.FailureChangesNothing` | internal/redact/remote.go:175-274 | a failed, unsigned or rolled-back refresh leaves rules, etag, hash, version, issue time and digest untouched; an unchanged one leaves the rules |
| `RemoteLoader.OnlyForward` | internal/redact/remote.go:221-241 | with signatures required, version and issue time never go back over any run |
| `RemoteLoader.AppliedVersionsIncrease` | internal/redact/remote.go:221-241 | configs that change the rules have strictly increasing versions and non-decreasing issue times |
| `RemoteLoader.OneVersionOneDocument` | internal/redact/remote.go:221-241 | as long as the version stands, over any run, so do the rules in force and the document, whatever is re-signed under it |
| `RemoteLoader.RefreshStands` | internal/redact/remote.go:175-274 | one refresh keeps the cached loader standing for a loader with no cache |
| `RemoteLoader.CachesChangeNothing` | internal/redact/remote.go:175-274 | over any run, under an injective hash, the rules in force are those of a loader that checks every object anew, and once loaded they compile from the last accepted document |
| `RemoteMeaning.CompiledMeans` | internal/redact/remote.go:33-69 | a document is taken exactly when it is within the size, decodes to rules under schema version 1, and the rules are named differently, have patterns, suit their kinds and compile; the rules are then its own decoded ones, as many and in order, each meaning what it says |
| `RemoteMeaning.AppliedExactly` | internal/redact/remote.go:175-274 | a refresh, signed or not, is applied exactly for a new answer, signed where that is required and of a newer version and no earlier issue, that holds an acceptable document |
| `RemoteMeaning.AppliedMeansTheDocument` | internal/redact/remote.go:175-274 | and the rules then in force are those the decoded document says, one for one |
| `RemoteMeaning.OtherOutcomes` | internal/redact/remote.go:175-274 | when a refresh is unchanged, unsigned, rolled back or an error |
| `RemoteMeaning.AcceptedIsRemembered` | internal/redact/remote.go:175-274 | an applied or unchanged answer's etag and hash are held, its claims with them if it is new and signed, and the next 304 is then unchanged if there is an etag |
| `RemoteMeaning.RulesInForceAreTheDocuments` | internal/redact/remote.go:175-274 | over any run, under an injective hash and once loaded, the rules in force are those the last accepted document says, one for one |
| `StreamConn.StepKeeps` | connector-lib/halfconn/streamconn.go:30-65 | every step keeps the invariant, forgets nothing recorded, and returns after a published failure only that failure |
| `StreamConn.EofMeansCleanEnd` | connector-lib/halfconn/streamconn.go:99-119 | a conn not closed locally reports the end only if the stream ended cleanly |
| `StreamConn.FirstFailureForGood` | connector-lib/halfconn/streamconn.go:99-119 | once a failure is published every later error from any Read or Write is that first failure |
| `StreamConn.EndIsSettledOnce` | connector-lib/halfconn/streamconn.go:30-65 | the end is aborted at most once and half-closed at most once, a settled failure has aborted it, the out pump has stopped only if it failed or half-closed once, and the in pump only if it closed the far end |
| `Preface.CheckValue` | connector-lib/rawpipe/rawpipe.go:147-154 | a value is allowed exactly when it is non-empty, printable, and holds no space or comma |
| `Preface.WritePreface` | connector-lib/rawpipe/rawpipe.go:62-86 | the one line of a Hello, exactly when its ID and values are valid and the line fits |
| `Preface.ParsePreface` | connector-lib/rawpipe/rawpipe.go:93-118 | the Hello a line says, or nothing for a line with the wrong head or a bad or repeated field |
| `Preface.Reader.ReadPreface` | connector-lib/rawpipe/rawpipe.go:127-143 | consumes one line and not a byte more, at most 512, and says how it failed |
| `Preface.ParseUndoesWrite` | connector-lib/rawpipe/rawpipe.go:62-118 | every written Hello parses back, with its newline or without |
| `Preface.ReadUndoesWrite` | connector-lib/rawpipe/rawpipe.go:62-143 | a written line followed by any bytes reads back and leaves exactly those bytes |
| `Preface.UnknownField` | connector-lib/rawpipe/rawpipe.go:93-118 | one more field of an unknown, unused key, among any others, changes no parse of them |
| `Preface.UnknownFieldIsIgnored` | connector-lib/rawpipe/rawpipe.go:93-118 | so a line with one inserted anywhere after the connector ID says what it said, be it accepted or refused |
| `PrefaceMeaning.ParseExactly` | connector-lib/rawpipe/rawpipe.go:93-118 | a line says a Hello exactly when it has the head, a connector ID and fields of different non-empty keys, and the Hello's roots and kids are the lists under those two keys, or none |
| `PrefaceMeaning.ValueExactly` | connector-lib/rawpipe/rawpipe.go:147-154 | a value is allowed exactly when it is not empty and all its characters are visible ASCII, none a comma |
| `PrefaceMeaning.ReadExactly` | connector-lib/rawpipe/rawpipe.go:127-143 | reading takes a line up to its newline if that comes within 512 bytes, and else 512 bytes, or all there are |
| `Hostname.GoodNameIsNoAddress` | connector-lib/internal/hostname/hostname.go:13-43 | no name accepted as a name parses as an IP address |
| `Hostname.CanonicalIsIdempotent` | connector-lib/internal/hostname/hostname.go:13-32 | the canonical spelling of any accepted host is accepted unchanged, and a name's is still a name |
| `Hostname.NameExactly` | connector-lib/internal/hostname/hostname.go:13-43 | what parses as no address is accepted exactly when, in lower case and without a last dot, it is labels of letters, digits, hyphens and underscores between dots within the lengths, the last of them not numeric |
| `Hostname.DecimalParses` | connector-lib/capability/host.go:27-38 | the decimal spelling of a number reads back as it |
| `Hostname.SplitUndoesJoin` | connector-lib/capability/host.go:27-38 | splitting undoes joining, with brackets or without, for a host that holds none |
| `Hostname.SplitAuthorityInvertsJoin` | connector-lib/capability/host.go:27-38 | an authority is accepted as (host, port) exactly when it is the joined form of that canonical host and that port from 1 to 65535 |
| `Hostname.AuthorityIsCanonical` | connector-lib/rawpipe/http.go:26-44 | the destination a request names is a canonical host and a usable port |
| `Hostname.AuthorityPort` | connector-lib/rawpipe/http.go:26-44 | a URL without a port names 80 for http, 443 for https, and nothing for any other scheme; one with a port names that port exactly, if it is usable and in its one decimal spelling |
| `Hostname.SameAuthorityIsSameDestination` | connector-lib/rawpipe/http.go:26-44 | comparing the rejoined authority with a pipe's is comparing host and port |
| `FoldedUnique.ScanOfValue` | connector-lib/jws/jws.go:214-240 | reading one value anywhere in a stream is refused exactly when an object in it, at any depth, repeats a folded key, and otherwise leaves the scan as it was but for one value read |
| `FoldedUnique.ScanOfMembers` | connector-lib/jws/jws.go:214-240 | the same for the members of an open object after any names already read |
| `FoldedUnique.FineEitherWay` | connector-lib/jws/jws.go:214-240 | checking keys one by one against those seen is checking all pairs |
| `FoldedUnique.Accepts` | connector-lib/jws/jws.go:214-240 | the loop with its stack of key sets accepts exactly the token streams the scan accepts |
| `FoldedUnique.DocumentAccepted` | connector-lib/jws/jws.go:214-240 | the token stream of a document is accepted exactly when no object in it has two keys that fold to one |
| `FoldedUnique.FoldedUnique` | connector-lib/jws/jws.go:214-240 | the loop's answer is the recursive definition on the tree |
| `FoldedUnique.DecodeSegment` | connector-lib/jws/jws.go:186-209 | a segment passes exactly when it is an object or null, no key repeats up to case anywhere in it, every required key is given and not null, no key is unknown where that is refused, and it has the claims' types |
| `DialPolicy.ExtractUndoesEmbed` | connector-lib/dialpolicy/dialpolicy.go:46-61 | for each of the four IPv6 forms and any free bits, the embedded IPv4 address is recognised and extracted |
| `DialPolicy.EmbedUndoesExtract` | connector-lib/dialpolicy/dialpolicy.go:46-61 | every address under a form's prefix is the embedding of the address extracted from it |
| `DialPolicy.MaskedHoldsTheSame` | connector-lib/dialpolicy/dialpolicy.go:88-119 | masking a configured prefix changes nothing about which addresses it denies |
| `DialPolicy.ContainsExactly` | connector-lib/dialpolicy/dialpolicy.go:170-186 | a prefix holds an address exactly when the two agree in each of its leading bits |
| `DialPolicy.FloorExactly` | connector-lib/dialpolicy/dialpolicy.go:30-42 | byte by byte, exactly which IPv4 and IPv6 addresses the built-in floor denies |
| `DialPolicy.New` | connector-lib/dialpolicy/dialpolicy.go:88-119 | a policy denies exactly the built-in floor, the configured prefixes and the host's own addresses; an unusable prefix or an unlistable host yields none |
| `DialPolicy.CheckedIsForbidden` | connector-lib/dialpolicy/dialpolicy.go:170-186 | checking the list of an address and what it carries is checking the address and every IPv4 address it carries |
| `DialPolicy.CheckForbidden` | connector-lib/dialpolicy/dialpolicy.go:170-186 | forbidden exactly when the address, unmapped, or an IPv4 address it carries, is denied |
| `DialPolicy.DeniedInEveryForm` | connector-lib/dialpolicy/dialpolicy.go:46-61 | a denied IPv4 address is forbidden as itself, IPv4-mapped, and in its NAT64, 6to4 and Teredo forms whatever their free bits |
| `DialPolicy.ForbiddenExactly` | connector-lib/dialpolicy/dialpolicy.go:44-61 | an address is forbidden exactly when it is denied, as IPv4 if it is IPv4-mapped, or its bytes carry a denied IPv4 address where one of the four forms keeps it |
| `DialPolicy.LoopbackInEachForm` | connector-lib/dialpolicy/dialpolicy.go:46-61 | the loopback address spelled out in its four IPv6 forms, each forbidden |
| `DialPolicy.Dial` | connector-lib/dialpolicy/dialpolicy.go:122-168 | the addresses dialed are the literal, or the first eight of those resolved, all of them, if none of them and not the name is forbidden, and otherwise none; which connection is kept, or exactly why there is none |
| `DialPolicy.Race` | connector-lib/dialpolicy/dialpolicy.go:198-232 | every address is dialed, the first connection made is kept and every other closed, and none is kept only if none was made |
| `DialPolicy.NamesAndCandidates` | connector-lib/dialpolicy/dialpolicy.go:122-194 | the names that are forbidden, localhost and below and three of metadata, and that what is tried is the first eight resolved addresses or all there are |

## Left out

- RedactWalk.RedactValueForRule: an array is a value sequence updated index by index, so that the caller's slice is overwritten too, and shared with the result, is not captured.
- OpenLimiter.Verifier.Verify: a token's signature, its chain and its exact JSON are one input, the claims they yielded if any; seconds and nanoseconds are unbounded, so overflow in `time.Unix` is not modelled.
- PipeServer.TunnelsCloseDrainedOrLate: says when the tunnels may close, not that they do: the grace period's end and the pipes' ends are steps that may never be taken.
- PipeServer.AdmittedIsEntitled: whether a request is well formed and what its capability verifies to are fixed when it comes; the verifier itself is `OpenLimiter`.
- PipeServer.CheckedWhileDrainingIsRefused: every refusal between `open`'s first check and its Add (the capability's own reason, a probe on another port) is one reason, BadCapability.
- StreamConn.EofMeansCleanEnd: the bytes and the `in` and `out` counts of the two pumps are not modelled, only how they end; net.Pipe is its documented answers.
- Tunnels.StoppingWindsDown: says how many moves are left, not that they are taken; ServeConn's once-only call for a replacement is a flag.
- Upstream.Response.Respond: `capStream` of an uncovered response and refusal accounting are not modelled; whether the host is covered is an input, being a load made when the request began; the slot wait's own steps are in `Slots`.
- DialPolicy.Dial: dials through a proxy, and which error joins which, are not modelled; the lookup's answer and what dialing comes to are inputs.
- Cryptography, x509 chains, base64 and DER.
- Regular expressions, IDNA, gzip, TOML and JSON text, which are arbitrary functions here.
- Telemetry, logging, metrics and audit lines.
- Real sockets, TLS, HTTP/2 and its limit arithmetic, `http.Server`, `ReverseProxy`.
- `FileLoader`, the loader's polling loop and backoff, the redial backoff's delays.
- `classifyContentCoding`, request and response header filters, reason and status tables, which are tables or one-line conditions.
- Liveness that depends on the peer or on fair scheduling.
