# A verified model of a sealed-bid task market and its checkpoint protocol

The repository runs two programs. The *matcher* opens a bidding window for every intent, collects bids, closes the
window, ranks the bids, assigns the winner, and copes with rejections and failed submissions. The *validators* turn
execution reports into a chain of checkpoints: a leader proposes a header through Raft, every validator signs the
committed header, signatures travel by gossip, and the leader finalizes once a quorum has signed. This project models
both, with the code they stand on: canonical hashing, Merkle roots, signer bitmaps, two signature-collecting machines,
two header stores, the chain manager, the on-chain verification cache and the peer-list parser.

How it is built:

- Protocols (matcher, checkpoint node, epoch signatures, cache) are state machines. A `State` datatype, one step
  function per lock-held region, `Enabled`/`Step`/`Exec` for runs. Whatever the environment decides (times,
  leadership, fresh assignment ids, outcomes of submissions, results of signing, order of map iteration) is a parameter
  of an event, so a theorem about every run is a theorem about every interleaving.
- Objects that the source updates in place are classes. Each method is proved to do exactly one step of the state
  machine, and to keep the invariant that the theorems are about; loops are loops.
- The hash is a parameter. "No collisions" is a hypothesis over the finite set of byte strings that a statement
  hashes, never an axiom. Signing and verifying are uninterpreted, and nothing assumes that verification accepts what
  signing produced.
- Specification functions are tied down from outside as well: a second statement, which does not use them, says what
  they come to (`HeaderBytes`, `MatcherMeaning`, `CheckpointTheorems.SignedOverTheirHeader`, `Merkle.RootOfParents`,
  `IntentSelection.SelectionIsOldestFirst` and others).
- Go map iteration is an arbitrary choice of the next key. Bids are pointers in the source; here they live in an
  append-only arena and are named by position, so a status change is visible through every list that holds the bid.

| file | subject |
|---|---|
| `ByteStrings.dfy`, `Sets.dfy`, `Sequences.dfy`, `Sorting.dfy` | byte strings, lexicographic order, big-endian and hex codecs; set sizes; common suffixes; what a library sort promises |
| `Validators.dfy` | validator sets, thresholds by count and weight, quorum intersection |
| `Bitmaps.dfy`, `SignerBitmap.dfy`, `Collectors.dfy` | bit operations, bitmap plus ordered signatures, the two collecting machines |
| `Hashing.dfy`, `HeaderBytes.dfy`, `Merkle.dfy`, `MerkleLengths.dfy` | header and signature encodings, an independent reader of their bytes, Merkle roots, the lengths a root can tell apart |
| `Stores.dfy`, `Chain.dfy`, `StoreAgreement.dfy` | the two header stores, the chain manager, one chain saved to both stores |
| `Matcher.dfy`, `MatcherInvariants.dfy`, `MatcherTheorems.dfy`, `MatcherHistory.dfy`, `MatcherStuck.dfy`, `MatcherRuns.dfy`, `MatcherUnlocked.dfy`, `MatcherServer.dfy`, `MatcherMeaning.dfy` | the matcher: steps, invariant, theorems over runs, intents left behind, particular runs, the unlocked call, the server object, its steps in plain terms |
| `CheckpointProtocol.dfy`, `CheckpointTheorems.dfy`, `CheckpointResets.dfy`, `CheckpointNode.dfy` | the checkpoint protocol: steps and invariant, theorems over runs, resets and repeated launches, the node object |
| `EpochSignatures.dfy`, `IntentSelection.dfy` | epoch-level signatures with the submission flag; first-in-first-out selection |
| `VerifierCache.dfy`, `PeerList.dfy` | the verification cache; the peer-list printer and parser |

Findings, each stated by a lemma named here:

- A finalizer launched for a quorum may copy a newer header without one: a proposal or commit between launch and copy
  resets the signatures (a run: `CheckpointResets.QuorumLostInARun`). The copied pair is consistent all the same. It
  carries a quorum after such a reset exactly if the node, provided it signed the new header, and the validators whose
  good signatures arrived since together reach the threshold (`CheckpointResets.ResetBeforeCopy`).
- Every signature accepted past the threshold launches another finalizer for the same header. Launches per header are
  bounded by the other validators heard from plus the post-commit checks (`CheckpointResets.LaunchesPerHeader`); on a
  leading node their number is exact (`LaunchesPerHeaderExactly`), and there is a run of two (`LaunchedTwiceInARun`).
- "One submission per epoch" holds only between cleanups of that epoch: for every validator set there is a run in which
  a caller still waiting for the flag launches again after a cleanup, with an empty store
  (`EpochSignatures.WaitingCallerRelaunches`, `RelaunchNeedsCleanup`).
- Concatenated signatures are ambiguous as soon as two different lengths are admitted, zero included; a single length
  is exactly the condition under which the section determines the multiset and the bitmap (`Hashing.OneLengthIsExact`).
- A Merkle root does not tell lists of different lengths apart: for every hash and any two positive lengths there are
  two lists of 32-byte leaves with one root although nothing hashed collides. The root determines the leaves exactly if
  a single length is admitted, beside which only the empty list may be admitted, and only if the length is two or more
  (`MerkleLengths.OneLengthIsExact`). Inner nodes pass for leaves (`MerkleLengths.InnerNodesAsLeaves`), and an odd list
  of three or more leaves has the root of the list with its last leaf repeated (`Merkle.RepeatedLastLeaf`).
- Run on the same signatures, the two collecting machines report differently exactly when signers outside the set lift a
  count that members leave short (`Collectors.OutsidersDecideDisagreement`); for every set there is a sequence on which
  they do (`Collectors.StrangersSeparate`).
- The two stores list the same headers exactly for increasing epochs (`Stores.ListsAgree`, `RepeatedEpochSeparates`).
- The weighted and the count threshold agree for equal weights exactly if the set is not empty
  (`Validators.UniformWeightsAgree`).
- Raft starts a goroutine per committed checkpoint (internal/consensus/raft/raft_fsm.go:86), so handlers may run out of
  order. Replicas agree when the handlers ran in the same order (`CheckpointTheorems.ReplicasAgree`). If two handlers
  ran the other way round, with any commits before and after, epochs still agree; chains agree at the end exactly if the
  older header is refused anyway, or the newer one is refused before it and the later commits make up, in order, for
  what the other replica added (`CheckpointTheorems.ReplicasInOtherOrder`, `Chain.Recovers`). In the ordinary case, in
  which every header names its predecessor, the swapped replica stops at the older header and refuses everything built
  on the newer one (`CheckpointTheorems.SwappedReplicaStaysBehind`), until that one is offered again before others build
  on it (`Chain.RecoversWhenOffered`).
- A dropped intent forgets its bids even if it is added again, so a result ranks exactly the bids accepted since the
  intent was last registered (`MatcherTheorems.BidListedIffRegistered`). There is a run in which a dearer bid wins after
  a cheaper one was accepted in an earlier life of the intent (`MatcherRuns.DroppedBidsAreForgotten`).
- Not every intent is selected eventually. Whatever arrives, an intent is first selected in the first round k in which
  its rank and the newcomers that overtook it number less than 10 (k + 1), and never if there is no such round
  (`IntentSelection.SelectedExactlyIf`, `StarvesExactlyIf`). One whose reception time is unknown orders last and starves
  while ten timed ones arrive in every round (`UntimedCanStarve`).
- An intent can be left behind: registered, closed, and without a task or a reassignment. That is so exactly if it closed
  without bids or with a winner that has no chain address, or if a rejection found no bid, no eligible bid, or one
  without a chain address. It stays so for ever and cannot be added again (`MatcherStuck.StuckForever`).
- `tryAssignToRunnerUp` releases the lock before it calls `createAssignment` (internal/matcher/server.go:1370-1378),
  although failure handling demands it. `AtMostOneClaim` and `NeverTwoAssignments` are about `createAssignment` as one
  step. If another request comes between the pending entry and a failed submission, at most one claim is left exactly if
  the intent is gone by then or nothing but this assignment or an open window speaks for it
  (`MatcherUnlocked.LateFailureExactlyIf`); there is a run after which an intent has a confirmed task and an open window
  at once (`MatcherUnlocked.TwoClaimsInARun`).
- The comment in internal/consensus/threshold.go:5 says the threshold rounds down; internal/types/types.go rounds up,
  and so does the model.

## Model

| member | source | states |
|---|---|---|
| `MatcherTheorems.AtMostOneClaim` | internal/matcher/server.go:348-372 | in every reachable state an intent has at most one of open window, pending task, confirmed task, reassignment in flight, and only if it is registered |
| `MatcherTheorems.NeverTwoAssignments` | internal/matcher/server.go:465-588 | no interleaving gives an intent two live assignments, or one while its window is open |
| `MatcherUnlocked.LateFailureExactlyIf` | internal/matcher/server.go:1369-1378 | when other requests come between the pending entry and a failed submission, at most one claim per intent is kept exactly if the intent is gone or only this assignment or an open window speaks for it |
| `MatcherUnlocked.StillPendingIsSafe` | internal/matcher/server.go:1240-1271 | a failure of an assignment that is still pending is harmless whatever came between |
| `MatcherUnlocked.AcceptedThenFailed` | internal/matcher/server.go:898-905 | from every reachable state about to assign a runner-up, accepting the task before its submission fails leaves a confirmed task and an open window |
| `MatcherUnlocked.TwoClaimsInARun` | internal/matcher/server.go:1369-1378 | a run from the start that does so |
| `MatcherUnlocked.PendThenSettle` | internal/matcher/server.go:524-588 | with nothing between, the split steps are the one step of the model |
| `MatcherStuck.StuckForever` | internal/matcher/server.go:375-383 | over every run an intent is registered without any claim exactly if some event abandoned it, and stays so |
| `MatcherStuck.StuckExactlyIf` | internal/matcher/server.go:1329-1364 | one step leaves an intent behind exactly if it was or if the step closes it without bids or chain address, finds no bid or no eligible one, or assigns one without chain address |
| `MatcherTheorems.ResultsAreRanked` | internal/matcher/server.go:375-462 | a recorded result belongs to a closed registered intent; winner and two runner-ups head some price order of all its bids |
| `MatcherMeaning.ResultNamesTheBest` | internal/matcher/bid_strategy.go:45-69 | in every reachable state a result names the best three bids of its intent, or as many as there are: distinct, in ascending price, none of the others cheaper |
| `MatcherMeaning.TwoRunnerUps` | internal/matcher/bid_strategy.go:61-67 | a result names two runner-ups, or all other bids if there are fewer |
| `MatcherTheorems.NoResultWithoutClosedIntent` | internal/matcher/server.go:1291-1310 | re-opening or dropping an intent leaves no result |
| `MatcherTheorems.WinnerBeatsEveryAcceptedBid` | internal/matcher/server.go:733-765 | no bid accepted since the intent was registered is cheaper than the winner named by its result |
| `MatcherTheorems.BidListedIffRegistered` | internal/matcher/server.go:1306-1310 | an accepted bid is still ranked exactly if its intent has been registered ever since |
| `MatcherRuns.DroppedBidsAreForgotten` | internal/matcher/server.go:1240-1310 | for any two prices a run from the start in which the intent expires after the cheap bid, is added again, and the dear bid is the recorded winner |
| `MatcherTheorems.BidsStay` | internal/matcher/server.go:733-765 | no step removes or alters an accepted bid of an intent that stays registered, except for its status |
| `MatcherTheorems.ReassignmentsBounded` | internal/matcher/server.go:1329-1379 | over any run, reassignments of an intent plus its bids still submitted never exceed its bids |
| `MatcherTheorems.StepCounts` | internal/matcher/server.go:1369-1373 | each marked runner-up takes one off the submitted bids and no step puts one back |
| `MatcherTheorems.RunnerUpIsCheapestEligible` | internal/matcher/server.go:1340-1373 | a bid marked as runner-up is still the cheapest eligible one, not from the agent that rejected, whatever ran since it was chosen |
| `MatcherTheorems.MarkedBidIsEligible` | internal/matcher/server.go:1340-1373 | choice and marking are separate steps, yet the marked bid is the best eligible bid of its intent at marking time |
| `MatcherInvariants.RunsKeepInv` | internal/matcher/server.go:290-588 | the invariant tying the seven maps together holds after every possible sequence of events |
| `MatcherInvariants.StepKeepsExclusive` | internal/matcher/server.go:876-927 | every step moves the single claim on an intent and never duplicates it |
| `MatcherInvariants.StepKeepsRest` | internal/matcher/server.go:1240-1316 | every step keeps keys, bid lists, rankings and what reassignments in flight rely on |
| `MatcherInvariants.FailedLeavesNothing` | internal/matcher/server.go:1240-1316 | an assignment whose submission fails leaves only a re-opened window or a dropped intent |
| `MatcherInvariants.CreateKeepsExclusive` | internal/matcher/server.go:465-588 | creating an assignment for an unclaimed intent leaves at most one claim, delivered or not |
| `MatcherHistory.AssignmentsCarryOutBids` | internal/matcher/server.go:478-530 | every live assignment names bid, chain address and agent of one accepted bid for its own intent |
| `MatcherHistory.WindowsStayOpen` | internal/matcher/server.go:310-316 | no window, first or re-opened, closes before it has been open for the configured time |
| `MatcherHistory.ClosingAssignsTheWinner` | internal/matcher/server.go:438-455 | helper, one unfolding: the first task goes to the winner that the result records |
| `MatcherHistory.FailureReopensOrDrops` | internal/matcher/server.go:1240-1310 | helper, one unfolding: a failed assignment re-opens the window with its bids kept, or drops an expired intent entirely |
| `MatcherHistory.RunsKeepHistory` | internal/matcher/server.go:290-588 | over every run assignments stay traceable to bids and windows stay well timed |
| `Matcher.NextBest` | internal/matcher/server.go:1340-1352 | the scan yields a cheapest eligible bid, or nothing exactly if none is eligible |
| `MatcherMeaning.ChoiceExactly` | internal/matcher/server.go:1340-1352 | a cheapest bid still submitted and not by the agent that rejected, nothing exactly if there is none |
| `MatcherMeaning.FirstOfTheCheapest` | internal/matcher/server.go:1348-1351 | among equal prices the first in the list |
| `MatcherMeaning.AddExactly` | internal/matcher/server.go:290-322 | exactly which intents are registered, and with which window |
| `MatcherMeaning.ExpiredExactly` | internal/matcher/server.go:1274-1288 | a positive expiration or deadline that has come |
| `MatcherMeaning.BidExactly` | internal/matcher/server.go:734-757 | exactly which bids are taken, at the end of the list |
| `MatcherMeaning.SweepExactly` | internal/matcher/server.go:354-362 | exactly which windows a sweep closes |
| `MatcherMeaning.CreateExactly` | internal/matcher/server.go:465-588 | what becomes of an assignment for each outcome of the two submissions: either failing alone leaves nothing pending and the window open again or the intent gone |
| `MatcherMeaning.RespondExactly` | internal/matcher/server.go:889-926 | what an answer to a task changes; the agent passed over is the one that answered |
| `MatcherMeaning.MarkExactly` | internal/matcher/server.go:1370-1371 | one bid becomes a winner, no other changes |
| `MatcherServer.SelectWinner` | internal/matcher/bid_strategy.go:45-69 | nothing for no bids; else the head of an ascending rearrangement as winner, cheapest of all, and the next two, or as many as there are, as runner-ups |
| `MatcherServer.Server.constructor` | internal/matcher/server.go:102-218 | a new server is in the initial state |
| `MatcherServer.Server.AddIntent` | internal/matcher/server.go:290-330 | the step for a new intent; refused exactly for an empty or known id, ignored when expired |
| `MatcherServer.Server.ProcessSingleBid` | internal/matcher/server.go:696-765 | the step for a bid; accepted exactly if verified and the window exists and is open |
| `MatcherServer.Server.ResetIntentWindowLocked` | internal/matcher/server.go:1291-1303 | re-opens the window from now on and removes the result |
| `MatcherServer.Server.DropIntentLocked` | internal/matcher/server.go:1306-1310 | removes window, bids and result |
| `MatcherServer.Server.HandleAssignmentFailureLocked` | internal/matcher/server.go:1240-1271 | drops or re-opens, then clears the pending bookkeeping |
| `MatcherServer.Server.CreateAssignmentLocked` | internal/matcher/server.go:465-588 | pending first, chain then RootLayer, aborted if either fails |
| `MatcherServer.Server.PerformMatchingLocked` | internal/matcher/server.go:375-462 | ranks the bids, records the result and creates the assignment |
| `MatcherServer.Server.CloseOne` | internal/matcher/server.go:354-371 | closing one due window is one enabled step |
| `MatcherServer.Server.CheckAndCloseWindows` | internal/matcher/server.go:348-372 | a sweep in any order is a run that closes exactly the due windows, each once |
| `MatcherServer.Server.RespondToTask` | internal/matcher/server.go:876-927 | acceptance confirms the pending task, rejection starts a reassignment |
| `MatcherServer.Server.RunnerUpSnapshot` | internal/matcher/server.go:1329-1338 | takes the intent's bid list under the read lock |
| `MatcherServer.Server.FindNextBest` | internal/matcher/server.go:1340-1352 | the loop computes the best eligible bid |
| `MatcherServer.Server.RunnerUpChoose` | internal/matcher/server.go:1340-1364 | picks a cheapest eligible bid from the list taken, or ends |
| `MatcherServer.Server.RunnerUpMark` | internal/matcher/server.go:1369-1375 | marks the bid and finds its window, which is always there |
| `MatcherServer.Server.RunnerUpAssign` | internal/matcher/server.go:1375-1379 | hands the intent to a new assignment |
| `CheckpointTheorems.CollectedSignaturesCertified` | internal/validator/node.go:477-544 | over every run each collected signature is certified for the current header |
| `CheckpointTheorems.SignedOverTheirHeader` | internal/validator/handlers.go:629-664 | over every run, whatever message hash it claims, each signature held, launched with or copied is made by the node's own key, or accepted by the key of the validator of that id, over the hash of that very header |
| `CheckpointTheorems.GossipAddsExactlyIf` | internal/validator/node.go:485-544 | exactly which gossiped signatures are added: a member's, not empty, not held yet, for the claimed hash if one is claimed, accepted by the member's key over the current header's hash |
| `CheckpointTheorems.ThresholdExactly` | internal/validator/node.go:551-573 | reached exactly with num/den of the weight if there is any, else of the validators, and never by nobody |
| `CheckpointTheorems.LaunchNeedsQuorum` | internal/validator/node.go:551-581 | finalization is launched only when certified distinct set members carry the required weight, which is positive |
| `CheckpointTheorems.UnweightedLaunch` | internal/validator/node.go:564-573 | without weights the count decides, over members and the node itself |
| `CheckpointTheorems.CopiesAreConsistent` | internal/validator/node.go:685-708 | header and signatures copied by the asynchronous finalizer always belong together |
| `CheckpointTheorems.HistoryIsExact` | internal/validator/node.go:575-581 | every launch is copied once or still running, and records show the node as it was |
| `CheckpointTheorems.FirstSignatureKept` | internal/validator/node.go:533-544 | until the next reset the header stays and no signer's first signature is replaced |
| `CheckpointTheorems.QuorumHeldUntilReset` | internal/validator/node.go:685-708 | a finalizer that copies before a reset takes its own header with a quorum |
| `CheckpointResets.ResetBeforeCopy` | internal/validator/node.go:685-743 | after a reset and any further events the copy is of the new header; its signers are the node, if it signed, and those whose good signatures arrived since, and it has a quorum exactly if these reach the threshold |
| `CheckpointResets.SignersSince` | internal/validator/node.go:477-544 | until the next reset the signers held are those held before and those whose good signatures arrive |
| `CheckpointResets.QuorumLostInARun` | internal/validator/node.go:685-743 | for every node that is no quorum by itself, with any hash and keys, a run from the start with a launch, a reset and a copied pair without a quorum |
| `CheckpointResets.LaunchesPerHeader` | internal/validator/node.go:551-581 | launches for one header are at most one for each other validator heard from and one for each post-commit check |
| `CheckpointResets.LaunchesPerHeaderExactly` | internal/validator/node.go:551-581 | on a leading node the launches are exactly the checks and the new signers' good signatures at which the threshold is reached |
| `CheckpointResets.LaunchedTwiceInARun` | internal/validator/node.go:767-789 | for every node that is a quorum by itself a run in which one header is launched twice |
| `CheckpointTheorems.NoQuorumMissed` | internal/validator/node.go:767-789 | on a permanent leader a committed header with a quorum has had its finalizer launched once the post-commit checks are done |
| `CheckpointTheorems.LaunchesShareSigner` | internal/validator/node.go:551-581 | two launches on any two nodes share a certified member of positive weight when the threshold is a majority |
| `CheckpointTheorems.ChainFollowsCommits` | internal/validator/node.go:710-724 | chain and epoch are a function of the committed sequence, whatever else happens |
| `CheckpointTheorems.ReplicasAgree` | internal/validator/node.go:710-724 | replicas applying the same committed sequence have equal chains and epochs |
| `CheckpointTheorems.ReplicasInOtherOrder` | internal/consensus/raft/raft_fsm.go:85-87 | replicas on which two handlers ran the other way round, with any commits before and after, have equal epochs, and equal chains exactly if the older header is refused anyway, or the newer one is refused before it and the later commits make up for what it added |
| `CheckpointTheorems.SwappedReplicaStaysBehind` | internal/consensus/chain_manager.go:54-66 | where every header names its predecessor, the swapped replica ends at the older header while the other has everything |
| `CheckpointTheorems.OutOfOrderHandlersDiverge` | internal/consensus/raft/raft_fsm.go:85-87 | from every reachable state, a header and the one built on it give chains of different lengths in the two orders |
| `CheckpointTheorems.EpochIgnoresOrder` | internal/validator/node.go:721-723 | the next epoch does not depend on the order of the commits |
| `CheckpointTheorems.ReplicasSignTheSame` | internal/validator/node.go:710-737 | and make the same header current, so they sign one hash |
| `CheckpointTheorems.BuiltHeaderAccepted` | internal/validator/node.go:1301-1331 | a header built on the tip is accepted, with any signatures, if the chain has not moved |
| `CheckpointTheorems.StaleHeaderRefused` | internal/validator/node.go:1301-1331 | and refused once it has moved, unless the old tip and the new one collide |
| `CheckpointProtocol.RunsKeepInv` | internal/validator/node.go:477-793 | the invariant on signatures, launches, copies and chain holds after every run from a fresh start |
| `CheckpointProtocol.InstallKeepsInv` | internal/validator/node.go:1231-1275 | filling in the signature section keeps the signature good, since the signed hash leaves it out |
| `CheckpointProtocol.GossipKeepsInv` | internal/validator/node.go:477-581 | a gossiped signature never breaks certification and launches only with a quorum |
| `CheckpointProtocol.CommitKeepsInv` | internal/validator/node.go:710-754 | a commit, accepted or refused by the chain, keeps certification and epochs ahead of the tip |
| `CheckpointNode.SumWeights` | internal/types/types.go:280-286 | the loop computes the total weight |
| `CheckpointNode.ThresholdReached` | internal/validator/node.go:551-573 | weight decides if there is any, else the count |
| `CheckpointNode.Node.constructor` | internal/validator/node.go:287-317 | a new node on an empty chain is in the initial state |
| `CheckpointNode.Node.BuildCheckpointHeader` | internal/validator/node.go:1301-1331 | the header for the current epoch with the tip's hash as parent |
| `CheckpointNode.Node.InstallProposal` | internal/validator/node.go:1236-1269 | own signature only, bitmap and weight filled in, header current; nothing when signing fails |
| `CheckpointNode.Node.HandleCommittedCheckpoint` | internal/validator/node.go:710-754 | the commit step: chain, current header, epoch, reset, own signature |
| `CheckpointNode.Node.CheckAfterCommit` | internal/validator/node.go:767-789 | launches exactly if leading with enough signatures |
| `CheckpointNode.Node.VerifySignature` | internal/validator/handlers.go:629-664 | accepts exactly a set member's non-empty signature that its key verifies over the current header's hash, whatever message hash it names |
| `CheckpointNode.Node.Screen` | internal/validator/node.go:485-541 | all checks of a gossiped signature together |
| `CheckpointNode.Node.OnGossipSignatureReceived` | internal/validator/node.go:477-581 | the gossip step; says exactly when the signature is added and when a finalizer is launched |
| `CheckpointNode.Node.CopyForFinalization` | internal/validator/node.go:685-703 | hands out a consistent pair |
| `EpochSignatures.AtMostOneLaunch` | internal/validator/node.go:607-626 | launches of an epoch since its last cleanup number exactly one if the flag is up and none if it is down |
| `EpochSignatures.RelaunchNeedsCleanup` | internal/validator/node.go:607-626 | two launches of one epoch have a cleanup of it between them |
| `EpochSignatures.LaunchSawThreshold` | internal/validator/node.go:2888-2915 | each launch follows a store that left at least the required number of distinct addresses |
| `EpochSignatures.FirstSignatureWins` | internal/validator/node.go:3292-3332 | the store holds for each epoch and address the first signature delivered since the last cleanup, or nothing if none was |
| `EpochSignatures.StoredWasScreened` | internal/validator/node.go:591-596 | every stored entry was received by the node itself or with an address and a signature that are not empty |
| `EpochSignatures.CleanupExact` | internal/validator/node.go:3219-3264 | the step removes exactly the epochs below finalized minus three, from all three maps, by its definition |
| `EpochSignatures.WaitingCallerRelaunches` | internal/validator/node.go:2965-2987 | for every validator set a run in which an epoch is launched twice across a cleanup, the second time with an empty store |
| `EpochSignatures.DropOld` | internal/validator/node.go:3234-3258 | deleting while walking the keys in any order keeps exactly the recent epochs |
| `EpochSignatures.EpochStore.Store` | internal/validator/node.go:3292-3332 | the store step, its count, and exactly when it reports the threshold |
| `EpochSignatures.EpochStore.TriggerOnce` | internal/validator/node.go:608-626 | the test-and-set step; launches exactly if leading and the flag was down |
| `EpochSignatures.EpochStore.CleanupOldEpochData` | internal/validator/node.go:3219-3264 | the cleanup step |
| `IntentSelection.BeforeIsStrictTotalOrder` | internal/validator/node.go:2765-2782 | the comparison is a strict total order |
| `IntentSelection.SelectIntents` | internal/validator/node.go:2735-2794 | lists at most ten intents, oldest reception time first, unknown times last, ties by key; whatever is left out comes after all of them; the i-th has rank i |
| `IntentSelection.SelectionIsOldestFirst` | internal/validator/node.go:2765-2788 | rank order is order of reception time |
| `IntentSelection.SelectionUnique` | internal/validator/node.go:2744-2792 | the list does not depend on the order in which the map is walked |
| `IntentSelection.LeastSize` | internal/validator/node.go:2784-2788 | as many are selected as there can be |
| `IntentSelection.SelectedInItsRound` | internal/validator/node.go:2765-2788 | an intent of rank r is selected in round r/10 and no earlier, if arrivals order after it |
| `IntentSelection.RoundAdvances` | internal/validator/node.go:2784-2788 | a round moves a waiting intent ten ranks forward, less the newcomers that order before it |
| `IntentSelection.RankWhileWaiting` | internal/validator/node.go:2765-2788 | the rank of a waiting intent is its first rank plus those that overtook it, less ten a round |
| `IntentSelection.SelectedExactlyIf` | internal/validator/node.go:2765-2788 | whatever arrives, an intent is first selected in round k exactly if k is the first round with rank plus overtakers below 10 (k + 1) |
| `IntentSelection.StarvesExactlyIf` | internal/validator/node.go:2765-2788 | and never selected exactly if there is no such round |
| `IntentSelection.ArrivalsAreFresh` | internal/validator/node.go:2744-2760 | if no intent arrives twice, overtakers are counted from the arrivals alone |
| `IntentSelection.UntimedCanStarve` | internal/validator/node.go:2748-2752 | an intent without reception time is never selected while ten timed ones arrive each round |
| `SignerBitmap.CreateSignersBitmap` | internal/validator/node.go:1911-1940 | bit i is set exactly if validator i signed, whatever the map order |
| `SignerBitmap.ListSignatures` | internal/validator/node.go:1421-1435 | the ordered list and the signers' total weight |
| `SignerBitmap.CollectSignatures` | internal/validator/node.go:1412-1435 | bitmap, list, count and weight describe one signature map |
| `SignerBitmap.SignaturesRoundTrip` | internal/validator/node.go:1412-1435 | bits and list give back the signature map restricted to the set |
| `SignerBitmap.SetBitOwnsListEntry` | internal/validator/node.go:1425-1432 | the k-th set bit owns the k-th listed signature |
| `SignerBitmap.WeightIsOverSetBits` | internal/validator/node.go:1425-1435 | the total weight is the sum over the set bits |
| `Chain.ReplayIsLinked` | internal/consensus/chain_manager.go:40-83 | whatever is offered, accepted epochs strictly increase and parent links are exact |
| `Chain.ReplayOnlyGrows` | internal/consensus/chain_manager.go:40-83 | accepted checkpoints are never dropped or overwritten |
| `Chain.OfferExactly` | internal/consensus/chain_manager.go:44-70 | exactly which offers a chain takes; a missing parent is filled in and nothing else changes |
| `Chain.OrderMatters` | internal/consensus/chain_manager.go:45-66 | on every chain, two offers of different epochs commute exactly if the older one is refused anyway or the newer one is refused before and after it |
| `Chain.OrderMattersWithinEpoch` | internal/consensus/chain_manager.go:45-52 | two offers of one epoch commute exactly if one is refused or both extend the chain alike |
| `Chain.LinkedPairDoesNotCommute` | internal/consensus/chain_manager.go:54-66 | a header carrying its predecessor's hash is lost if it comes first |
| `Chain.SwapAndContinue` | internal/consensus/chain_manager.go:45-66 | the exact condition for equal chains after two swapped offers and any further ones |
| `Chain.RecoversExactly` | internal/consensus/chain_manager.go:45-66 | a chain that is a part of another ends equal exactly if it admits, in order, exactly the headers it is missing |
| `Chain.DivergedStay` | internal/consensus/chain_manager.go:40-83 | chains that differ at a position differ for ever |
| `Chain.StaysBehind` | internal/consensus/chain_manager.go:54-66 | a chain that missed one header refuses every header of a linked continuation, which the complete chain admits |
| `Chain.RecoversWhenOffered` | internal/consensus/chain_manager.go:54-66 | offering the missing header again before others build on it makes the chains equal |
| `Chain.EqualTipsShareHistory` | internal/consensus/chain_manager.go:118-130 | without collisions, equal tip hashes make one chain a suffix of the other up to preimages |
| `Chain.SharedEntry` | internal/consensus/chain_manager.go:118-130 | sharing the end means that every header agrees position by position |
| `Chain.SharedHistoryAgrees` | internal/crypto/checkpoint.go:26-64 | the shared part agrees on every canonical field |
| `Chain.ReloadedHeader` | internal/consensus/chain_manager.go:172-244 | storage loses exactly the signature count and all-empty roots |
| `Chain.StoredFields` | internal/consensus/chain_manager.go:172-203 | each field of the stored form is the header's own, binary ones as hexadecimal text |
| `Chain.ReloadKeepsHash` | internal/consensus/chain_manager.go:172-244 | and keeps the header hash, parent and epoch for every header |
| `Chain.ReloadedChainLinks` | internal/consensus/chain_manager.go:206-244 | a chain read back from storage links again |
| `Chain.ChainManager.constructor` | internal/consensus/chain_manager.go:26-37 | an empty chain over a store |
| `Chain.ChainManager.CheckContinuity` | internal/consensus/chain_manager.go:44-66 | the epoch and parent checks and the filled-in parent |
| `Chain.ChainManager.AddCheckpoint` | internal/consensus/chain_manager.go:40-83 | extends the log or changes nothing; a failed save does not undo the extension |
| `Chain.ChainManager.GetCheckpoint` | internal/consensus/chain_manager.go:86-108 | cache, then store, whose answer is cached without touching the chain |
| `Chain.ChainManager.GetLatest` | internal/consensus/chain_manager.go:111-141 | the tip and its epoch |
| `Hashing.DecodePreimage` | internal/crypto/checkpoint.go:26-64 | epoch, subnet id, timestamp, parent and roots can be recovered from the header bytes |
| `HeaderBytes.ReadPreimage` | internal/crypto/checkpoint.go:26-64 | a reader that checks version 1, cuts the subnet id by its length and reads the other fields by position gets every field back; parent and roots as they are if 32 bytes long, else 32 zeros |
| `HeaderBytes.VersionBytes` | internal/crypto/checkpoint.go:33-34 | the bytes start with 0, 0, 0, 1 |
| `HeaderBytes.EpochByte` | internal/crypto/checkpoint.go:36-37 | then the epoch, byte by byte, most significant first |
| `HeaderBytes.LengthByte` | internal/crypto/checkpoint.go:151-155 | then the length of the subnet id |
| `HeaderBytes.ReadSignatureSection` | internal/crypto/checkpoint.go:103-123 | a reader of the section gets the signatures in ascending order and the bitmap byte by byte, or none if it is nil |
| `HeaderBytes.HexDigits` | internal/consensus/chain_manager.go:172-203 | two lower-case digits for every byte, the high one first |
| `Hashing.PreimageDeterminesHeader` | internal/crypto/checkpoint.go:26-64 | equal bytes exactly for equal canonical fields |
| `Hashing.SectionIgnoresOrder` | internal/crypto/checkpoint.go:103-123 | permuting the signatures does not change the bytes |
| `Hashing.SectionDeterminesSignatures` | internal/crypto/checkpoint.go:103-123 | for one length, equal bytes exactly for equal multiset and bitmap |
| `Hashing.MixedLengthsCollide` | internal/crypto/checkpoint.go:108-117 | for any two positive lengths and any bitmap, two different lists with equal bytes |
| `Hashing.EmptyCollides` | internal/crypto/checkpoint.go:108-122 | empty signatures with a bitmap read like signatures of any other length without one |
| `Hashing.OneLengthIsExact` | internal/crypto/checkpoint.go:103-123 | the bytes determine multiset and bitmap exactly if a single length is admitted |
| `Hashing.SigningIgnoresSignatures` | internal/crypto/checkpoint.go:26-64 | helper, one unfolding: the signed hash does not depend on the signature section |
| `Hashing.HashState.Write` | internal/crypto/checkpoint.go:133-160 | appends to the bytes hashed so far |
| `Hashing.HashState.WriteFixed` | internal/crypto/checkpoint.go:162-167 | the bytes if there are exactly 32 of them, else 32 zero bytes |
| `Hashing.WriteHeader` | internal/crypto/checkpoint.go:26-64 | writing step by step hashes exactly the preimage, whose bytes are those of `HeaderBytes.ReadPreimage` |
| `Hashing.SortSignatures` | internal/crypto/checkpoint.go:170-182 | an ascending rearrangement of a copy |
| `Hashing.WriteSignatures` | internal/crypto/checkpoint.go:103-123 | writes exactly the signature section |
| `Hashing.WriteHeaderAndSignatures` | internal/crypto/checkpoint.go:68-84 | the hash that links headers: of the signed hash followed by the signature section |
| `Merkle.NextLevel` | internal/consensus/merkle.go:49-61 | each parent is the hash of its left and right child in this order, an odd last child standing on both sides |
| `Merkle.RootOfParents` | internal/consensus/merkle.go:49-63 | the root of two or more nodes is the root of their parents, whoever computes these |
| `Merkle.SmallRoots` | internal/consensus/merkle.go:41-64 | the roots of up to four nodes written out |
| `Merkle.ComputeRoot` | internal/consensus/merkle.go:41-64 | the recursive root is the one that `RootOfParents` and `SmallRoots` determine, on every list |
| `Merkle.ComputeMerkleRoot` | internal/crypto/checkpoint.go:196-225 | the iterative root is the same on every non-empty list, 32 zeros on the empty one |
| `Merkle.NewMerkleTree` | internal/consensus/merkle.go:15-33 | the tree over hashed data |
| `Merkle.RootBindsLeaves` | internal/consensus/merkle.go:41-64 | without collisions, equal roots over equally many 32-byte leaves mean equal leaves |
| `Merkle.TreeBindsData` | internal/consensus/merkle.go:15-33 | and equal data |
| `Merkle.RepeatedLastLeaf` | internal/consensus/merkle.go:56-60 | an odd list and the list with its last leaf repeated share a root |
| `MerkleLengths.InnerNodesAsLeaves` | internal/consensus/merkle.go:63 | the parents of a list of two or more, taken as leaves, have its root |
| `MerkleLengths.LengthsConfused` | internal/consensus/merkle.go:41-64 | for every hash, every leaf and any two positive lengths, repetitions of some leaf at the shorter length have the root of repetitions at the longer |
| `MerkleLengths.RepeatsConfused` | internal/consensus/merkle.go:41-64 | and for every hash there are such lists for which nothing hashed collides |
| `MerkleLengths.OneLengthIsExact` | internal/consensus/merkle.go:15-64 | for every hash the root determines 32-byte leaves exactly if one length is admitted, beside it at most the empty list if the length is two or more |
| `Bitmaps.SetBit` | internal/consensus/checkpoint.go:22-32 | sets exactly one bit, growing the bitmap when needed |
| `Bitmaps.BitMasks` | internal/consensus/checkpoint.go:35-41 | bit 8i + k is bit k of byte i, counted from the lowest |
| `Bitmaps.CountByte` | internal/consensus/checkpoint.go:46-52 | clearing the lowest set bit repeatedly counts the bits |
| `Bitmaps.CountBits` | internal/consensus/checkpoint.go:44-55 | the number of set bits |
| `Bitmaps.SameBitsSameBytes` | internal/consensus/checkpoint.go:35-41 | equal bits mean equal bytes up to trailing zeros |
| `Collectors.CollectBoth` | internal/consensus/state_machine.go:95-135 | run on any signatures, both machines hold the same member signers; one reports what members decide, the other what members and outsiders decide; bitmaps agree up to trailing zeros |
| `Collectors.OfferToBoth` | internal/consensus/fsm.go:69-87 | one signature, repeated or not, from a member or not, keeps both machines in step |
| `Collectors.OutsidersDecideDisagreement` | internal/consensus/state_machine.go:131-135 | in any run the reports after a signature differ exactly if members are short of the threshold and outsiders make up for it |
| `Collectors.MembersReportAlike` | internal/consensus/fsm.go:69-87 | while only members have signed, both report the threshold at the same step |
| `Collectors.StrangersSeparate` | internal/consensus/state_machine.go:95-135 | for every set a sequence after which only the map machine reports the threshold |
| `Collectors.RunRound` | internal/consensus/fsm.go:56-112 | a whole round: each machine ends finalized exactly if its last report says so, the bitmap machine idle exactly if short of it with the deadline passed |
| `Collectors.RoundsEndApart` | internal/consensus/state_machine.go:160-170 | exactly which rounds finalize only the map machine; none finalizes only the bitmap machine |
| `Collectors.Fsm.OnSignature` | internal/consensus/fsm.go:69-87 | adds the signer while collecting and reports count and threshold |
| `Collectors.StateMachine.ProposeHeader` | internal/consensus/state_machine.go:71-92 | a proposal is taken exactly when idle |
| `Collectors.StateMachine.AddSignature` | internal/consensus/state_machine.go:95-121 | records map entry and bit together |
| `Collectors.StateMachine.HasThreshold` | internal/consensus/state_machine.go:124-135 | the count of map entries against the threshold |
| `Stores.KeyOrderIsEpochOrder` | internal/storage/leveldb.go:38 | keys order lexicographically exactly as 64-bit epochs do, and differ for different epochs |
| `Stores.KeyText` | internal/storage/leveldb.go:38 | the key is the text cp:epoch: and twenty decimal digits |
| `Stores.ListsAgree` | internal/storage/leveldb.go:90-104 | both stores list the same headers exactly for increasing epochs |
| `Stores.LookupsAgree` | internal/storage/leveldb.go:57-69 | and answer every lookup alike |
| `Stores.DbHoldsLast` | internal/storage/leveldb.go:49-69 | whatever was saved, the database answers with the last header of the epoch |
| `Stores.LookupsAgreeExactlyIf` | internal/storage/store.go:101-107 | whatever was saved, both stores answer a lookup alike exactly if the first and the last header of the epoch are equal |
| `Stores.RepeatedEpochSeparates` | internal/storage/store.go:101-107 | saving an epoch twice makes the two stores answer differently |
| `StoreAgreement.RunBothStores` | internal/consensus/chain_manager.go:48-80 | whatever is offered to a chain and whichever saves go through, both stores give the same lookup, listing and latest header |
| `StoreAgreement.AskBoth` | internal/storage/store.go:101-120 | stores fed by one chain answer alike |
| `Stores.InMemory.SaveHeader` | internal/storage/store.go:96-99 | appends |
| `Stores.InMemory.GetHeader` | internal/storage/store.go:101-107 | the first header of the epoch |
| `Stores.LevelDb.SaveHeader` | internal/storage/leveldb.go:49-55 | puts the header under its key |
| `Stores.LevelDb.GetHeader` | internal/storage/leveldb.go:57-69 | the header under the epoch's key |
| `Stores.LevelDb.ListHeaders` | internal/storage/leveldb.go:90-104 | the headers in key order |
| `Stores.LevelDb.LoadLatestHeader` | internal/storage/leveldb.go:72-87 | the last header in key order, which is the last saved one for increasing epochs |
| `Validators.Validate` | internal/types/types.go:221-240 | accepts exactly large enough sets with distinct ids and a proper fraction |
| `Validators.IndexById` | internal/types/types.go:250-257 | the first position of an id, or -1 exactly if absent |
| `Validators.CheckWeightedThreshold` | internal/types/types.go:301-309 | any enumeration of the signers gives the weight of set members against the required weight |
| `Validators.RequiredSignaturesExact` | internal/types/types.go:260-277 | between one and N, and the least count that reaches the fraction |
| `Validators.CeilShareIsLeast` | internal/types/types.go:289-298 | the required share is the least number that reaches the fraction |
| `Validators.RequiredWeightExact` | internal/types/types.go:289-309 | the weight test holds exactly if the signers' weight is at least num/den of the total |
| `Validators.TotalIsOfAll` | internal/types/types.go:280-286 | the total weight is the weight of all members |
| `Validators.QuorumsIntersect` | internal/types/types.go:260-277 | two quorums share at least 2*required - N members, one or more under a majority |
| `Validators.WeightedQuorumsIntersect` | internal/types/types.go:289-309 | the same by weight, with a common signer of positive weight |
| `Validators.UniformWeightsAgree` | internal/types/types.go:289-309 | for equal positive weights both tests agree on members exactly if the set is not empty |
| `Validators.CountIsCardinality` | internal/types/types.go:221-240 | with distinct ids, counting validators is counting ids |
| `VerifierCache.RunIsGood` | internal/blockchain/verifier.go:150-217 | after every history the list is bounded, in order of last use, and repeats the contract's latest answers |
| `VerifierCache.HitIsRecentAnswer` | internal/blockchain/verifier.go:150-177 | a hit is the contract's latest answer for that key, given at most one time-to-live ago |
| `VerifierCache.HitExactlyIf` | internal/blockchain/verifier.go:150-177 | a lookup hits exactly if the key is cached and its latest answer is not older than the time-to-live |
| `VerifierCache.EvictsLeastRecent` | internal/blockchain/verifier.go:198-211 | only a full cache evicts, and it drops the key whose last use is oldest |
| `VerifierCache.KeptUntilCrowdedOut` | internal/blockchain/verifier.go:179-217 | a key stays until it is mentioned again or as many other keys as the cache holds were mentioned |
| `VerifierCache.MapMatchesList` | internal/blockchain/verifier.go:179-217 | map keys and list keys are the same set, no larger than the cache size |
| `VerifierCache.Verifier.constructor` | internal/blockchain/verifier.go:49-80 | an empty cache |
| `VerifierCache.Verifier.TryCache` | internal/blockchain/verifier.go:150-177 | hit moves to front, expired is removed, answer as the specification says |
| `VerifierCache.Verifier.UpdateCache` | internal/blockchain/verifier.go:179-202 | refresh in place or insert and evict |
| `VerifierCache.Verifier.EvictOldest` | internal/blockchain/verifier.go:204-211 | removes the back of the list |
| `VerifierCache.Verifier.RemoveElement` | internal/blockchain/verifier.go:213-217 | removes from list and map together |
| `VerifierCache.Verifier.Verify` | internal/blockchain/verifier.go:110-148 | cached answer, else the contract's, which is stored; failures use the fallback and store nothing |
| `PeerList.SplitString` | cmd/validator/main.go:662-677 | cuts at each leftmost separator |
| `PeerList.JoinSplit` | cmd/validator/main.go:662-677 | rejoining the pieces restores every string for every non-empty separator |
| `PeerList.SplitJoin` | cmd/validator/main.go:662-677 | parts without the separator character survive joining and splitting |
| `PeerList.TrimWhitespace` | cmd/validator/main.go:680-690 | the two index loops trim both ends |
| `PeerList.TrimExact` | cmd/validator/main.go:680-690 | the result has no outer space; exactly strings without outer space are unchanged |
| `PeerList.TrimCuts` | cmd/validator/main.go:680-690 | only blanks, tabs, newlines and carriage returns are cut off, all of them, at both ends |
| `PeerList.SplitAndTrim` | cmd/validator/main.go:650-659 | trimmed, non-empty pieces in order |
| `PeerList.ParseRaftPeers` | cmd/validator/main.go:575-600 | parses the list, skipping malformed pairs |
| `PeerList.ParseValidatorEndpoints` | cmd/validator/main.go:603-626 | the same peers as a map |
| `PeerList.EndpointsLastWins` | cmd/validator/main.go:609-622 | for a repeated id the last address wins |
| `PeerList.EndpointsRoundTrip` | cmd/validator/main.go:603-626 | well-formed peers with distinct ids come back from their rendering as exactly that map |
| `PeerList.BuildPeerString` | cmd/validator/main.go:231-240 | renders id:address pairs joined by commas |
| `PeerList.RoundTrip` | cmd/validator/main.go:575-600 | rendering and parsing gives a list back exactly if every peer is well-formed |
| `PeerList.ParseWellFormed` | cmd/validator/main.go:575-600 | whatever the text, parsed peers are well-formed |
| `PeerList.ParseIsStable` | cmd/validator/main.go:575-600 | rendering and re-parsing a parsed list changes nothing |

## Left out

- gRPC and HTTP servers, streams and channels, RootLayer and contract clients, command-line flags, configuration, logging, metrics: submissions appear as outcomes, times and leadership as parameters.
- ECDSA, SHA-256 and Keccak: uninterpreted; internal/crypto/signature.go writes 65-byte signatures and verifies ASN.1, so nothing here relies on verification accepting a signature made by the signer.
- 64-bit overflow of weights, epochs, prices and times: those integers are unbounded here; the encodings cut to 32 and 64 bits explicitly.
- Scheduling finer than a lock-held region: `buildCheckpointHeader` reads tip and epoch as one step; `createAssignment` is one step as the comment on failure handling demands, which the call from `tryAssignToRunnerUp` does not honour (`MatcherUnlocked` says what then holds); and the unlocked scan of a bid list in `tryAssignToRunnerUp` is one step.
- Which agent may answer a task: `RespondToTask` does not check that the responder is the assignee, and neither does the model; the agent that is passed over afterwards is the one that answered.
- The legacy round loop without Raft (`checkConsensusState`, `HandleProposal`, `HandleFinalized`) and CometBFT consensus, except its test-and-set of the submission flag, which is the case of a caller that always leads.
- Restart from stored signatures: `saveCheckpoint` stores signatures before they are reset, so the checkpoint theorems start from a fresh node.
- The legacy per-intent validation signatures, which launch without the flag.
- Membership of epoch-signature addresses: the source does not check it, so the distinct addresses counted need not be set members.
- JSON and protobuf codecs, `CanonicalHash` of internal/types, metadata bytes of the hasher, `ComputeSortedMerkleRoot`, state and event roots of reports.
- The older matcher path (`bidbook.go`, `matching_engine.go`, `assignment_manager.go`, `simple_task_manager.go`, `task_distributor.go`).
- `UpsertValidator`, `RemoveValidator`, `SortValidators`, `GetChainSegment`, `HasCheckpoint`, `GetProgress`, `IsTimedOut` and the other tables of the stores: they would add easy members only.
- Extraction of a bid's chain address from its metadata: a bid carries the address that the extraction yields.
- PeerList.SplitString: needs a non-empty separator, because the source's loop never advances on an empty one; its callers pass "," and ":".
- VerifierCache.Verifier.Verify: the contract call and the store of its answer happen at one time; a slow call would lengthen the bound by its duration.
- CheckpointTheorems.StaleHeaderRefused: excludes a collision between the hashes of the old and the new tip, and headers beyond 64-bit epochs.
