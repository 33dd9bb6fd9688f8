# Models of app-manager and the hard code it vendors

app-manager compares the instances of an application with the number desired and requests
starts and stops. Its tree vendors the store schema, store adapters, message protocol,
process groups and test libraries that it is built on. This project models the parts
whose correctness is least obvious and proves what they promise:

- **Bipartite matching** (`Graphs`, `Matching*`, `ConsistOf`): goraph's Hopcroft-Karp
  search behind gomega's `ConsistOf`, with its shared mark table, against functions on
  sets of edges. The result is never smaller than any matching, by way of Koenig's vertex
  cover. It need not be a matching: the search also starts from right nodes that are
  already matched. The theorem says exactly when it is one. A concrete graph shows
  `ConsistOf` accepting an input that it should refuse, another one that it may be right
  all the same, and when values that share a matcher share all their matchers, as with
  equality, it is always right.
- **Tasks** (`Task*`): claim, start, complete, resolve and convergence, each a read and a
  later compare-and-swap, interleaved in any way over one store; when a converger acts and on what; late deletions; then
  the operations as loops against a store whose answers may be lost.
- **Auctions** (`Auction*`): the start and stop auction protocols, one model for both, in
  which claims compare values and kicks compare indices, and expired claims are deleted
  by key.
- **Leases and watches** (`Lease`, `LeaseOwner`, `Watch`): nodes kept alive by renewal and
  who owns them, and the watch loop that resumes by index.
- **The in-memory store** (`FakeStore`, `FakeStoreLaws`): a heap tree updated in place,
  against a flat map of leaves and a set of directories, and the laws of the latter.
- **Import depth** (`Dependencies`): a bounded breadth-first search that extends a map
  while ranging over it.
- **NATS packets** (`Nats*`): printer and parser, as a stream round trip, and the format
  that they share.
- **Reconciliation** (`DeltaForce`, `Handler`, `Reconcile*`, `LRPConvergence`): the
  difference, the requests made from it, and the loop they close while the wanted number
  changes.
- **Process groups** (`Members`, `MembersLoop`, `MembersRestart`, `MembersStop`): the select
  loop of a restarting group with its goroutines and processes, when it stops, whom it
  starts again, and who hears of a stop.
- **Parallel specs** (`ParallelSpecs`): the split of a suite among nodes.

`Wrappers` and `Collections` hold what the others share.

Code that updates state step by step is modelled as methods, with loops and classes where
the source has them, and proved against functions; protocols are state machines whose
steps are those of the code. `dafny verify dfyconfig.toml` checks everything.

Where code and comments or names disagree, the model follows the code:

- `LargestMatching` can return a set of edges that is not a matching
  (`MatchingCounterexample`).
- `task_lifecycle.go` says that an executor whose claim fails may assume that someone else
  has the task. After a lost answer the claim has taken effect and still fails
  (`TaskBBS.ClaimFailsAlthoughDone`).
- `ResolveTask` and the convergers delete by key alone, whatever the key holds by then. A
  task or auction that was created anew in the meantime goes with it
  (`TaskRemoval.SecondConvergerRemovesPending`, `AuctionRemoval.SecondConvergerRemovesPending`);
  what was read is removed exactly if the key was not deleted in between. So the other
  task and auction theorems are about one lifetime of a key, from creation to deletion.
- `ClaimLRPStartAuction` does not look at the state of the auction that it claims; only
  the filter of the watch keeps a claimed one from being claimed again.
- A negative depth limit makes `NewDependencies` search one hop, like a limit of one.
- `Reconcile` never stops an instance at a negative index (unless the number desired is
  smaller still).
- A process group that is told to stop while a member is being restarted may register
  that member afterwards and, unless the exit of another member has the group signalled,
  never signals it (`MembersStop.OneIsLeftOut`).
- A stop requested while fewer instances were wanted takes effect although more are wanted
  by then, so an index that is wanted again can lose its only instance
  (`ReconcileLoop.GrowthUncovers`).

Where a property fails, the condition proved is necessary as well as sufficient; the one
exception is `ConsistOf`, where free starts are sufficient for being right and
`MatchingSufficient` shows them not to be necessary. Lease exclusion fails for any two
maintainers with the same value.

## Model

| member | source | states |
|---|---|---|
| Graphs.Free | Godeps/_workspace/src/github.com/onsi/gomega/matchers/support/goraph/edge/edge.go:12-20 | true exactly when no edge of the list touches the node |
| Graphs.Contains | Godeps/_workspace/src/github.com/onsi/gomega/matchers/support/goraph/edge/edge.go:22-30 | finds exactly the edges of the list |
| Graphs.FindByNodes | Godeps/_workspace/src/github.com/onsi/gomega/matchers/support/goraph/edge/edge.go:32-40 | an edge that joins the two nodes, or none if no edge does |
| Graphs.SymmetricDifference | Godeps/_workspace/src/github.com/onsi/gomega/matchers/support/goraph/edge/edge.go:42-61 | without repetitions, exactly the edges in the first list xor an odd number of times in the second |
| Graphs.SurvivorsOfDistinct | Godeps/_workspace/src/github.com/onsi/gomega/matchers/support/goraph/edge/edge.go:42-61 | toggling a repetition-free list is the symmetric difference of sets |
| Graphs.NewBipartiteGraph | Godeps/_workspace/src/github.com/onsi/gomega/matchers/support/goraph/bipartitegraph/bipartitegraph.go:15-41 | disjoint distinct ids on the two sides, an edge exactly between neighbours; fails exactly if some neighbour call fails, with an error of such a call |
| Matching.FindDisjointSLAPHelper | Godeps/_workspace/src/github.com/onsi/gomega/matchers/support/goraph/bipartitegraph/bipartitegraphmatching.go:51-89 | the search with its shared marks refines the search function: same path, same marks, cleared again on failure |
| Matching.CreateSLAPGuideLayers | Godeps/_workspace/src/github.com/onsi/gomega/matchers/support/goraph/bipartitegraph/bipartitegraphmatching.go:91-161 | the breadth-first loops build exactly the guide layers of the specification |
| Matching.MaximalDisjointSLAPCollection | Godeps/_workspace/src/github.com/onsi/gomega/matchers/support/goraph/bipartitegraph/bipartitegraphmatching.go:20-40 | returns the edges of exactly the paths of the phase |
| Matching.LargestMatching | Godeps/_workspace/src/github.com/onsi/gomega/matchers/support/goraph/bipartitegraph/bipartitegraphmatching.go:7-18 | terminates with a repetition-free list of at most |Left| edges that is no smaller than any matching; it is a matching if and only if every path of the run started in a free node |
| MatchingLayers.GuideLayersResult | Godeps/_workspace/src/github.com/onsi/gomega/matchers/support/goraph/bipartitegraph/bipartitegraphmatching.go:91-161 | guide layers are closed under the alternating steps; when there are none the marks left behind are stuck: no free right node is reachable |
| MatchingPaths.SearchSound | Godeps/_workspace/src/github.com/onsi/gomega/matchers/support/goraph/bipartitegraph/bipartitegraphmatching.go:51-89 | a path that is found descends through the layers along edges of the graph, avoiding the marked nodes, and marks exactly itself |
| MatchingPaths.SearchComplete | Godeps/_workspace/src/github.com/onsi/gomega/matchers/support/goraph/bipartitegraph/bipartitegraphmatching.go:51-89 | if any unmarked guide path leads down from the node, the search finds one |
| MatchingPaths.CollectResult | Godeps/_workspace/src/github.com/onsi/gomega/matchers/support/goraph/bipartitegraph/bipartitegraphmatching.go:26-39 | the collected paths are guide paths, pairwise disjoint, and every guide path meets one of them |
| MatchingAugment.GuidePathAlternates | Godeps/_workspace/src/github.com/onsi/gomega/matchers/support/goraph/bipartitegraph/bipartitegraphmatching.go:65-85 | every guide path alternates between edges outside and inside the matching |
| MatchingAugment.ToggleLeft | Godeps/_workspace/src/github.com/onsi/gomega/matchers/support/goraph/bipartitegraph/bipartitegraphmatching.go:11-13 | toggling a path keeps every left node to one edge and newly matches just its free left end |
| MatchingAugment.ToggleRight | Godeps/_workspace/src/github.com/onsi/gomega/matchers/support/goraph/bipartitegraph/bipartitegraphmatching.go:11-13 | toggling a path keeps every right node to one edge if and only if it did before and the path starts in a free node |
| MatchingAugment.ToggleAllResult | Godeps/_workspace/src/github.com/onsi/gomega/matchers/support/goraph/bipartitegraph/bipartitegraphmatching.go:11-13 | toggling all the disjoint paths of a phase: each stays a path while the others are toggled, and the right side stays a matching if and only if all starts are free |
| MatchingTheorems.PhaseResult | Godeps/_workspace/src/github.com/onsi/gomega/matchers/support/goraph/bipartitegraph/bipartitegraphmatching.go:20-40 | a phase finds no path exactly when there are no guide layers; its paths are node-disjoint, alternating and maximal |
| MatchingTheorems.PhaseProgress | Godeps/_workspace/src/github.com/onsi/gomega/matchers/support/goraph/bipartitegraph/bipartitegraphmatching.go:10-15 | one phase matches exactly as many more left nodes as it found paths and unmatches none; the right side stays a matching if and only if all starts are free |
| MatchingTheorems.RunResult | Godeps/_workspace/src/github.com/onsi/gomega/matchers/support/goraph/bipartitegraph/bipartitegraphmatching.go:7-18 | the result is a matching if and only if no phase took a matched start, and it always ends stuck |
| MatchingTheorems.CoverBounds | Godeps/_workspace/src/github.com/onsi/gomega/matchers/support/goraph/bipartitegraph/bipartitegraphmatching.go:7-18 | no matching is larger than a vertex cover |
| MatchingTheorems.CoverCovers | Godeps/_workspace/src/github.com/onsi/gomega/matchers/support/goraph/bipartitegraph/bipartitegraphmatching.go:153-155 | the marks of a stuck search give a vertex cover |
| MatchingTheorems.CoverSize | Godeps/_workspace/src/github.com/onsi/gomega/matchers/support/goraph/bipartitegraph/bipartitegraphmatching.go:153-155 | that cover is no larger than the edges found |
| MatchingTheorems.AtLeastAnyMatching | Godeps/_workspace/src/github.com/onsi/gomega/matchers/support/goraph/bipartitegraph/bipartitegraphmatching.go:7-18 | for every bipartite graph the result is at least as large as any matching, is backed by a cover no larger than itself, and has at most |Left| edges |
| MatchingTheorems.LargestIff | Godeps/_workspace/src/github.com/onsi/gomega/matchers/support/goraph/bipartitegraph/bipartitegraphmatching.go:26-39 | the result is a matching, and then a largest one, exactly when no path was started from a right node that was already matched |
| MatchingTheorems.PhasePathsAreShortest | Godeps/_workspace/src/github.com/onsi/gomega/matchers/support/goraph/bipartitegraph/bipartitegraphmatching.go:108-158 | every augmenting path takes at least as many steps as the paths of the phase |
| MatchingBlocks.BlocksStayFree | Godeps/_workspace/src/github.com/onsi/gomega/matchers/support/goraph/bipartitegraph/bipartitegraphmatching.go:26-39 | when left nodes that share a neighbour share all of them, no path is started from a matched node, and the result is a matching |
| ConsistOf.Match | Godeps/_workspace/src/github.com/onsi/gomega/matchers/consist_of.go:38-54 | a complete assignment is never missed; success leaves no value without a matcher, and is backed by a complete assignment when the starts stayed free; when values that share a matcher share all their matchers, success means exactly that the values can be assigned |
| ConsistOf.NeverMissed | Godeps/_workspace/src/github.com/onsi/gomega/matchers/consist_of.go:54 | whenever values can be assigned to matchers one to one, the run has as many edges as values |
| ConsistOf.SuccessBacked | Godeps/_workspace/src/github.com/onsi/gomega/matchers/consist_of.go:54 | a run with as many edges as values leaves no value unmatched, and yields an assignment if the starts stayed free, which is sufficient only |
| ConsistOf.DifunctionalStaysFree | Godeps/_workspace/src/github.com/onsi/gomega/matchers/consist_of.go:48-54 | the starts stay free whenever values that share a matcher share all their matchers, as they do for plain elements compared by equality |
| MatchingSufficient.RightAllTheSame | Godeps/_workspace/src/github.com/onsi/gomega/matchers/support/goraph/bipartitegraph/bipartitegraphmatching.go:28 | on three values and matchers a path is started from a matched node and the result is no matching, yet the values can be assigned and ConsistOf says so |
| MatchingCounterexample.NotAMatching | Godeps/_workspace/src/github.com/onsi/gomega/matchers/support/goraph/bipartitegraph/bipartitegraphmatching.go:28 | on a graph with five nodes a side the run ends with five edges, two at one right node, though no matching has five |
| MatchingCounterexample.AcceptsUnassignable | Godeps/_workspace/src/github.com/onsi/gomega/matchers/consist_of.go:54 | on that input ConsistOf succeeds although no value matches the last matcher |
| TaskModel.RewriteIsEdge | Godeps/_workspace/src/github.com/cloudfoundry-incubator/runtime-schema/bbs/task_bbs/task_lifecycle.go:33-137 | what claim, start, complete and resolving write is one lifecycle edge from what they read, with what the caller passed and the time of the call: nothing else of the task changes |
| TaskModel.AcceptedIff | Godeps/_workspace/src/github.com/cloudfoundry-incubator/runtime-schema/bbs/task_bbs/task_lifecycle.go:33-137 | a pending task can be claimed, a claimed one started by its claimant, a running one completed, a completed one resolved, and nothing else is accepted |
| TaskModel.ConvergedIsEdge | Godeps/_workspace/src/github.com/cloudfoundry-incubator/runtime-schema/bbs/task_bbs/convergence.go:57-107 | what a converger writes is one lifecycle edge from what it listed |
| TaskVerdicts.ActsIfDue | Godeps/_workspace/src/github.com/cloudfoundry-incubator/runtime-schema/bbs/task_bbs/convergence.go:57-107 | a converger acts on a task exactly if it is pending past its time to be claimed, or with an executor that is gone, or at rest in a state that it should have left; and makes of it what that calls for |
| TaskVerdicts.TreatedIff | Godeps/_workspace/src/github.com/cloudfoundry-incubator/runtime-schema/bbs/task_bbs/convergence.go:57-107 | edge by edge: when a task is completed, put back to pending or put back to completed, each if and only if |
| TaskSafety.StepKeepsInv | Godeps/_workspace/src/github.com/cloudfoundry-incubator/runtime-schema/bbs/task_bbs/task_lifecycle.go:33-173 | the invariant (chains of versions, flights that know what they read, unique indices) is kept by every step of every executor, stager and converger |
| TaskSafety.RunKeepsInv | Godeps/_workspace/src/github.com/cloudfoundry-incubator/runtime-schema/bbs/task_bbs/task_lifecycle.go:33-173 | it holds in every state of every interleaving |
| TaskSafety.VersionsFollow | Godeps/_workspace/src/github.com/cloudfoundry-incubator/runtime-schema/bbs/task_bbs/task_lifecycle.go:33-137 | in every reachable state each version was written by an operation that had read exactly the version before it, by one lifecycle edge: no update is lost |
| TaskSafety.OneCommitAVersion | Godeps/_workspace/src/github.com/cloudfoundry-incubator/runtime-schema/bbs/task_bbs/task_lifecycle.go:48-53 | of all operations that read the same version at most one commits, whatever is retried |
| TaskSafety.CompletedStaysFrozen | Godeps/_workspace/src/github.com/cloudfoundry-incubator/runtime-schema/bbs/task_bbs/convergence.go:97-105 | until its key is deleted, a completed task keeps every field but state and update time, and stays completed or resolving |
| TaskSafety.CompletedHasOutcome | Godeps/_workspace/src/github.com/cloudfoundry-incubator/runtime-schema/bbs/task_bbs/task_lifecycle.go:101-105 | the outcome of a completed or resolving task is one an executor reported, or that of a converger that found it past its time to be claimed, or its executor not among those alive |
| TaskSafety.ClaimedHasClaimant | Godeps/_workspace/src/github.com/cloudfoundry-incubator/runtime-schema/bbs/task_bbs/task_lifecycle.go:44-46 | a claimed task carries the executor of the latest successful claim |
| TaskSafety.RunningBelongsToClaimant | Godeps/_workspace/src/github.com/cloudfoundry-incubator/runtime-schema/bbs/task_bbs/task_lifecycle.go:59-84 | a running task carries the executor of the latest claim, and the container handle which that executor passed when starting it |
| TaskSafety.TimesStayMonotone | Godeps/_workspace/src/github.com/cloudfoundry-incubator/runtime-schema/bbs/task_bbs/task_lifecycle.go:15-137 | under a monotone clock the update time of a task never runs back and its creation time never changes |
| TaskSafety.ConvergedWhenDue | Godeps/_workspace/src/github.com/cloudfoundry-incubator/runtime-schema/bbs/task_bbs/convergence.go:57-107 | in every reachable state, what a converger wrote was due by the clock, executors and settings that it went by, and is what the task was to become |
| TaskSafety.WritesIfDue | Godeps/_workspace/src/github.com/cloudfoundry-incubator/runtime-schema/bbs/task_bbs/convergence.go:57-107 | a converger that lists a task can go on to write it if and only if it is due |
| TaskSafety.VersionsAreOfDesired | Godeps/_workspace/src/github.com/cloudfoundry-incubator/runtime-schema/bbs/task_bbs/task_lifecycle.go:15-28 | every version of a task belongs to a DesireTask that found its key free, with its guid, definition and time of creation; it began as desired, pending |
| TaskRemoval.RemovesWhatWasReadIff | Godeps/_workspace/src/github.com/cloudfoundry-incubator/runtime-schema/bbs/task_bbs/task_lifecycle.go:142-156 | a late deletion finds the task that was read if and only if the key was not deleted in between, and then with the outcome that was read; otherwise it removes only what was written since |
| TaskRemoval.RetryRemovesPending | Godeps/_workspace/src/github.com/cloudfoundry-incubator/runtime-schema/bbs/task_bbs/task_lifecycle.go:153-155 | from every state with a resolving task, a deletion whose answer is lost is tried again and removes the pending task desired in the meantime |
| TaskRemoval.SecondConvergerRemovesPending | Godeps/_workspace/src/github.com/cloudfoundry-incubator/runtime-schema/bbs/task_bbs/convergence.go:57-111 | from the start, two convergers list one unparsable value and the second deletion removes the pending task desired after the first |
| TaskBBS.TaskBBS.GetTask | Godeps/_workspace/src/github.com/cloudfoundry-incubator/runtime-schema/bbs/task_bbs/task_lifecycle.go:158-173 | retries until answered; finds exactly the parsable task at the key |
| TaskBBS.TaskBBS.Operate | Godeps/_workspace/src/github.com/cloudfoundry-incubator/runtime-schema/bbs/task_bbs/task_lifecycle.go:33-137 | with nobody else writing, the rewritten task is stored exactly once whatever answers are lost, and failure is reported if and only if the effect went unanswered |
| TaskBBS.ClaimFailsAlthoughDone | Godeps/_workspace/src/github.com/cloudfoundry-incubator/runtime-schema/bbs/task_bbs/task_lifecycle.go:48-53 | when the answer to the swap is lost, the claim of a pending task has taken effect and fails all the same |
| TaskBBS.TaskBBS.DesireTask | Godeps/_workspace/src/github.com/cloudfoundry-incubator/runtime-schema/bbs/task_bbs/task_lifecycle.go:15-28 | creates the task exactly if its key is free; reports failure if and only if the key was taken or the creation went unanswered |
| TaskBBS.TaskBBS.ResolveTask | Godeps/_workspace/src/github.com/cloudfoundry-incubator/runtime-schema/bbs/task_bbs/task_lifecycle.go:142-156 | checks the state that was read, then deletes whatever the key holds |
| TaskConvergence.BatchCompareAndSwapTasks | Godeps/_workspace/src/github.com/cloudfoundry-incubator/runtime-schema/bbs/task_bbs/convergence.go:128-150 | in any order, every scheduled swap writes the node it was scheduled from and no other |
| TaskConvergence.ConvergeTask | Godeps/_workspace/src/github.com/cloudfoundry-incubator/runtime-schema/bbs/task_bbs/convergence.go:26-111 | exactly the unparsable nodes go; a task that is due and kept at its own key is written anew as what it is to become, with a new index and the time of the pass, and every other node stays as it is; together that is one pass over the stored values |
| TaskConvergence.ConvergedNodeIff | Godeps/_workspace/src/github.com/cloudfoundry-incubator/runtime-schema/bbs/task_bbs/convergence.go:72-107 | of the stored task alone: failed if and only if pending past its time to be claimed or held by an executor that is gone, pending again if and only if claimed and at rest with its executor alive, completed again if and only if resolving and at rest, rewritten with just a new time if and only if pending or completed and at rest, else untouched |
| TaskConvergence.SecondWrite | Godeps/_workspace/src/github.com/cloudfoundry-incubator/runtime-schema/bbs/task_bbs/convergence.go:80-89 | a pass writes a task that the previous pass has seen if and only if it was claimed, over age and past its time to be claimed, and then for the last time |
| TaskConvergence.TwoPassesSettle | Godeps/_workspace/src/github.com/cloudfoundry-incubator/runtime-schema/bbs/task_bbs/convergence.go:26-111 | with clock and executors standing still two passes reach a fixpoint from every store; one does exactly if no task is due for a second write |
| Stores.Store.CompareAndSwapByIndex | Godeps/_workspace/src/github.com/cloudfoundry/storeadapter/etcdstoreadapter/etcd_store_adapter.go:198-214 | takes effect exactly if the key holds that index and the request is not lost; the answer may be lost either way |
| Stores.Store.CompareAndSwap | Godeps/_workspace/src/github.com/cloudfoundry/storeadapter/etcdstoreadapter/etcd_store_adapter.go:180-196 | the same by value: it does not matter which version holds the value |
| Stores.Store.Create | Godeps/_workspace/src/github.com/cloudfoundry/storeadapter/etcdstoreadapter/etcd_store_adapter.go:158-167 | takes effect exactly if the key is free and the request is not lost |
| Stores.Store.Delete | Godeps/_workspace/src/github.com/cloudfoundry/storeadapter/etcdstoreadapter/etcd_store_adapter.go:216-238 | removes the key unconditionally unless the request is lost |
| AuctionSafety.StepKeepsInv | Godeps/_workspace/src/github.com/cloudfoundry-incubator/runtime-schema/bbs/start_auction_bbs/start_auction.go:11-46 | the invariant is kept by every step of requesters, claimants, resolvers and convergers |
| AuctionSafety.RunKeepsInv | Godeps/_workspace/src/github.com/cloudfoundry-incubator/runtime-schema/bbs/stop_auction_bbs/stop_auction.go:11-46 | it holds in every state of every interleaving, for start and stop auctions alike |
| AuctionSafety.OnePendingClaimInRuns | Godeps/_workspace/src/github.com/cloudfoundry-incubator/runtime-schema/bbs/start_auction_bbs/start_auction.go:23-39 | per created auction at most one claim of an auction seen pending takes effect, whatever is delayed or retried |
| AuctionSafety.PendingThenClaimed | Godeps/_workspace/src/github.com/cloudfoundry-incubator/runtime-schema/bbs/start_auction_bbs/lrp_start_auction_convergence.go:41-65 | a lifetime is pending with one unchanging value until it is claimed, and claimed ever after |
| AuctionSafety.KickIsInvisible | Godeps/_workspace/src/github.com/cloudfoundry-incubator/runtime-schema/bbs/start_auction_bbs/lrp_start_auction_convergence.go:73-94 | a kick changes no value, so it never turns a claimed auction pending and never makes a claim in flight fail |
| AuctionSafety.ClaimableUntilClaimed | Godeps/_workspace/src/github.com/cloudfoundry-incubator/runtime-schema/bbs/start_auction_bbs/start_auction.go:30-38 | while its key is not deleted, an auction seen pending can be claimed until somebody has claimed it |
| AuctionSafety.ClaimedIsClaimedAgain | Godeps/_workspace/src/github.com/cloudfoundry-incubator/runtime-schema/bbs/start_auction_bbs/start_auction.go:23-39 | without the watch filter of line 85 the guarantee is lost: from every state with a claimed auction, claiming it as seen takes effect again |
| AuctionSafety.VersionsAreOfRequested | Godeps/_workspace/src/github.com/cloudfoundry-incubator/runtime-schema/bbs/start_auction_bbs/start_auction.go:11-21 | every version of an auction belongs to a request that found its key free, and differs from what was requested in state and update time only; it began pending |
| AuctionRemoval.RemovesWhatWasListedIff | Godeps/_workspace/src/github.com/cloudfoundry-incubator/runtime-schema/bbs/start_auction_bbs/lrp_start_auction_convergence.go:28-71 | a late deletion finds the expired or unparsable auction that was listed if and only if the key was not deleted in between; otherwise it removes only what was written since |
| AuctionRemoval.SecondConvergerRemovesPending | Godeps/_workspace/src/github.com/cloudfoundry-incubator/runtime-schema/bbs/start_auction_bbs/lrp_start_auction_convergence.go:58-69 | from every state in which two convergers are to delete a key that is there, the second deletion can remove a pending auction requested after the first |
| AuctionRemoval.ExpiryWasRead | Godeps/_workspace/src/github.com/cloudfoundry-incubator/runtime-schema/bbs/start_auction_bbs/lrp_start_auction_convergence.go:56-64 | in every run a claim whose removal is in flight was listed more than the limit after its last update |
| AuctionRemoval.KickWasRead | Godeps/_workspace/src/github.com/cloudfoundry-incubator/runtime-schema/bbs/start_auction_bbs/lrp_start_auction_convergence.go:41-54 | in every run an auction whose kick is in flight was listed pending for more than the limit |
| AuctionRemoval.ListingDecides | Godeps/_workspace/src/github.com/cloudfoundry-incubator/runtime-schema/bbs/start_auction_bbs/lrp_start_auction_convergence.go:28-66 | a listed node is to be deleted if and only if it is unparsable or an expired claim, kicked if and only if pending for too long, else left |
| AuctionBBS.AuctionBBS.RequestAuction | Godeps/_workspace/src/github.com/cloudfoundry-incubator/runtime-schema/bbs/start_auction_bbs/start_auction.go:11-21 | stores the pending auction exactly if its key is free; failure if and only if the key was taken or the creation went unanswered |
| AuctionBBS.AuctionBBS.ClaimAuction | Godeps/_workspace/src/github.com/cloudfoundry-incubator/runtime-schema/bbs/start_auction_bbs/start_auction.go:23-39 | with nobody else writing the claim takes effect exactly if the store holds the auction as seen, and reports failure if its effect went unanswered |
| AuctionBBS.AuctionBBS.ResolveAuction | Godeps/_workspace/src/github.com/cloudfoundry-incubator/runtime-schema/bbs/start_auction_bbs/start_auction.go:41-46 | deletes the key whatever it holds |
| AuctionBBS.AuctionBBS.ConvergeAuctions | Godeps/_workspace/src/github.com/cloudfoundry-incubator/runtime-schema/bbs/start_auction_bbs/lrp_start_auction_convergence.go:18-71 | a node goes if and only if it is unparsable or a claim older than the limit; one that stays keeps its value and gets a new index if and only if it is an auction at its own key, pending for longer than the limit |
| Lease.Maintainer.OnTimer | Godeps/_workspace/src/github.com/cloudfoundry/storeadapter/etcdstoreadapter/etcd_store_adapter.go:429-492 | over any series of answers, which requests are made and when they end; the node is then owned if and only if the last answer was Ok; the owner is told of a loss exactly when one happens, and of the node exactly on a create and on the second renewal in a row |
| Lease.TickIsReactAll | Godeps/_workspace/src/github.com/cloudfoundry/storeadapter/etcdstoreadapter/etcd_store_adapter.go:429-492 | that determines the requests and the variables: they are those of the reaction function that the protocol uses |
| LeaseOwner.AnswerTells | Godeps/_workspace/src/github.com/cloudfoundry/storeadapter/etcdstoreadapter/etcd_store_adapter.go:431-491 | over a whole life of answers: owned if and only if the last answer was Ok; true is sent on a create and on every second renewal in a row, false when the ownership ends, and nothing else |
| LeaseOwner.LossIsTold | Godeps/_workspace/src/github.com/cloudfoundry/storeadapter/etcdstoreadapter/etcd_store_adapter.go:454-457 | who does not own the node was last told so, if anything |
| Lease.StepKeepsInv | Godeps/_workspace/src/github.com/cloudfoundry/storeadapter/etcdstoreadapter/etcd_store_adapter.go:417-504 | a grab holds the node for its time-to-live until released; kept by every step of every maintainer |
| Lease.LeaseExclusion | Godeps/_workspace/src/github.com/cloudfoundry/storeadapter/etcdstoreadapter/etcd_store_adapter.go:417-504 | with distinct values an effective create or renewal at store time t rules out any by another maintainer before t plus the time-to-live, unless the first released; owned implies created |
| LeaseOwner.OwnsIff | Godeps/_workspace/src/github.com/cloudfoundry/storeadapter/etcdstoreadapter/etcd_store_adapter.go:431-491 | in every run a maintainer takes itself for the owner if and only if its last request took effect and was answered |
| LeaseOwner.OwnersAreApart | Godeps/_workspace/src/github.com/cloudfoundry/storeadapter/etcdstoreadapter/etcd_store_adapter.go:417-504 | of two that take themselves for the owner and have not released, one has made its last request at least a time-to-live after the other |
| Lease.SharedValueShares | Godeps/_workspace/src/github.com/cloudfoundry/storeadapter/etcdstoreadapter/etcd_store_adapter.go:432-438 | distinct values are needed: any two maintainers with the same value can both hold the node at once |
| Watch.CursorFollows | Godeps/_workspace/src/github.com/cloudfoundry/storeadapter/etcdstoreadapter/etcd_store_adapter.go:284-309 | positions delivered increase strictly, and the resume index is one past the last delivery |
| Watch.DeliveredInOrder | Godeps/_workspace/src/github.com/cloudfoundry/storeadapter/etcdstoreadapter/etcd_store_adapter.go:306-307 | events come in strictly increasing index order, none twice, and without a reset in between none is left out |
| Watch.DispatchWatchEvents | Godeps/_workspace/src/github.com/cloudfoundry/storeadapter/etcdstoreadapter/etcd_store_adapter.go:284-309 | the loop delivers exactly the events found, in increasing order, and ends without an error when the user stops it, with one when the last reply is an error |
| Watch.Forward | Godeps/_workspace/src/github.com/cloudfoundry-incubator/runtime-schema/bbs/shared/bbs_helpers.go:64-88 | whatever channels the select takes, the output is, for some prefix of the events, what the filter makes of exactly those that pass, in order |
| FakeStore.ComponentsRoundTrip | Godeps/_workspace/src/github.com/cloudfoundry/storeadapter/fakestoreadapter/fakestoreadapter.go:311-319 | a path of proper components is what its key splits into |
| FakeStore.ComponentsOfJoined | Godeps/_workspace/src/github.com/cloudfoundry/storeadapter/fakestoreadapter/fakestoreadapter.go:311-319 | what comes before a slash and what comes after are split by themselves; a part without a slash is one component unless it is empty |
| FakeStore.FakeStoreAdapter.ViewWellFormed | Godeps/_workspace/src/github.com/cloudfoundry/storeadapter/fakestoreadapter/fakestoreadapter.go:76-79 | whatever a valid tree holds sits in directories up to the root, and nothing is both leaf and directory |
| FakeStore.FakeStoreAdapter.Get | Godeps/_workspace/src/github.com/cloudfoundry/storeadapter/fakestoreadapter/fakestoreadapter.go:181-201 | the walk finds exactly what the flat store holds |
| FakeStore.FakeStoreAdapter.SetNode | Godeps/_workspace/src/github.com/cloudfoundry/storeadapter/fakestoreadapter/fakestoreadapter.go:118-153 | the in-place walk refines one flat set; a refused set leaves every node of the tree in place |
| FakeStore.FakeStoreAdapter.SetMulti | Godeps/_workspace/src/github.com/cloudfoundry/storeadapter/fakestoreadapter/fakestoreadapter.go:115-156 | sets one after the other up to the first that is refused |
| FakeStore.FakeStoreAdapter.Create | Godeps/_workspace/src/github.com/cloudfoundry/storeadapter/fakestoreadapter/fakestoreadapter.go:158-172 | refused for an existing leaf, otherwise as a set |
| FakeStore.FakeStoreAdapter.Delete | Godeps/_workspace/src/github.com/cloudfoundry/storeadapter/fakestoreadapter/fakestoreadapter.go:252-280 | key by key removes exactly the subtree there, up to the first key that is not there |
| FakeStore.FakeStoreAdapter.ListRecursively | Godeps/_workspace/src/github.com/cloudfoundry/storeadapter/fakestoreadapter/fakestoreadapter.go:203-250 | the listing holds every leaf and every directory under the key once, and each directory lists exactly its own children, each by its own key |
| FakeStoreLaws.SetKeepsWellFormed | Godeps/_workspace/src/github.com/cloudfoundry/storeadapter/fakestoreadapter/fakestoreadapter.go:130-150 | a set keeps the store prefix-closed |
| FakeStoreLaws.DeleteKeepsWellFormed | Godeps/_workspace/src/github.com/cloudfoundry/storeadapter/fakestoreadapter/fakestoreadapter.go:275 | so does a delete |
| FakeStoreLaws.RefusedOnlyIfImpossible | Godeps/_workspace/src/github.com/cloudfoundry/storeadapter/fakestoreadapter/fakestoreadapter.go:131-141 | a set is refused exactly when no well-formed store could hold the new leaf beside the rest; otherwise it yields the least such store |
| FakeStoreLaws.GetAfterSet | Godeps/_workspace/src/github.com/cloudfoundry/storeadapter/fakestoreadapter/fakestoreadapter.go:130-150 | after a set the leaf is read back, its directories are directories, and all else reads as before |
| FakeStoreLaws.GetAfterDelete | Godeps/_workspace/src/github.com/cloudfoundry/storeadapter/fakestoreadapter/fakestoreadapter.go:275 | after a delete nothing is found at or below the key and all else reads as before |
| FakeStoreLaws.SetTwice | Godeps/_workspace/src/github.com/cloudfoundry/storeadapter/fakestoreadapter/fakestoreadapter.go:136 | the later of two sets of a key counts |
| FakeStoreLaws.DeleteUndoesSetIff | Godeps/_workspace/src/github.com/cloudfoundry/storeadapter/fakestoreadapter/fakestoreadapter.go:145-147 | a delete undoes the set of a new key if and only if its parent directory was already there |
| FakeStoreLaws.SetOneMore | Godeps/_workspace/src/github.com/cloudfoundry/storeadapter/fakestoreadapter/fakestoreadapter.go:115-156 | of several nodes one is set exactly if none before it was refused |
| FakeStoreLaws.GetAfterSets | Godeps/_workspace/src/github.com/cloudfoundry/storeadapter/fakestoreadapter/fakestoreadapter.go:115-156 | after several sets the last of a key is read back, everything above a key is a directory, and all else reads as before |
| FakeStoreLaws.DeleteOneMore | Godeps/_workspace/src/github.com/cloudfoundry/storeadapter/fakestoreadapter/fakestoreadapter.go:252-280 | of several keys one is deleted exactly if none before it was missing |
| FakeStoreLaws.GetAfterDeletes | Godeps/_workspace/src/github.com/cloudfoundry/storeadapter/fakestoreadapter/fakestoreadapter.go:252-280 | after several deletes nothing is found at or below any of the keys and all else reads as before |
| FakeStoreLaws.ListedKeyLeads | Godeps/_workspace/src/github.com/cloudfoundry/storeadapter/fakestoreadapter/fakestoreadapter.go:229-243 | the keys in a listing lead to what they are listed for |
| Dependencies.OneHopMore | Godeps/_workspace/src/github.com/onsi/ginkgo/ginkgo/watch/dependencies.go:57-63 | once the imports of all directories at a depth are in, the map is right for one hop more |
| Dependencies.NothingMore | Godeps/_workspace/src/github.com/onsi/ginkgo/ginkgo/watch/dependencies.go:31-33 | a depth that adds nothing leaves the map right for every later depth: the early break loses nothing |
| Dependencies.Dependencies.SeedWithDepsForPackageAtPath | Godeps/_workspace/src/github.com/onsi/ginkgo/ginkgo/watch/dependencies.go:43-55 | exactly the directories that any file of the package imports, without the package itself, at depth one |
| Dependencies.Dependencies.AddDepsForDepth | Godeps/_workspace/src/github.com/onsi/ginkgo/ginkgo/watch/dependencies.go:57-72 | extends a map that is right up to a depth to one that is right for one hop more, whatever entries the range visits as the map grows |
| Dependencies.NewDependencies | Godeps/_workspace/src/github.com/onsi/ginkgo/ginkgo/watch/dependencies.go:14-37 | besides possibly the root, exactly the directories reached in at most maxDepth hops, at their least number of hops; fails exactly if the package cannot be imported and maxDepth is not 0 |
| NatsParser.Reader.ReadWord | Godeps/_workspace/src/github.com/cloudfoundry/yagnats/parser.go:103-120 | the loop reads exactly the word ahead and its delimiter; fails only at the end of the stream |
| NatsParser.Reader.ReadNBytes | Godeps/_workspace/src/github.com/cloudfoundry/yagnats/parser.go:122-135 | whatever the sizes of the chunks, the payload is the bytes ahead |
| NatsParser.Reader.Parse | Godeps/_workspace/src/github.com/cloudfoundry/yagnats/parser.go:89-101 | consumes and returns what the specification of the byte stream says, for every header and every malformed line |
| NatsRoundTrip.MsgRoundTrip | Godeps/_workspace/src/github.com/cloudfoundry/yagnats/packets.go:127-143 | a printed message, with or without reply, parses back with its payload of any bytes |
| NatsRoundTrip.PacketRoundTrip | Godeps/_workspace/src/github.com/cloudfoundry/yagnats/parser.go:14-87 | parsing a printed packet returns it and consumes exactly its bytes |
| NatsRoundTrip.StreamRoundTrip | Godeps/_workspace/src/github.com/cloudfoundry/yagnats/parser.go:89-101 | any list of printed packets parses to that list and nothing is left |
| NatsRoundTrip.ParsedIsEncodable | Godeps/_workspace/src/github.com/cloudfoundry/yagnats/parser.go:33-87 | from any bytes at all, a parser returns only packets whose fields the printed form can carry |
| NatsRoundTrip.RoundTripIff | Godeps/_workspace/src/github.com/cloudfoundry/yagnats/packets.go:14-143 | a packet survives printing and parsing if and only if subject and INFO payload are non-empty without white space, the reply has none, the id is not negative, and an error text has no newline |
| NatsRoundTrip.ReparsedIsSame | Godeps/_workspace/src/github.com/cloudfoundry/yagnats/parser.go:89-101 | printing a parsed packet and parsing it again returns the same packet |
| NatsFormat.ValueOfNext | Godeps/_workspace/src/github.com/cloudfoundry/yagnats/parser.go:70-71 | numbers are decimal: one more digit multiplies by ten and adds its place |
| NatsFormat.ParsedNumber | Godeps/_workspace/src/github.com/cloudfoundry/yagnats/parser.go:70-71 | a number is read as its value, or as 2 to the 63 less one if it is larger |
| NatsFormat.PrintedNumber | Godeps/_workspace/src/github.com/cloudfoundry/yagnats/packets.go:127-143 | a number is printed in decimal digits without a zero in front |
| NatsFormat.MsgOnTheWire | Godeps/_workspace/src/github.com/cloudfoundry/yagnats/parser.go:60-87 | word by word: subject, id, reply if any, length, then that many bytes |
| NatsFormat.MsgPatternIff | Godeps/_workspace/src/github.com/cloudfoundry/yagnats/parser.go:63-68 | a MSG line is accepted if and only if it ends as it should and its last words are a subject, a number, possibly a reply and a number; with a reply where both readings are possible |
| NatsFormat.MsgIsLastWords | Godeps/_workspace/src/github.com/cloudfoundry/yagnats/parser.go:63-68 | whatever words come before them |
| NatsFormat.InfoIsLastWord | Godeps/_workspace/src/github.com/cloudfoundry/yagnats/parser.go:49-56 | an INFO line gives its last word, whatever comes before it |
| NatsFormat.InfoFailsIff | Godeps/_workspace/src/github.com/cloudfoundry/yagnats/parser.go:49-56 | it is refused if and only if it does not end as it should or has no word |
| NatsFormat.ErrPatternIff | Godeps/_workspace/src/github.com/cloudfoundry/yagnats/parser.go:36-43 | an error line is accepted if and only if a second quote is followed by white space and the end of the line alone; the message runs from the first quote to the last such one |
| DeltaForce.HasIndex | Godeps/_workspace/src/github.com/cloudfoundry-incubator/delta_force/delta_force/delta_force.go:20-28 | true exactly if some instance has the index |
| DeltaForce.NumAtIndex | Godeps/_workspace/src/github.com/cloudfoundry-incubator/delta_force/delta_force/delta_force.go:30-39 | the number of positions at which the index is listed |
| DeltaForce.Reconcile | Godeps/_workspace/src/github.com/cloudfoundry-incubator/delta_force/delta_force/delta_force.go:41-67 | the missing indices in ascending order and then nothing else; or the guids beyond and the doubled indices; empty if and only if there is exactly one instance at every wanted index and none beyond |
| DeltaForce.BeyondInOrder | Godeps/_workspace/src/github.com/cloudfoundry-incubator/delta_force/delta_force/delta_force.go:54-58 | there is one guid to stop for every instance beyond, in the order of the listing |
| Handler.ActualsForProcessGuid | handler/handler.go:181-196 | one instance per listed one, in order, and under every guid the last one listed |
| Handler.ProcessDesiredChange | handler/handler.go:82-179 | an application that is there no more, whatever its number was, gets only stops, as for no wanted instance; any other, whatever it was before, start requests for the missing indices in order up to the first that cannot be prepared, or a stop for every instance beyond and a stop auction for every doubled index; each start auction carries the guid drawn for it and the application preprocessed for it; none if the instances cannot be listed |
| Handler.StartsCarryDraws | handler/handler.go:104-136 | start auctions are for missing indices in ascending order, each with the guid of its draw and the preprocessed application; one that is lacking failed to draw or to preprocess |
| ReconcileRequests.DeletedIsStoppedIff | handler/handler.go:86-151 | for an application that is there no more the requests are the stops of all its instances at indices from zero on if and only if each is the last listed under its guid; so always with distinct guids |
| ReconcileRequests.AsDesiredMeansSettled | Godeps/_workspace/src/github.com/cloudfoundry-incubator/delta_force/delta_force/delta_force.go:14-16 | an empty result means exactly that the application is settled, but for instances at negative indices, which it overlooks |
| ReconcileRequests.StopsAreThoseBeyondIff | handler/handler.go:139-151 | the stop requests are those of exactly the instances beyond if and only if every one of these is the last listed under its guid |
| ReconcileRequests.StopGoesAstrayIff | handler/handler.go:144-150 | a stop goes to a wanted index if and only if the guid of an instance beyond is last listed at one |
| ReconcileRequests.StopsAreIssuedIff | handler/handler.go:138-178 | the requests of a covered application are those that its instances call for if and only if every instance beyond is the last listed under its guid |
| ReconcileRequests.StartsAreIssued | handler/handler.go:104-136 | the start requests are for missing indices only, and when nothing fails for each of them once |
| ReconcileLoop.CanLoseIff | handler/handler.go:82-178 | while the wanted number stays, an occupied wanted index can lose its last instance if and only if a stop is pending for an instance there or a run for a number not above the index has yet to list the instances, be the listings up to date or not |
| ReconcileLoop.LosesOnlyIfThreatened | handler/handler.go:82-178 | the same in every state of every run in which the wanted number changes at will, from distinct guids |
| ReconcileLoop.NeverUncovered | Godeps/_workspace/src/github.com/cloudfoundry-incubator/delta_force/delta_force/delta_force.go:50-52 | if the wanted number never grows, an index still wanted never loses its last instance, however late, lost, repeated or overlapping the requests of any number of handler runs are; from a start with distinct guids and nothing pending |
| ReconcileLoop.GrowthUncovers | handler/handler.go:82-96 | when the number grows from one to two while a stop is pending, the second index loses its only instance |
| ReconcileRounds.FillingRound | Godeps/_workspace/src/github.com/cloudfoundry-incubator/delta_force/delta_force/delta_force.go:44-52 | a round that finds indices missing fills each of them once and does nothing else, in any order of effects |
| ReconcileRounds.TrimmingRound | Godeps/_workspace/src/github.com/cloudfoundry-incubator/delta_force/delta_force/delta_force.go:54-64 | a round that finds all covered leaves one instance at each wanted index and, but for negative indices, none elsewhere |
| ReconcileRounds.TwoRoundsSettle | Godeps/_workspace/src/github.com/cloudfoundry-incubator/delta_force/delta_force/delta_force.go:41-67 | two rounds settle any number of distinct instances if and only if none is at an index below both zero and the wanted number |
| ReconcileRounds.SettledStays | Godeps/_workspace/src/github.com/cloudfoundry-incubator/delta_force/delta_force/delta_force.go:41-67 | a settled application gets no requests |
| ReconcileRounds.RoundExists | Godeps/_workspace/src/github.com/cloudfoundry-incubator/delta_force/delta_force/delta_force.go:41-67 | from every state of the instances there is a round, so the statements about rounds are about something |
| ReconcileRequests.SharedGuidStopsTheWrongOne | handler/handler.go:144-150 | with a guid used twice the stop may go to the only instance of a wanted index |
| LRPConvergence.PruneActualsWithMissingExecutors | Godeps/_workspace/src/github.com/cloudfoundry-incubator/runtime-schema/bbs/lrp_bbs/lrp_convergence.go:129-164 | groups exactly the instances of living executors by process, in order, and lists the keys of all others for deletion |
| LRPConvergence.DeadKeysHold | Godeps/_workspace/src/github.com/cloudfoundry-incubator/runtime-schema/bbs/lrp_bbs/lrp_convergence.go:145-160 | a key is given up if and only if it is that of a listed instance whose executor is not alive |
| LRPConvergence.NeedsReconciliation | Godeps/_workspace/src/github.com/cloudfoundry-incubator/runtime-schema/bbs/lrp_bbs/lrp_convergence.go:92-127 | true exactly if the instances are not as desired |
| LRPConvergence.InstancesToStop | Godeps/_workspace/src/github.com/cloudfoundry-incubator/runtime-schema/bbs/lrp_bbs/lrp_convergence.go:68-90 | stops exactly the instances of unknown processes, in whatever order the map is visited |
| LRPConvergence.KicksHold | Godeps/_workspace/src/github.com/cloudfoundry-incubator/runtime-schema/bbs/lrp_bbs/lrp_convergence.go:50-55 | an application is written back to be looked at again if and only if its live instances are off target |
| LRPConvergence.BadKeysHold | Godeps/_workspace/src/github.com/cloudfoundry-incubator/runtime-schema/bbs/lrp_bbs/lrp_convergence.go:36-45 | a desired key is removed if and only if its value does not parse |
| LRPConvergence.ConvergeLRPs | Godeps/_workspace/src/github.com/cloudfoundry-incubator/runtime-schema/bbs/lrp_bbs/lrp_convergence.go:18-66 | stops exactly the live instances of processes that no parsable desired application names, kicks exactly the applications that are off target, gives up exactly the instances of dead executors, and does less when listings fail |
| MembersLoop.Loop.Exited | Godeps/_workspace/src/github.com/tedsuo/ifrit/grouper/0.2/members.go:59-100 | every branch of the exit handling: what is counted, signalled, remembered as the error and started again, and when the group is to stop |
| MembersLoop.Run | Godeps/_workspace/src/github.com/tedsuo/ifrit/grouper/0.2/members.go:44-103 | over the messages of any run of the group the loop never panics, keeps its variables at those of the run, signals exactly the processes that the run has signalled, starts exactly the members that it launches, and returns if and only if nothing is left |
| Members.StepKeepsInv | Godeps/_workspace/src/github.com/tedsuo/ifrit/grouper/0.2/members.go:26-103 | the invariant of places, fates, signals, waiters and the count is kept by every step of loop, goroutines and processes |
| Members.NeverPanics | Godeps/_workspace/src/github.com/tedsuo/ifrit/grouper/0.2/members.go:60-63 | in every reachable state the count is registered plus not yet registered members, and every exit that arrives is of a registered process |
| Members.ReturnsWhenNothingIsLeft | Godeps/_workspace/src/github.com/tedsuo/ifrit/grouper/0.2/members.go:45-47 | Run returns only when nothing is alive, registered or on its way, and selects again exactly while something is |
| Members.FailsOnFaultsOnly | Godeps/_workspace/src/github.com/tedsuo/ifrit/grouper/0.2/members.go:77-79 | Run returns an error if and only if some member ended with one before the group was to stop |
| MembersRestart.ErrorIsOfLastFault | Godeps/_workspace/src/github.com/tedsuo/ifrit/grouper/0.2/members.go:77-79 | the error to be returned names the last member that ended with one before the group was to stop, and its error |
| MembersRestart.StopsIff | Godeps/_workspace/src/github.com/tedsuo/ifrit/grouper/0.2/members.go:51-86 | in every run the group is to stop if and only if a signal was received, or a member exited that is not to be restarted and has the rest signalled |
| MembersRestart.RestartsIff | Godeps/_workspace/src/github.com/tedsuo/ifrit/grouper/0.2/members.go:59-100 | an exit starts the member again, with its name, its policy and the loaded runner, if and only if no decision to stop came before, it is to be restarted and a runner was loaded; it signals the rest if and only if that is its signal |
| MembersRestart.OnlyExitsRestart | Godeps/_workspace/src/github.com/tedsuo/ifrit/grouper/0.2/members.go:49-57 | nothing else adds a member to be started, and nothing but a signal received signals the group |
| Members.StoppingOnlyCountsDown | Godeps/_workspace/src/github.com/tedsuo/ifrit/grouper/0.2/members.go:73-75 | once the group is to stop, nothing is restarted, the error stays, and the count falls by one with every exit |
| Members.NeverStuck | Godeps/_workspace/src/github.com/tedsuo/ifrit/grouper/0.2/members.go:49-101 | when nothing is alive or being started but the count is not yet zero, some message is always there to be received |
| MembersStop.CanBeToldIff | Godeps/_workspace/src/github.com/tedsuo/ifrit/grouper/0.2/members.go:69-71 | once the group is to stop, a process not signalled yet can still be signalled without a further signal from outside if and only if some other member, registered or on its way, has the group signalled when it exits |
| MembersStop.StopReachesEveryoneIff | Godeps/_workspace/src/github.com/tedsuo/ifrit/grouper/0.2/members.go:51-57 | after the decision to stop, some continuation registers a living process that no further exit can ever signal if and only if a member was on its way when it was decided |
| MembersStop.OneIsLeftOut | Godeps/_workspace/src/github.com/tedsuo/ifrit/grouper/0.2/members.go:51-57 | every group of one member that is to be restarted has a run from its start in which the stop comes during the restart and the member is left out for good |
| ParallelSpecs.RangesAreAdjacent | Godeps/_workspace/src/github.com/onsi/ginkgo/internal/spec/index_computer.go:3-55 | the ranges of nodes 1 to total follow each other without gap or overlap |
| ParallelSpecs.RangesAreBalanced | Godeps/_workspace/src/github.com/onsi/ginkgo/internal/spec/index_computer.go:17-53 | no node has more than one spec more than another, and earlier nodes have no fewer |
| ParallelSpecs.ExactlyOneNodeRuns | Godeps/_workspace/src/github.com/onsi/ginkgo/internal/spec/index_computer.go:3-55 | an index is run by some node if and only if it is one of the length specs, and never by two |
| ParallelSpecs.TrimsRebuildTheSuite | Godeps/_workspace/src/github.com/onsi/ginkgo/internal/spec/specs.go:101-108 | put one after the other, the lists of all the nodes are the list of all specs |
| ParallelSpecs.InRangeIff | Godeps/_workspace/src/github.com/onsi/ginkgo/internal/spec/specs.go:101-108 | the range of a node lies within the list if and only if the node is one of the total, or is beyond them and there are no more specs than nodes, or there are no specs |
| ParallelSpecs.Specs.TrimForParallelization | Godeps/_workspace/src/github.com/onsi/ginkgo/internal/spec/specs.go:101-108 | keeps exactly the node's range of the specs |

## Left out

- The etcd client, HTTP, JSON, logging, flags, `main` and the worker pool: input and output. JSON is an injective encoding that a stored value may fail to parse.
- Reflection in `WatchWithFilter` and `ConsistOf`, and the other gomega matchers: the filter is a function, the neighbour relation a predicate.
- go/build in `dependencies.go`: imports are a fixed, already resolved and filtered edge function; what cannot be imported has no edges.
- Handler.Run, sleeps, backoff durations and goroutine plumbing other than that of the process group.
- UUID generation: new guids are drawn from a function that may fail, and are fresh where a theorem needs it.
- Error injectors, events and the panic for the empty path of Delete in the in-memory store.
- Store actions that the watch loop turns into empty events; changes of desired applications without both before and after.
- Packets that the parser does not read (CONNECT, SUB, UNSUB, PUB): they would add easy printers.
- Shuffling, focus and skip filters of specs, and reporters.
- TaskBBS.TaskBBS.Operate: states the outcome with nobody else writing and a clock that stands still during the call; interference is covered by the interleavings of TaskSafety.
- TaskBBS.TaskBBS.DesireTask: the same; the source stamps the time anew on every try, which a standing clock does not show.
- TaskBBS.TaskBBS.ResolveTask: the same; what its deletion removes when others write is in TaskRemoval.
- AuctionBBS.AuctionBBS.RequestAuction: states the outcome with nobody else writing and a clock that stands still; interference is covered by AuctionSafety.
- AuctionBBS.AuctionBBS.ClaimAuction: states the outcome with nobody else writing; interference is covered by AuctionSafety.
- TaskConvergence.ConvergeTask: every request is answered and nobody else writes; lost answers and interference are covered by TaskSafety.
- AuctionBBS.AuctionBBS.ConvergeAuctions: every request is answered and nobody else writes; interference is covered by AuctionSafety.
- TaskConvergence.BatchCompareAndSwapTasks: the goroutines of one batch run one after the other, in the order scheduled.
- Stores.Store.Delete: one key at a time, and a deleted key takes no index, which nothing modelled reads.
- Matching.FindDisjointSLAPHelper: the mark table is an object with a set of marked nodes; a mark that is set to false is a node taken out.
- Watch.DispatchWatchEvents: runs against a list of replies, with the store's promise about each reply as its precondition.
- Lease.Maintainer.OnTimer: durations of timers and retries are not modelled; a tick may come at any time.
- Handler.ProcessDesiredChange: the requests refused by the store are logged only, so they count as made; what becomes of a request is up to the steps of ReconcileLoop.
- ReconcileRounds.TwoRoundsSettle: a round starts when the requests of the one before have all taken effect, and the wanted number stays; overlapping, late and lost requests and changes of the number are covered by ReconcileLoop.CanLoseIff.
- ReconcileLoop.CanLoseIff: an instance that comes up has a guid that was never used; a stop auction ends by keeping some one instance of its index, and instances do not vanish by themselves.
- LRPConvergence.ConvergeLRPs: gives the deletions, write-backs and stops that are issued; carrying them out is that of the store.
- MembersLoop.Run: the messages received are given as a list, as some run of the group has them; which one the select takes is up to the run.
- Members.NeverPanics: channels are unordered bags of messages, which allows every order that they allow and more; the timeouts of restart policies are unused by the code.
- ParallelSpecs.Specs.TrimForParallelization: for the nodes of ParallelSpecs.InRangeIff, whose range lies within the list; for all others the source slices out of the list, or divides by zero.
- NatsParser.Reader.Parse: a declared length too large to allocate panics at parser.go:123, where the specification says that the stream ends early.
- FakeStore.FakeStoreAdapter.Delete: for keys with at least one component, as the source panics for the root.
