# Switch Failover Fabric: a verified model

Switch Failover Fabric fences a failed switch generation, plans replacements for the dependents it
invalidated under capacity limits, applies the plan as authority grants, and keeps a crash-safe
journal. This project models those decisions in Dafny and proves what they guarantee.

The modules follow the program:

- **Assignment planner** (`Assignment`, `ComponentSearch`, `UnionFind`, `Components`,
  `Decomposition`, `FastPath`, `Solver`, `Certificates`): the budgeted branch-and-bound search finds
  the unique optimum, decomposing by shared capacity is exact, the fast path equals the search.
- **Topology and closure** (`Canonical`, `Traversal`, `Topology`, `TopologyIndex`, `Closure`,
  `ClosureSearch`, `Generations`): the bounded breadth-first traversal is graph reachability.
- **Evidence** (`Evidence`, `EvidenceStore`, `Adjudication`): order-free retention, and exactly when
  the records of a generation make it usable or oblige a fence.
- **Plans** (`Candidates`, `Plan`, `Eligibility`, `Demands`, `Planner`, `PlanProperties`,
  `PlanOptimality`, `Reasons`, `Realization`, `Validator`, `Acceptance`, `PlannerValidates`,
  `ValidatorGap`): demands are complete, every reason is true, infeasibility is a certificate, and
  exactly which plans of the planner the independent validator accepts.
- **Runtime** (`Authority`, `AuthorityHistory`, `Runtime`, `RuntimeRuns`, `Restarts`, `Restoration`,
  `StepHistory`, `Grants`, `Declarations`, `Coordinator`): the coordinator as a state machine with
  crashes at any durable point: fence safety, recovery, who holds authority after any history, the
  restore gate and exact apply accounting over every run.
- **Journal** (`Bits`, `Crc`, `CrcLaws`, `Integrity`, `Limits`, `Records`, `Journal`,
  `JournalSoundness`, `DurableStore`, `Payloads`, `Lineage`): CRC-32, crash consistency at every
  byte, detection of every changed byte, and exactly which files replay accepts.
- **Frames** (`Frames`, `FrameSoundness`, `FrameStream`): the stream decoder does not depend on
  chunking and delivers only what was encoded.

Check the whole project with `dafny verify dfyconfig.toml`.

Two properties are false of the code, and are proved with their exact conditions.

- The planner's own plan does not always pass the validator, even with every failed generation
  fenced: a per-root closure that meets the edge bound exactly is flagged truncated while the
  closure of all roots is complete, and the validator refuses that combination.
  `PlannerValidates.ProvenPlanValid` gives the condition on the inputs and `ValidatorGap.GapRefused`
  the failing ones. Nothing is missing from such a closure (`Closure.OneRootExact`), so the refusal
  is conservative.
- A journal of accepted appends does not always open again: the append bound counts per opening and
  the replay bound per file, so two openings can append more than one may read
  (`DurableStore.SecondOpeningRefused`). `DurableStore.CrashRecoverable` gives the condition after
  any history. A write that failed and was appended over may not replay either
  (`DurableStore.RepeatedNumberRefused`).

Where the code and its comments differ, the model follows the code: an authority query tests the
union of the active bounds, not each grant by itself; the two agree in every reachable state.

## Model

| member | source | states |
|---|---|---|
| `Assignment.OptimumUnique` | src/plan/planning_core.cpp:58-63 | the objective is a strict total preference, so at most one feasible choice vector is optimal |
| `Assignment.OptimumExists` | src/plan/planning_core.cpp:58-63 | whatever the capacities, some choice vector is the optimum |
| `Assignment.BetterTotal` | src/plan/planning_core.cpp:58-63 | of two different choice vectors one is strictly better: the final comparison of the vectors themselves breaks every tie |
| `ComponentSearch.ComponentSearch.Run` | src/plan/planning_core.cpp:283-289 | the result is feasible for every budget; if the search was not cut it is the optimum over all capacity-feasible vectors; a cut search has used up the budget, and every node visited was paid for |
| `ComponentSearch.ComponentSearch.Dfs` | src/plan/planning_core.cpp:295-355 | every completion of the current prefix is beaten by the incumbent unless the budget ran out, and the usage counters come back exactly as they were |
| `ComponentSearch.ComponentSearch.Leaf` | src/plan/planning_core.cpp:301-308 | a complete vector replaces the incumbent exactly when it is better, so it is covered either way |
| `ComponentSearch.ComponentSearch.Alternatives` | src/plan/planning_core.cpp:310-345 | after the loop every completion that serves the demand is covered by the incumbent, unless the budget ran out |
| `ComponentSearch.ComponentSearch.Take` | src/plan/planning_core.cpp:331-340 | push, recurse and pop leave the counters unchanged and cover every completion with that alternative |
| `ComponentSearch.ComponentSearch.Attempt` | src/plan/planning_core.cpp:311-345 | one more alternative is covered by the incumbent unless the budget ran out; whether it was cut, did not fit or was searched, the counters are intact |
| `ComponentSearch.ComponentSearch.Push` | src/plan/planning_core.cpp:331 | each distinct capacity key gains exactly one user |
| `ComponentSearch.ComponentSearch.Pop` | src/plan/planning_core.cpp:337-340 | each distinct capacity key loses exactly one user and no zero entry stays behind |
| `ComponentSearch.ComponentSearch.Fits` | src/plan/planning_core.cpp:319-330 | an alternative fits exactly when every capacity-bearing key it charges has room |
| `ComponentSearch.ComponentSearch.Summarise` | src/plan/planning_core.cpp:69-87 | the accumulated score is the score of the vector, with saturating cost |
| `ComponentSearch.PruneSound` | src/plan/planning_core.cpp:298-299 | both prunes discard only prefixes with no completion better than the incumbent |
| `ComponentSearch.OversubscribedSound` | src/plan/planning_core.cpp:319-330 | an alternative that does not fit has no feasible completion |
| `UnionFind.DisjointSet.Find` | src/plan/planning_core.cpp:374-380 | returns the root; path halving changes no element's root |
| `UnionFind.HalvingKeepsRoots` | src/plan/planning_core.cpp:375-378 | one halving step keeps every root |
| `UnionFind.DisjointSet.Unite` | src/plan/planning_core.cpp:381-390 | merges exactly the two classes, under the smaller root |
| `UnionFind.LinkMerges` | src/plan/planning_core.cpp:384-389 | linking the larger root below the smaller merges exactly those two classes |
| `Components.Split` | src/plan/planning_core.cpp:567-587 | two demands share a component exactly when sharing of capacity keys links them, and each component lists its members in ascending order |
| `Components.PartitionExact` | src/plan/planning_core.cpp:567-581 | uniting the users of each key gives the finest grouping that respects sharing |
| `Decomposition.MergeFeasible` | src/plan/planning_core.cpp:589-625 | merging feasible component choices by index respects every capacity |
| `Decomposition.PartsFeasible` | src/plan/planning_core.cpp:589-625 | every feasible assignment is feasible on each component, so no component is searched too narrowly |
| `Decomposition.MergeOptimum` | src/plan/planning_core.cpp:589-625 | merging the component optima by index gives the global optimum, including the lexicographic tie-break; no cost sum saturates |
| `Decomposition.MergeTieBreak` | src/plan/planning_core.cpp:58-63 | vectors that are lexicographically no later on every component are no later as a whole |
| `FastPath.FrontsOptimum` | src/plan/planning_core.cpp:523-565 | when no key has more potential users than capacity, the front alternatives are the global optimum |
| `FastPath.FastPathEqualsSearch` | src/plan/planning_core.cpp:551-565 | a search run to completion returns the very vector the fast path takes |
| `FastPath.CapacityBinding` | src/plan/planning_core.cpp:525-544 | capacity is binding exactly when some key has more potential users than capacity |
| `FastPath.UnbindingFeasible` | src/plan/planning_core.cpp:523-544 | when no key is binding, every choice vector is feasible |
| `Solver.Assign` | src/plan/planning_core.cpp:546-625 | for every budget the assignment is feasible and uses at most the one shared budget; unless cut it is the optimum |
| `Solver.Merge` | src/plan/planning_core.cpp:610-623 | a component's decisions reach exactly its own demands |
| `Solver.SearchComponents` | src/plan/planning_core.cpp:589-625 | one budget shared by all components; the merged vector is feasible always and the global optimum when no component was cut |
| `Certificates.LeftOutIsBlocked` | src/plan/planning_core.cpp:630-636 | every alternative of a demand the optimum skips runs through a saturated generation |
| `Certificates.OptimumServes` | src/plan/planning_core.cpp:694-696 | with capacity at least one everywhere, the optimum restores something as soon as anything is eligible |
| `Canonical.SortedUnique` | src/model/topology.cpp:17-20 | a sorted duplicate-free listing is determined by its elements |
| `Canonical.ListSorted` | src/model/topology.cpp:17-20 | listing comparable items sorts them and removes repetitions |
| `Canonical.ListUnique` | src/model/topology.cpp:17-20 | whatever the order of the items, the listing is the one sorted sequence with their elements |
| `Canonical.Find` | src/model/topology.cpp:349-353 | binary search returns the index of the element, or the length exactly when it is absent |
| `Canonical.LowerBound` | src/model/topology.cpp:349-353 | the search stops at the first element not below the probe |
| `Traversal.RunOutcome` | src/model/topology.cpp:441-482 | an uncut traversal has found exactly the reachable vertices and examined each of their incoming edges once; a cut one has met a bound; both stay within the bounds |
| `Traversal.ReachLeast` | src/model/topology.cpp:441-471 | reachability is the least set that holds the roots and is closed under dependents |
| `Traversal.OneRootComplete` | src/model/topology.cpp:441-482 | if the traversal from all roots is uncut, the one from any single root misses nothing, even if flagged |
| `Traversal.OneRootFlag` | src/model/topology.cpp:441-471 | it is flagged exactly when the edge bound is met by its last edge with a vertex without dependents left in the queue |
| `Topology.ReachMeans` | src/model/topology.cpp:310-320 | reachability on the reverse index is exactly invalidation through a chain of dependencies |
| `TopologyIndex.Build` | src/model/topology.cpp:255-320 | the descriptor maps, the node table and the reverse index hold exactly what the descriptors and the supplied dependencies name; unqualified dependencies and too many nodes are refused, and nothing else is |
| `TopologyIndex.CollectNodes` | src/model/topology.cpp:288-308 | exactly the declared switches, paths and links and the ends of dependencies, in canonical order |
| `TopologyIndex.CollectEdges` | src/model/topology.cpp:255-286 | exactly the dependencies of links on endpoints, of paths on hops and links, and the supplied ones |
| `TopologyIndex.CollectReverse` | src/model/topology.cpp:310-320 | each node's list holds exactly the sources of the edges into it, in canonical order |
| `ClosureSearch.ComputeClosure` | src/model/topology.cpp:415-494 | the queue, the visited flags and the counters compute the specified closure |
| `ClosureSearch.Traverse` | src/model/topology.cpp:441-473 | the queue loop is the specified run of the traversal |
| `ClosureSearch.SeedRoots` | src/model/topology.cpp:428-439 | the roots in the node table are queued once, the others are counted absent |
| `ClosureSearch.ExpandNode` | src/model/topology.cpp:453-471 | the inner loop examines the dependents of one node, each discovered node once |
| `Closure.ClosureExact` | src/model/topology.cpp:405-494 | members are exactly the roots and what depends on them unless truncated, and never anything else |
| `Closure.ClosureBounded` | src/model/topology.cpp:415-471 | members and examined edges stay within their bounds; uncut, the edges are the in-degrees of the members |
| `Closure.OneRootExact` | src/plan/planning_core.cpp:420-441 | with a complete union closure, each per-root closure has every node that root invalidates, truncated flag or not |
| `Closure.OneRootTruncated` | src/model/topology.cpp:441-482 | under the same conditions a per-root closure is flagged truncated exactly when its edges use up the edge bound and nothing depends on the node found last |
| `Generations.GenerationVector.Insert` | src/model/generation.cpp:54-60 | a qualified key is added once and the list stays canonical |
| `Generations.Intersects` | src/model/generation.cpp:40-52 | the two-cursor walk decides whether the key sets meet |
| `Evidence.FreshMeans` | src/model/evidence.cpp:186-191 | a record is fresh exactly inside its window, never when the window overflows 64 bits |
| `Evidence.AssessSwitch` | src/model/evidence.cpp:375-662 | the loop over running maxima computes the specified adjudication |
| `Adjudication.UsableExactly` | src/model/evidence.cpp:375-662 | usable exactly when no committed failure is in effect and either a recovery is later than every failure on record, or there is neither, nothing distrusts or disables the generation and an authority affirms its health |
| `Adjudication.FencedExactly` | src/model/evidence.cpp:375-662 | a fence is required exactly when a committed failure is in effect, a failure on record is later than every recovery, or the policy fences on a contradiction, on an advisory failure or on missing health |
| `Adjudication.OutcomeExactly` | src/model/evidence.cpp:375-662 | which outcome code is reported, from the records alone: Conflict exactly for a failure and a recovery of the same instant, Stale only where nothing is known and a record has expired |
| `Adjudication.HealthExactly` | src/model/evidence.cpp:375-662 | when the reported health is Failed, Unreachable or Healthy, from the records alone |
| `Evidence.Gather` | src/model/evidence.cpp:375-510 | the loop keeps the newest considered observation of each kind |
| `Evidence.UsableIsAffirmed` | src/model/evidence.cpp:538-603 | usable only on a fresh authoritative recovery or positive health record, and never with a fence obligation |
| `Evidence.DurableFailureFences` | src/model/evidence.cpp:517-546 | a durable failure obliges a fence exactly until a strictly newer authoritative recovery or enabling, after which it has no effect |
| `Evidence.FencingIsGrounded` | src/model/evidence.cpp:569-622 | when policy demands authoritative failure evidence and does not fence on missing health, an obligation to fence rests on a durable failure or on a current authoritative failure record; advisory observation alone never fences |
| `Evidence.FailurePrevails` | src/model/evidence.cpp:548-576 | an authoritative failure that no recovery postdates leaves the generation unusable |
| `EvidenceStore.AdmissionsNewest` | src/model/evidence.cpp:295-308 | streaming retention equals sorting everything accepted and keeping the newest |
| `EvidenceStore.RetainedExactly` | src/model/evidence.cpp:295-308 | a record is retained exactly when fewer accepted records than the bound were observed later, or at the same time under a larger identity |
| `EvidenceStore.OrderFree` | src/model/evidence.cpp:295-308 | the bucket and every adjudication are the same for every arrival order of the same records |
| `EvidenceStore.EvidenceStore.Admit` | src/model/evidence.cpp:119-309 | the refusals in order with their codes, undefined capability bits and over-long details included; the store stays streaming retention of everything accepted, with identities in use exactly those retained |
| `EvidenceStore.EvidenceStore.ForSubject` | src/model/evidence.cpp:321-326 | a lookup returns what retention kept of the accepted records of that subject |
| `Candidates.BuildTable` | src/plan/planner.cpp:57-103 | a canonical table without duplicates: every entry was supplied, and every supplied alternative is represented with evidence no later |
| `Candidates.ForDependent` | src/plan/planner.cpp:105-117 | the binary search and scan return exactly the alternatives of one dependent in table order |
| `Candidates.OfDependentMeans` | src/plan/planner.cpp:105-117 | one dependent's alternatives are exactly those of the table, again a canonical table |
| `Candidates.CoveringOrdered` | src/plan/planning_core.cpp:42-49 | the table order of alternatives covering one failed generation is the planning order |
| `Eligibility.ProblemMeans` | src/plan/planning_core.cpp:126-224 | the checks refuse exactly the inadmissible alternatives, each with a reason that proves absence |
| `Eligibility.HasAllMeans` | src/model/switch.cpp:82-84 | the capability test holds exactly when every bit that is needed is there |
| `Eligibility.CheckHops` | src/plan/planning_core.cpp:144-224 | the loop stops at the first refused hop and otherwise charges each distinct hop once |
| `Eligibility.EvaluateDemand` | src/plan/planning_core.cpp:89-270 | the loops compute the specified evaluation of one demand |
| `Eligibility.EligibleCanonical` | src/plan/planning_core.cpp:240-243 | sorting the eligible alternatives leaves them in table order |
| `Eligibility.EvaluateExact` | src/plan/planning_core.cpp:89-237 | the eligible alternatives are admissible ones of the table, and all of them unless the enumeration was cut |
| `Eligibility.EvaluateFront` | src/plan/planning_core.cpp:240-243 | the front alternative has least cost and fewest hops at that cost |
| `Eligibility.BlockingReason` | src/plan/planning_core.cpp:245-268 | the blocking reason is a proof of absence exactly when the enumeration was complete |
| `Eligibility.PickReason` | src/plan/planning_core.cpp:245-268 | as every refusal proves absence, the scans pick the first refusal in table order |
| `Demands.BuildDemandPlan` | src/plan/planning_core.cpp:413-471 | the loops compute the specified demands, options, fences and completeness flags |
| `Demands.AttributeRoots` | src/plan/planning_core.cpp:426-451 | one closure per failed generation gives its fence step and its dependents |
| `Demands.DemandsSound` | src/plan/planning_core.cpp:443-462 | every demand pairs a failed generation with a valid dependent it invalidates |
| `Demands.DemandsComplete` | src/plan/planning_core.cpp:413-462 | with a complete closure the demand set is exactly all such pairs |
| `Demands.DemandsSorted` | src/plan/planning_core.cpp:461-462 | the demands are in canonical order without repetition |
| `Planner.CollectCapacity` | src/plan/planning_core.cpp:514-521 | the capacity map holds exactly the generations some eligible alternative uses, each with the capacity score the topology declares for it |
| `Planner.CapacityPositive` | src/plan/planning_core.cpp:213-218 | every generation that can be charged has capacity at least one |
| `Planner.ProblemWellFormed` | src/plan/planning_core.cpp:219-223 | an alternative charges a generation once, and the fronts are minimal |
| `Planner.ReadPlan` | src/plan/planning_core.cpp:627-658 | restores and unresolved are read off the choice vector and add up to the demands |
| `Planner.MakePlan` | src/plan/planning_core.cpp:473-704 | inputs that are not ready are refused; a returned plan realises a feasible choice, optimal unless the whole budget was spent; a ready input is refused only when such a choice leaves more unresolved than allowed |
| `PlanOptimality.UnresolvedIsFull` | src/plan/planning_core.cpp:514-640 | in the plan of a completed search, every admissible alternative of an unresolved demand runs through a generation whose restore steps number exactly its declared capacity score |
| `PlanOptimality.ProvenIsBest` | src/plan/planning_core.cpp:58-63 | no choice of eligible alternatives within the declared capacities restores more dependents, or as many more cheaply, or as many as cheaply over fewer hops |
| `Reasons.RefusalIsTrue` | src/plan/planning_core.cpp:126-224 | every refusal of an alternative is true of it: its outcome and reason state a fact about the inputs, of the first faulty hop where a hop is at fault |
| `Reasons.ReasonsAreTrue` | src/plan/planning_core.cpp:245-268 | every unresolved entry of every plan carries the reason that is due: capacity or the search limit if an admissible alternative was looked at, else the limit if some were not, nothing supplied, or the fault of the first alternative |
| `PlanProperties.PlanPartition` | src/plan/planning_core.cpp:627-682 | every demand is restored or explained, never both, and nothing else is |
| `PlanProperties.FencesDescribe` | src/plan/planning_core.cpp:426-441 | every failed generation has its fence step, which counts exactly what that generation invalidates, with nothing omitted, unless it says it was truncated |
| `PlanProperties.InfeasibleCertificate` | src/plan/planning_core.cpp:688-699 | ProvenInfeasible exactly when nothing was cut, demands exist and no alternative is admissible for any of them; then every reason proves absence |
| `PlanProperties.VerdictMeans` | src/plan/planning_core.cpp:688-699 | SearchLimitReached owns up to every cut of closure, enumeration or search; otherwise NothingToRestore says that no failed generation invalidates any dependent, ProvenFeasible that some demand has an admissible alternative and something is restored, all exactly |
| `PlanProperties.ProvenNothing` | src/plan/planning_core.cpp:694-696 | a proven assignment restores nothing exactly when no demand has an eligible alternative |
| `PlanProperties.ExhaustedIsTrue` | src/plan/planning_core.cpp:634-636 | every eligible alternative of a demand the optimum skips runs through a generation used to exactly the capacity score the topology declares |
| `PlanProperties.NoFalseExhaustion` | src/plan/planning_core.cpp:634-636 | a search that was cut reports exhausted capacity only for a demand without any eligible alternative, where that was the reason found |
| `PlanProperties.ProvenPlansAgree` | src/plan/reference_solver.cpp:12-40 | two proven plans are identical in every field, with or without the fast path and whatever their search budgets |
| `PlanProperties.RealizesRebudgeted` | src/plan/reference_solver.cpp:18-26 | the search budget never changes what is searched: demands, alternatives and fences are the same |
| `Validator.Validator.Validate` | src/plan/validator.cpp:47-85 | accepts exactly the valid plans; the outcome of a refusal is its first finding: Corrupt, then Stale, then Invalid for an incoherent header, then fences, steps, coverage and order |
| `Acceptance.AcceptedIsSafe` | src/plan/validator.cpp:47-245 | an accepted plan is current, plans only around fenced generations, moves each dependent once and only to known generations that are neither failed, fenced nor contradicted, and puts no more steps on a generation than its declared capacity |
| `Acceptance.AcceptedCovers` | src/plan/validator.cpp:207-227 | an accepted plan with a complete closure restores or explains every dependent that a failed generation invalidates |
| `Acceptance.UsageCounts` | src/plan/validator.cpp:188-190 | the usage of a generation is the number of steps that run through it, however often each does |
| `Validator.Validator.Record` | src/plan/validator.cpp:25-34 | the report is cut after 256 findings, with one more that says so; the first finding never changes |
| `Validator.Validator.CheckHeader` | src/plan/validator.cpp:55-80 | clean exactly when the plan is current and coherent; a stale plan is reported as stale first |
| `Validator.Validator.CheckFences` | src/plan/validator.cpp:109-129 | clean exactly when every fence step is qualified, fenced and consistent and every failed generation has one |
| `Validator.Validator.CheckRestores` | src/plan/validator.cpp:131-205 | clean exactly when every step is sound, no demand is restored twice and no declared capacity is exceeded |
| `Validator.Validator.CheckUsage` | src/plan/validator.cpp:197-204 | clean exactly when no counted use exceeds the declared capacity |
| `Validator.Validator.CheckStep` | src/plan/validator.cpp:137-195 | clean exactly when the step is sound and its demand was not restored before |
| `Validator.Validator.CheckHops` | src/plan/validator.cpp:150-187 | clean exactly when no hop is failed, fenced, unknown, fence-required or contradicted |
| `Validator.Validator.CheckCoverage` | src/plan/validator.cpp:207-227 | clean exactly when every recomputed demand is covered and the completeness flag is right |
| `Validator.Validator.CheckOrdering` | src/plan/validator.cpp:229-245 | clean exactly when restores and unresolved entries are in canonical order |
| `PlannerValidates.HopSafe` | src/plan/planning_core.cpp:144-183 | no hop of an admissible alternative is any failed, fenced or fence-required generation, or absent from the topology |
| `PlannerValidates.UsageAgrees` | src/plan/validator.cpp:188-190 | the validator's count of steps through a generation is the planner's use of its capacity |
| `PlannerValidates.RestoresWithinDeclared` | src/plan/validator.cpp:197-204 | the planner's restores never exceed a declared capacity |
| `PlannerValidates.PlannedIsValid` | src/plan/validator.cpp:47-245 | a plan of the planner passes validation on the same inputs exactly when all failed generations are fenced, no single root is flagged truncated while all together are complete, and the chosen links exist; the last holds whenever every eligible alternative names known links |
| `PlannerValidates.ProvenPlanValid` | src/plan/validator.cpp:47-245 | for a completed search: there is a plan, and it passes if and only if all failed generations are fenced, no root is flagged that way, and the alternatives of the unique optimum name known links |
| `PlannerValidates.EveryPlanValid` | src/plan/validator.cpp:47-245 | for a search that may be cut: every plan a choice within capacity leads to passes if and only if all failed generations are fenced, no root is flagged that way, and every eligible alternative names known links |
| `PlannerValidates.FlaggedRootMeans` | src/model/topology.cpp:441-471 | a root is flagged that way exactly when the edges below it use up the edge bound and nothing depends on the node found last |
| `PlannerValidates.UnknownLinkRefused` | src/plan/validator.cpp:191-194 | one eligible alternative with an unknown link is enough for some choice within capacity whose plan the validator refuses |
| `Realization.OnlyRealized` | src/plan/planning_core.cpp:627-703 | serving any one demand with any one of its alternatives, or serving nothing, is within capacity and gives a plan |
| `ValidatorGap.FencedPlanRefused` | src/plan/validator.cpp:115-118 | for a cycle through a failed generation and an exactly met edge bound, the validator refuses every plan the planner makes |
| `ValidatorGap.GapExists` | src/plan/planning_core.cpp:420-441 | such inputs exist for any two generations and any dependent: valid, ready for planning, and with both generations fenced |
| `ValidatorGap.GapRefused` | src/plan/validator.cpp:115-118 | on these inputs the planner has a plan to return, within every bound, and the validator refuses every plan it could return |
| `Authority.GrantedSound` | src/model/authority.cpp:127-155 | granting over unfenced generations keeps index, numbering and fence safety |
| `Authority.GrantConfers` | src/model/authority.cpp:127-155 | a grant confers authority at once and until its saturating expiry |
| `Authority.FenceSweepClears` | src/model/authority.cpp:171-186 | fencing a generation leaves no Active grant bound to it |
| `Authority.FencingSound` | src/model/authority.cpp:267-288 | committing a fence keeps safety exactly when the grants on the generation were withdrawn first |
| `Authority.SweepingSound` | src/model/authority.cpp:171-265 | every sweep keeps index, numbering and fence safety |
| `Authority.WithdrawalEnds` | src/model/authority.cpp:188-204 | withdrawing a dependent's authority ends it and touches no other grant |
| `Authority.ExpiryInvisible` | src/model/authority.cpp:225-238 | expiring due grants changes nothing any later query can see |
| `Authority.RestoringGrantSound` | src/model/authority.cpp:462-481 | restoring a grant keeps the index exactly when its identity is not taken from another dependent |
| `Authority.AuthorityRegistry.GrantAuthority` | src/model/authority.cpp:108-156 | the refusals in order, and the registry with exactly one more Active grant on success |
| `Authority.RevokingSound` | src/model/authority.cpp:158-169 | revoking one grant keeps index, numbering and fence safety |
| `Authority.AuthorityRegistry.Revoke` | src/model/authority.cpp:158-169 | only an Active grant is revoked |
| `Authority.AuthorityRegistry.FenceGenerations` | src/model/authority.cpp:171-186 | exactly the Active grants bound to one of the generations are fenced off, and are counted; all others stay as they were |
| `Authority.AuthorityRegistry.RevokeDependent` | src/model/authority.cpp:188-204 | walking the dependent's entry in the index revokes and counts exactly the grants a scan of all of them would, because the index is sound |
| `Authority.IndexReachesAll` | src/model/authority.cpp:188-204 | a sound index leaves out no grant of the dependent: what the walk does not touch needed no change |
| `Authority.AuthorityRegistry.InvalidatePreRestart` | src/model/authority.cpp:206-223 | exactly the Active grants become stale, and are counted |
| `Authority.AuthorityRegistry.ExpireDue` | src/model/authority.cpp:225-238 | exactly the Active grants past their window expire, and are counted |
| `Authority.AuthorityRegistry.WithdrawAll` | src/model/authority.cpp:240-265 | everything neither revoked nor fenced off is withdrawn and counted, in the state that fits the cause |
| `Authority.AuthorityRegistry.CommitFence` | src/model/authority.cpp:267-288 | the refusals in order, and the fence with a fresh identity on success |
| `Authority.AuthorityRegistry.RestoreGrant` | src/model/authority.cpp:462-481 | a restored grant is stale and its identity is never handed out again |
| `Authority.AuthorityRegistry.RestoreFence` | src/model/authority.cpp:483-491 | a qualified fence is restored as recorded |
| `Authority.AuthorityRegistry.Query` | src/model/authority.cpp:316-433 | authority exactly when some grant is active now; the union test agrees with the per-grant rule of include/sff/model/authority.hpp; the reason of a denial is the gravest trace |
| `AuthorityHistory.AuthorityExactly` | src/model/authority.cpp:108-491 | after every history of the registry a dependent holds authority at a moment exactly when a grant was issued to it whose window holds that moment, and no later revocation, fence, restart, expiry or withdrawal of it |
| `AuthorityHistory.DenialExactly` | src/model/authority.cpp:316-433 | why a dependent has no authority: a fence before a restart before a lapsed window before a revocation, and NotFound exactly when nothing was ever granted |
| `Authority.UnblockedBySafety` | src/model/authority.cpp:316-433 | with fence safety the union of the active bounds meets no fence, so the union test never denies |
| `RuntimeRuns.NewestFailure` | src/model/evidence.cpp:197-212 | in any order of recording, the table holds the newest failure of each generation |
| `RuntimeRuns.DeclaredIsFenced` | src/runtime/failover.cpp:240-292 | after a declared failure the generation is recorded, fenced and without Active grants |
| `Declarations.EstablishedExactly` | src/runtime/failover.cpp:177-238 | a declaration takes effect exactly when it is well formed and admitted, and with it on record a failure is committed and in effect, the reports of authorities end in a failure, or the policy fences on what is left |
| `Declarations.DeclarationPrevails` | src/runtime/failover.cpp:177-238 | a declaration in force, with no recovery as late on record, always takes effect |
| `Declarations.FenceDescribes` | src/runtime/failover.cpp:255-292 | fencing withdraws exactly the Active grants over the generation and adds and journals one fence, whose scope is Committed only if it counts everything the generation invalidates |
| `Declarations.FencingCodeExactly` | src/runtime/failover.cpp:255-292 | the code says whether the generation is fenced afterwards and how completely; Exhausted only at the fence bound |
| `RuntimeRuns.MarksEvery` | src/runtime/failover.cpp:621-630 | an effect report reaches every recorded step of its dependent under the plan and no other |
| `RuntimeRuns.PerformKeeps` | src/runtime/failover.cpp:170-636 | every call keeps fence safety, the agreement of live state and journal, plans dated no later than the process, and a journal that holds acknowledgements only |
| `RuntimeRuns.DeclaringKeeps` | src/runtime/failover.cpp:177-292 | a declaration, with every early return, keeps fence safety, and replaying what it journalled rebuilds its failures and fences |
| `RuntimeRuns.ApplyingKeeps` | src/runtime/failover.cpp:440-579 | applying a plan keeps the invariant, and its receipt carries only Applied or Failed |
| `Restarts.Run` | src/runtime/coordinator.cpp:82-274 | the invariant holds in every state reachable by calls, shutdowns, crashes at any durable point and openings under a valid configuration |
| `Restarts.FenceSafety` | src/model/authority.cpp:108-288 | in every reachable state no Active grant is bound to a fenced generation, and the index lists exactly the grants |
| `Restarts.FencesStay` | src/model/authority.cpp:267-288 | within an incarnation no fence disappears or changes |
| `Restarts.NothingActive` | src/runtime/coordinator.cpp:221-230 | no grant is Active after an opening, even if the journal held grants |
| `Restarts.FailedStaysFailed` | src/runtime/coordinator.cpp:146-153 | every durably failed generation is unusable and fence-required after a restart, at any time |
| `Restarts.FailureHolds` | src/model/evidence.cpp:197-212 | once a failure is durable, the generation is unusable and fence-required in every later state of the run, through calls, crashes and restarts, until a record that lifts that failure is held |
| `Restarts.StoppedStays` | src/runtime/coordinator_impl.hpp:95-101 | after a shutdown no call changes the state or the journal any more, a second shutdown included |
| `Restarts.NewIncarnation` | src/runtime/coordinator.cpp:207-215 | an incarnation that opens has a larger epoch and boot ordinal than all earlier ones |
| `Restarts.CrashRecovers` | src/runtime/coordinator.cpp:128-196 | reopening after a crash inside a call rebuilds the failures and fences of the last completed call plus at most what was already durable |
| `Restarts.CompletedSurvives` | src/runtime/coordinator.cpp:128-196 | reopening rebuilds the failure table and the fences of the live state |
| `Restarts.CommittedNeverApplies` | src/runtime/coordinator.cpp:170-183 | plans are replayed, but a plan committed before a restart is never applicable in any later state of the run |
| `Restarts.EraGrows` | src/runtime/coordinator.cpp:207-215 | over any continuation of a run epochs never go back, and every opening makes them larger |
| `Restarts.ApplyWriteAhead` | src/runtime/failover.cpp:487-579 | at every crash point of an application the plan is recovered as soon as anything is, and the recorded steps all at once with the receipt |
| `RuntimeRuns.ReplayedPlans` | src/runtime/coordinator.cpp:170-183 | every plan that replay restores was committed to the journal under its own identity |
| `StepHistory.RestoreGate` | src/runtime/failover.cpp:642-728 | over every run and under every policy, restore is permitted exactly when nothing bound is hazardous, authority is active, and the last event to reach the last recorded step verified it, or, where acknowledgement suffices, did not fail it |
| `StepHistory.VerifiedExactly` | src/runtime/failover.cpp:595-636 | a recorded step counts as verified exactly when an accepted report, of a plan retained then with that step, reached it in this incarnation before any shutdown, with no crash, effective further application or accepted failure report of it since |
| `StepHistory.StepExactly` | src/runtime/failover.cpp:500-636 | over every run, a recorded step is verified, applied or failed exactly when the last event that reached it said so: an accepted effect report, an application in effect, or the receipts a restart replayed |
| `StepHistory.ReplayedStep` | src/runtime/coordinator.cpp:184-196 | what replay records of a step is what the last receipt that names it says |
| `Declarations.BlockedExactly` | src/runtime/failover.cpp:656-663 | a restore is blocked exactly when a grant the dependent holds now runs over a generation that is fenced, or whose records oblige the runtime to fence it |
| `Declarations.PermittedIsSafe` | src/runtime/failover.cpp:642-728 | a permitted restore rests on a grant in its window over generations without a fence, without a committed failure in effect and without an unrecovered failure on record |
| `Grants.InstallingGrants` | src/runtime/coordinator.cpp:301-354 | installing a topology gives every path authority over all its hops and every link over both its ends, unless one is fenced or the grants have reached their bound, and changes no earlier grant |
| `Grants.AppliedHolds` | src/runtime/failover.cpp:500-558 | every step reported Applied leaves its dependent with authority over exactly the hops of the step, under the current identity and policy |
| `Grants.ApplyCodeExactly` | src/runtime/failover.cpp:440-579 | the code of an applicable, proven plan is Unverified exactly when all its steps fit under the grant bound, else PartialClosure |
| `Restoration.ApplyAccounting` | src/runtime/failover.cpp:500-579 | in every reachable state, the applied steps of an applicable proven plan are exactly the first that fit under the grant bound, the receipt in the journal says so step by step, and the registry grew by that many grants |
| `Coordinator.Coordinator.Open` | src/runtime/coordinator.cpp:82-274 | an invalid configuration is refused; otherwise replaying the journal record by record and starting a new incarnation gives the specified state, committed plans included, and the header records |
| `Coordinator.Coordinator.BeginIncarnation` | src/runtime/coordinator.cpp:207-264 | a larger epoch and boot ordinal, no live grant, and the header records of the new incarnation |
| `Coordinator.Coordinator.ReplayRecord` | src/runtime/coordinator.cpp:128-196 | one record of the replay loop: failures, fences, grants, plans, receipts and headers have their effect, everything else none |
| `Coordinator.Coordinator.RecordFailureLocked` | src/runtime/failover.cpp:177-238 | the refusals in order with their codes; the failure is journalled, then recorded, exactly when the evidence establishes it |
| `Coordinator.Coordinator.DeclareFailure` | src/runtime/failover.cpp:240-292 | the failure is recorded, then fenced, in this order, with every early return and its code |
| `Coordinator.Coordinator.FenceSubject` | src/runtime/failover.cpp:255-292 | closure, withdrawal of grants, fence and journal record in this order; an existing fence is kept; the outcome says whether the fence covers a complete closure |
| `Coordinator.Coordinator.ApplyPlan` | src/runtime/failover.cpp:440-579 | refusal after a shutdown, validation, write-ahead record, steps, receipt and final record, with every early return and its code |
| `Coordinator.Coordinator.MayApply` | src/runtime/failover.cpp:453-488 | a plan is applied exactly when it revalidates now, its closure is complete or policy allows, and it is feasible or empty; otherwise the code of the first guard that refuses |
| `Coordinator.Coordinator.ApplyOne` | src/runtime/failover.cpp:500-558 | one step: usable hops, then the grant, then the recorded acknowledgement |
| `Coordinator.Coordinator.RecordEffectVerification` | src/runtime/failover.cpp:595-636 | the refusals in order with their codes, that after a shutdown included; an admitted effect report marks exactly the recorded steps of its dependent under the plan, and the code says whether there were any |
| `Coordinator.VerifyCodeExactly` | src/runtime/failover.cpp:595-636 | an effect report succeeds exactly when the running coordinator takes it in and it reaches a recorded step of the retained plan it names |
| `Coordinator.Coordinator.EvaluateRestore` | src/runtime/failover.cpp:642-728 | permits exactly when the dependent is valid, nothing bound is hazardous, authority is active and the last recorded step allows it; the outcome code of every refusal |
| `Coordinator.Coordinator.FindLastStep` | src/runtime/failover.cpp:664-675 | the last recorded step of the dependent in map order, if there is one |
| `Coordinator.Coordinator.EstablishAuthority` | src/runtime/coordinator.cpp:356-372 | one grant under the current identity, refused after a shutdown |
| `Coordinator.Coordinator.WithdrawAuthority` | src/runtime/coordinator.cpp:374-382 | exactly the dependent's Active grants are withdrawn and counted, and none after a shutdown |
| `Coordinator.Coordinator.Shutdown` | src/runtime/coordinator.cpp:488-511 | the first shutdown stops the runtime and leaves its record; a later one does nothing |
| `Coordinator.Coordinator.InstallTopology` | src/runtime/coordinator.cpp:301-354 | the installation is journalled, and every path over its hops and every link over its ends is granted, in table order; an empty topology is refused, as is every call after a shutdown |
| `Coordinator.Coordinator.GrantPaths` | src/runtime/coordinator.cpp:328-336 | the loop over the path table makes the specified grants |
| `Coordinator.Coordinator.GrantLinks` | src/runtime/coordinator.cpp:337-346 | the loop over the link table makes the specified grants |
| `Crc.PolynomialValue` | src/codec/integrity.cpp:13-17 | the reflected generator is the constant of section 3.2.9 of IEEE Std 802.3 |
| `Crc.MakeTable` | src/codec/integrity.cpp:11-23 | the nested loops fill each entry with eight shift steps of its index |
| `Crc.Crc32Table` | src/codec/integrity.cpp:27-36 | the table-driven loop computes the bit-serial checksum, for every input and seed |
| `Crc.TableStep` | src/codec/integrity.cpp:27-36 | one table lookup is eight shifts of the register |
| `Crc.CrcDetects` | src/codec/integrity.cpp:27-36 | two byte strings of equal length that differ in one byte never have the same checksum |
| `CrcLaws.Crc32Chains` | src/codec/integrity.cpp:27-36 | the checksum of nothing is the seed, and the checksum of one part seeds that of the next |
| `CrcLaws.Residue` | src/codec/integrity.cpp:27-36 | any bytes followed by their own stored checksum have the checksum 0x2144DF1C |
| `CrcLaws.OnesClear` | src/codec/integrity.cpp:27-36 | four bytes of ones have the checksum of all ones, and what follows them is seeded with it |
| `Crc.UpdateInjective` | src/codec/integrity.cpp:27-36 | a byte update loses neither the register nor the byte |
| `Integrity.ChecksumDetects` | src/codec/integrity.cpp:27-40 | the checksum as the journal uses it detects any single changed byte |
| `Integrity.Ieee` | src/codec/integrity.cpp:27-40 | the format in use meets the hypothesis of the corruption theorems |
| `Bits.LoadStore` | src/codec/bytes.cpp:11-23 | a little-endian integer that fits its width reads back |
| `Bits.StoreLoad` | src/codec/bytes.cpp:11-23 | bytes read as an integer are written back unchanged |
| `Records.DecodeEncoded` | src/persist/records.cpp:215-316 | an encoded record decodes to itself, whatever follows |
| `Records.ReadEncode` | src/persist/records.cpp:156-181 | the fields read from a header encode to the same bytes |
| `Records.EncodeRead` | src/persist/records.cpp:169-181 | an encoded header reads back field by field |
| `Records.DecodePrefix` | src/persist/records.cpp:215-294 | every strict prefix of an encoded record is a torn tail |
| `Records.CorruptionRefused` | src/persist/records.cpp:183-294 | a record with one changed byte is never complete and never torn, at any length |
| `Records.HeaderCorruptionRefused` | src/persist/records.cpp:183-294 | a changed header byte is refused from the header alone |
| `Journal.Replay` | src/persist/store.cpp:226-355 | the streaming reader computes the specified scan |
| `JournalSoundness.ReplaySound` | src/persist/store.cpp:226-355 | for every file whatever: the accepted records are sealed and numbered without a gap, and a replay that succeeds makes the file exactly their encodings followed by the dropped bytes, the start of an unfinished record |
| `JournalSoundness.ReplayAccepts` | src/persist/store.cpp:226-355 | replay succeeds exactly for the files that are a journal within the record bound, possibly followed by an unfinished record |
| `JournalSoundness.GapRefused` | src/persist/store.cpp:315-331 | where the numbering of sealed records first has a gap, replay stops as corrupt, or as a replay if the number fell back, with exactly the records before it |
| `JournalSoundness.DecodeSound` | src/persist/records.cpp:215-294 | whatever decodes as complete is the encoding of a sealed record |
| `Journal.CrashConsistency` | src/persist/store.cpp:226-355 | replaying a journal cut at any byte succeeds exactly when the whole records before the cut are within the record bound, accepts exactly those, and reports a torn tail exactly when the cut is inside a record; past the bound it fails and truncates nothing |
| `Journal.CutMaximal` | src/persist/store.cpp:226-355 | the accepted records are the maximal whole-record prefix |
| `Journal.ReplayWithin` | src/persist/store.cpp:320-340 | sealed records numbered without a gap replay if and only if they are within the record bound, and then exactly |
| `Journal.CorruptionNeverRepaired` | src/persist/store.cpp:250-342 | replaying a journal with one changed byte fails and truncates nothing |
| `Journal.ScanCorrupted` | src/persist/store.cpp:250-342 | a changed record stops the scan where it stands: nothing more accepted, nothing marked torn |
| `DurableStore.DurableStore.Open` | src/persist/store.cpp:118-170 | opening replays, refuses a failed replay, trims a torn tail, continues the numbering and counts appends from zero |
| `DurableStore.DurableStore.Append` | src/persist/store.cpp:172-212 | an append adds exactly one sealed record with the next number; a refusal, that at the bound of one opening included, changes nothing; a failed write or flush leaves exactly the bytes that were written and the counters as they were |
| `DurableStore.AppendRepresents` | src/persist/store.cpp:172-212 | appending the next record to a replayable journal keeps it replayable |
| `DurableStore.FailedWriteRecovers` | src/persist/store.cpp:147-200 | reopening after a failed write keeps every earlier record, and the failed one only if it had been written whole |
| `DurableStore.EarlierRecordsRead` | src/persist/store.cpp:196-201 | whatever is appended on top of a failed write, replay still reads every earlier record |
| `DurableStore.RepeatedNumberRefused` | src/persist/store.cpp:201-211 | after a failed flush of a whole record the next append repeats its number, and the journal no longer replays |
| `DurableStore.SwallowedByTorn` | src/persist/store.cpp:196-201 | a record appended on top of a torn one that still lacks more bytes than it has is taken for part of the torn tail |
| `DurableStore.DurableStore.Compact` | src/persist/store.cpp:416-457 | compaction replaces the journal with exactly the supplied records or leaves it as it was; a failure after the old file was closed leaves the store closed |
| `DurableStore.CompactionRepresents` | src/persist/store.cpp:416-457 | compacting contiguous records gives a journal of exactly those records |
| `DurableStore.CutReopens` | src/persist/store.cpp:147-170 | opening a journal cut at any byte leaves exactly the whole records before the cut and continues their numbering, as long as they are within the record bound |
| `DurableStore.HistoryRefines` | src/persist/store.cpp:118-212 | over every history of appends, crashes and openings, whatever is refused in it, the store is open exactly when the record log says so, and its file is then exactly the surviving records |
| `DurableStore.CrashRecoverable` | src/persist/store.cpp:147-170 | after any history, a crash can be recovered from if and only if it leaves at most as many records as the bound; otherwise opening is refused and the file left alone |
| `DurableStore.FirstOpeningRecovers` | src/persist/store.cpp:172-212 | what one opening appended can be opened again after any crash |
| `DurableStore.SecondOpeningRefused` | src/persist/store.cpp:177-180 | after as many appends as the bound, an opening that loses none of them and one append more, all accepted, the next opening is refused and leaves the file alone |
| `DurableStore.OverfullRefused` | src/persist/store.cpp:320-340 | an open store with more records than the bound, however it came to that, cannot be opened again unless a crash cuts it back |
| `DurableStore.AppendsRecoverable` | src/persist/store.cpp:172-212 | with no more appends than the bound, every pattern of crashes can be recovered from |
| `Payloads.ReadsBack` | src/codec/bytes.cpp:64-96 | whatever is written field by field reads back |
| `Payloads.ReadsAhead` | src/codec/bytes.cpp:64-146 | written fields read back from the front of any longer payload |
| `Payloads.ReadsOnlyWritten` | src/codec/bytes.cpp:105-209 | the reader accepts only the canonical encoding of its result |
| `Payloads.ByteReader.All` | src/codec/bytes.cpp:105-209 | the sticky reader over all fields and the end computes the specified result |
| `Payloads.ByteReader.NextField` | src/codec/bytes.cpp:111-182 | one field, or a failure that sticks |
| `Payloads.ByteReader.Number` | src/codec/bytes.cpp:120-146 | a number of the given width in little-endian order, or a sticky failure that consumes nothing |
| `Lineage.FailureReadsBack` | src/persist/records.cpp:343-481 | a committed failure reads back as it was written |
| `Lineage.FenceReadsBack` | src/persist/records.cpp:356-513 | a committed fence reads back as it was written |
| `Lineage.FailureReadsOnlyWritten` | src/persist/records.cpp:460-481 | only payloads the encoder writes are read as failures |
| `Lineage.FenceReadsOnlyWritten` | src/persist/records.cpp:483-513 | only payloads the encoder writes are read as fences |
| `Lineage.HeaderReadsBack` | src/persist/records.cpp:322-334 | the boot ordinal and epoch of a stream header read back as they were written, whatever follows |
| `Frames.DecodeStable` | src/transport/frame.cpp:328-406 | any answer but Incomplete is unchanged by further bytes |
| `Frames.DecodeEncoded` | src/transport/frame.cpp:301-406 | an encoded frame decodes to itself, whatever follows |
| `Frames.PrefixIncomplete` | src/transport/frame.cpp:328-406 | every strict prefix of an encoded frame is incomplete |
| `FrameSoundness.DecodeSound` | src/transport/frame.cpp:328-406 | whatever bytes are decoded as a frame are the encoding of that frame |
| `FrameSoundness.DecodeAccepts` | src/transport/frame.cpp:328-406 | a frame is decoded exactly when the bytes start with the encoding of one |
| `FrameSoundness.DrainSound` | src/transport/frame.cpp:441-460 | the bytes of any stream are the encodings of the frames delivered, in order, and a rest where no frame starts; the decoder failed exactly when that rest is more than incomplete |
| `FrameSoundness.CorruptionRefused` | src/transport/frame.cpp:328-406 | a frame with any one byte changed is refused as corrupt, whatever follows it |
| `Frames.IncompleteShort` | src/transport/frame.cpp:328-406 | bytes still incomplete are fewer than the longest frame, so one chunk always fits |
| `FrameStream.ChunkingIndependent` | src/transport/frame.cpp:412-460 | how a stream is cut into chunks never matters, for any bytes |
| `FrameStream.DrainAppend` | src/transport/frame.cpp:441-460 | draining early and then the rest is draining everything at once |
| `FrameStream.FramesArrive` | src/transport/frame.cpp:412-460 | a stream of valid frames in any chunks yields exactly those frames in order |
| `FrameStream.ArrivalInOrder` | src/transport/frame.cpp:441-460 | what has arrived is always a prefix of what will arrive |
| `FrameStream.FrameStreamDecoder.Feed` | src/transport/frame.cpp:412-439 | a chunk is taken whole or not at all, within two longest frames |
| `FrameStream.FrameStreamDecoder.Next` | src/transport/frame.cpp:441-460 | one decoded frame is removed from the buffer; a failure sticks |
| `FrameStream.Serve` | src/transport/server.cpp:107-135 | the server's drain-then-feed loop delivers the whole stream and no chunk of the transport's size is refused |

## Left out

- Sockets, threads and blocking input: the transport is a sequence of received chunks.
- File system calls, flushing, renaming and path checks: a file is a byte sequence, and a crash keeps any prefix of what was being appended.
- Digests of plans, topologies, policies and closures: a digest is modelled by the value it covers, a sealed plan by a flag.
- Event log, decision log, explanations and rationale strings: no decision depends on them.
- Wire payload codecs, the policy codec and the plan, receipt and grant codecs: field-by-field round trips of the kind proved for failures and fences.
- Sessions, capability bit tables and the validation of limits beyond their ranges: single-branch facts.
- The first half of the topology build, which validates descriptors and drops exact duplicates: `TopologyIndex.Build` starts from accepted descriptors.
- Plan states, the choice of which plan retention evicts, and the superseding of plans by a new fence: a retained plan is any plan labelled with the current identity, and eviction any set of plans.
- The accumulators of cost, hops and skipped demands in the assembled assignment: they are never read.
- The omitted-edge count of a truncated closure: it is a report only.
- The shutdown race: shutdown is one step between other calls; the calls after it are refused.
- Running out of memory while encoding or buffering.
- Planner.MakePlan: assumes at most 2^32 demands, so that sums of 32-bit costs stay below 2^64; past that the saturated objective is no longer the sum over components. The codes of malformed inputs are collapsed to Invalid.
- Solver.Assign: assumes at most 2^32 demands, for the same reason.
- Solver.SearchComponents: assumes at most 2^32 demands, for the same reason.
- Decomposition.MergeOptimum: assumes at most 2^32 demands, for the same reason; the search of one component needs no such bound.
- FastPath.FrontsOptimum: assumes at most 2^32 demands, for the same reason.
- FastPath.FastPathEqualsSearch: assumes at most 2^32 demands, for the same reason.
- Validator.Validator.Validate: does not fix which of its codes a faulty restore step or fence step is reported with.
- Candidates.BuildTable: does not say which of two alternatives that differ only in their source is kept, because the sort leaves that open.
- Coordinator.Coordinator.DeclareFailure: takes the code of admitting the assertion to the evidence store as a parameter; `EvidenceStore.EvidenceStore.Admit` decides it.
- Coordinator.Coordinator.RecordFailureLocked: takes the same code as a parameter.
- PlannerValidates.EveryPlanValid: ranges over every choice within capacity, of which a cut search may return only some; for a completed search `PlannerValidates.ProvenPlanValid` is exact.
- PlannerValidates.UnknownLinkRefused: the plan it refuses is one a cut search may return, not necessarily the optimum.
- Coordinator.Coordinator.RecordEffectVerification: takes the code of admitting the report to the evidence store as a parameter.
- Restarts.Run: epochs, boot ordinals and identities are unbounded, so it does not model a 64-bit counter wrapping around; every append is assumed to succeed until a crash.
- Restarts.CrashRecovers: ranges over journal records, whose byte-level recovery is `DurableStore.HistoryRefines` and whose payloads are `Lineage.FailureReadsBack` and `Lineage.FenceReadsBack`.
- EvidenceStore.OrderFree: is stated for distinct identities, as the store refuses a repeated one while it is retained.
- DurableStore.SwallowedByTorn: says what replay makes of an append over a torn record only where that record swallows it; otherwise the outcome depends on the checksum of mixed bytes.
