/**
 The entities of a reconstruction plan and the inputs it is derived from (include/sff/plan/plan.hpp,
 include/sff/plan/planner.hpp). A digest is modelled by the value it covers.
 */
module Plan {
  import opened Identity
  import opened Canonical
  import opened Limits
  import opened Traversal
  import opened Topology
  import opened Closure
  import opened Evidence
  import opened Candidates

  datatype UnresolvedReason =
    | UnknownReason
    | NoCandidateSupplied
    | CandidateGenerationStale
    | CapabilityInsufficient
    | BehindFence
    | CapacityExhausted
    | FailureDomainConflict
    | Withheld
    | ClosureTruncated
    | SearchLimitReached
    | ContradictoryEvidence
    | HopNotInTopology
    | NonAuthoritativeOrigin

  /** A reason that certifies that no admissible alternative exists. */
  predicate ProvenNegative(reason: UnresolvedReason) {
    !reason.UnknownReason? && !reason.ClosureTruncated? && !reason.SearchLimitReached?
  }

  datatype PlanningPolicy = PlanningPolicy(
    allowReplacementInSameFailureDomain: bool,
    requireCapabilitySuperset: bool,
    requireAuthoritativeCandidateEvidence: bool,
    allowWithholdOnUnresolved: bool,
    allowRestoreWhenClosureTruncated: bool,
    maxCandidatesPerDependent: U32)

  /** Everything a planner or validator may consult; `assess` adjudicates a generation now. */
  datatype PlanInputs = PlanInputs(
    topology: TopologySnapshot,
    candidates: seq<ReconstructionCandidate>,
    assess: SwitchKey -> SwitchAssessment,
    fenced: set<SwitchKey>,
    limits: Limits,
    assessment: AssessmentPolicy,
    planning: PlanningPolicy,
    epoch: nat,
    boot: nat,
    planId: U64)

  /** What the policy digest covers. */
  datatype PolicyBasis = PolicyBasis(assessment: AssessmentPolicy, planning: PlanningPolicy,
                                     candidates: seq<ReconstructionCandidate>)

  ghost predicate ValidInputs(inputs: PlanInputs) {
    && Topology.Valid(inputs.topology)
    && Table(inputs.candidates)
  }

  function ClosureBudget(limits: Limits): (budget: Budget) {
    Budget(limits.maxClosureNodes, limits.maxClosureEdges)
  }

  function Basis(inputs: PlanInputs): (basis: PolicyBasis) {
    PolicyBasis(inputs.assessment, inputs.planning, inputs.candidates)
  }

  /** One dependent that must be moved off one failed generation. */
  datatype Demand = Demand(dependent: DependentRef, failed: SwitchKey)

  predicate DemandLess(a: Demand, b: Demand) {
    if a.dependent != b.dependent then DependentLess(a.dependent, b.dependent) else KeyLess(a.failed, b.failed)
  }

  lemma DemandOrder()
    ensures TotalOrder(DemandLess)
  {
    DependentOrder();
    KeyOrder();
  }

  datatype FenceStep = FenceStep(failed: SwitchKey, closureState: ClosureState, closureMembers: nat,
                                 omittedDependents: nat)

  datatype PlanAction = UnknownAction | RebindReplacement

  datatype RestoreStep = RestoreStep(
    dependent: DependentRef,
    coversFailed: SwitchKey,
    action: PlanAction,
    replacement: SwitchKey,
    hops: seq<SwitchKey>,
    links: seq<U64>,
    cost: U32,
    evidence: U64)

  datatype UnresolvedDependent = UnresolvedDependent(dependent: DependentRef, coversFailed: SwitchKey,
                                                     reason: UnresolvedReason)

  datatype PlanFeasibility =
    UnknownFeasibility | ProvenFeasible | ProvenInfeasible | Indeterminate | PlanSearchLimitReached | NothingToRestore

  /** `sealed` stands for a digest that matches the contents. */
  datatype ReconstructionPlan = ReconstructionPlan(
    id: U64,
    epoch: nat,
    boot: nat,
    failedGenerations: seq<SwitchKey>,
    fences: seq<FenceStep>,
    restores: seq<RestoreStep>,
    unresolved: seq<UnresolvedDependent>,
    feasibility: PlanFeasibility,
    closureComplete: bool,
    serviceWithheld: bool,
    topology: TopologySnapshot,
    policy: PolicyBasis,
    sealed: bool)
}
