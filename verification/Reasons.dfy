/**
 Why a plan leaves a demand unresolved (evaluate_demand and plan_internal,
 src/plan/planning_core.cpp:89-270 and 565-625): every reason a plan gives is true of its inputs.
 */
module Reasons {
  import opened Identity
  import opened Outcome
  import opened Evidence
  import opened Candidates
  import opened Plan
  import opened Eligibility
  import opened Demands
  import opened Planner
  import opened PlanProperties
  import Assignment

  // ---- What is wrong with an alternative ----

  /** A required capability that one of two masks lacks. */
  ghost predicate Lacks(need: nat, a: nat, b: nat) {
    exists k: nat :: BitSet(need, k) && !(BitSet(a, k) && BitSet(b, k))
  }

  ghost predicate OtherGeneration(inputs: PlanInputs, hop: SwitchKey) {
    hop.id != 0 && exists key :: key in inputs.topology.switches && key.id == hop.id && key.generation >= 1
  }

  /** What each reason claims about one generation of an alternative. */
  ghost predicate HopFault(inputs: PlanInputs, d: Demand, c: ReconstructionCandidate, hop: SwitchKey, r: Rejection) {
    var switches := inputs.topology.switches;
    match r.reason
    case BehindFence =>
      r.outcome == Code.Fenced && (hop == d.failed || hop in inputs.fenced || inputs.assess(hop).fenceRequired)
    case CandidateGenerationStale =>
      r.outcome == Code.Stale && hop !in switches && OtherGeneration(inputs, hop)
    case HopNotInTopology =>
      r.outcome == Code.NotFound && hop !in switches && !OtherGeneration(inputs, hop)
    case ContradictoryEvidence =>
      r.outcome == Code.Conflict && inputs.assess(hop).outcome == Code.Conflict
    case CapabilityInsufficient =>
      && r.outcome == Code.Unsupported && hop in switches && inputs.planning.requireCapabilitySuperset
      && d.dependent.kind.Path? && d.dependent.id in inputs.topology.paths
      && Lacks(inputs.topology.paths[d.dependent.id].requiredCapabilities, switches[hop].capabilities, c.capabilities)
    case FailureDomainConflict =>
      && r.outcome == Code.Denied && hop in switches && !inputs.planning.allowReplacementInSameFailureDomain
      && (d.failed in switches && switches[d.failed].failureDomain != 0 ==>
            switches[hop].failureDomain in {0, switches[d.failed].failureDomain})
    case CapacityExhausted =>
      r.outcome == Code.Exhausted && hop in switches && switches[hop].capacityScore == 0
    case _ => false
  }

  /** What a refusal claims about the whole alternative; of several faulty generations it names the first. */
  ghost predicate Fault(inputs: PlanInputs, d: Demand, c: ReconstructionCandidate, r: Rejection) {
    if c.coversFailed != d.failed then
      if c.coversFailed.id == d.failed.id then r == Rejection(Code.Stale, CandidateGenerationStale)
      else r == Rejection(Code.NotFound, NoCandidateSupplied)
    else if inputs.planning.requireAuthoritativeCandidateEvidence && !TrustOf(c.source).Authoritative? then
      r == Rejection(Code.Unauthorized, NonAuthoritativeOrigin)
    else
      exists i ::
        && 0 <= i < |c.hops| && HopFault(inputs, d, c, c.hops[i], r)
        && forall j :: 0 <= j < i ==> HopAdmissible(inputs, d, c, c.hops[j])
  }

  lemma LacksMeans(need: nat, a: nat, b: nat)
    ensures Lacks(need, a, b) <==> !(HasAll(a, need) && HasAll(b, need))
  {
    HasAllMeans(a, need);
    HasAllMeans(b, need);
  }

  lemma HopFaultHolds(inputs: PlanInputs, d: Demand, c: ReconstructionCandidate, hop: SwitchKey)
    requires HopProblem(inputs, d, c, hop).Some?
    ensures HopFault(inputs, d, c, hop, HopProblem(inputs, d, c, hop).value)
  {
    if hop in inputs.topology.switches {
      LacksMeans(Required(inputs, d.dependent), inputs.topology.switches[hop].capabilities, c.capabilities);
    }
  }

  lemma {:induction false} FirstFault(inputs: PlanInputs, d: Demand, c: ReconstructionCandidate, k: nat)
    requires k <= |c.hops| && FirstProblem(inputs, d, c, k).Some?
    requires forall j :: 0 <= j < k ==> HopAdmissible(inputs, d, c, c.hops[j])
    ensures exists i ::
              && 0 <= i < |c.hops| && HopFault(inputs, d, c, c.hops[i], FirstProblem(inputs, d, c, k).value)
              && forall j :: 0 <= j < i ==> HopAdmissible(inputs, d, c, c.hops[j])
    decreases |c.hops| - k
  {
    if HopProblem(inputs, d, c, c.hops[k]).Some? {
      HopFaultHolds(inputs, d, c, c.hops[k]);
    } else {
      assert HopAdmissible(inputs, d, c, c.hops[k]);
      FirstFault(inputs, d, c, k + 1);
    }
  }

  /** Every refusal of an alternative is true of it. */
  lemma RefusalIsTrue(inputs: PlanInputs, d: Demand, c: ReconstructionCandidate)
    requires Problem(inputs, d, c).Some?
    ensures Fault(inputs, d, c, Problem(inputs, d, c).value)
  {
    if c.coversFailed == d.failed && OriginAccepted(inputs, c) {
      FirstFault(inputs, d, c, 0);
    }
  }

  // ---- What a plan says about a demand it leaves open ----

  ghost predicate AnyAdmissible(inputs: PlanInputs, d: Demand, supplied: seq<ReconstructionCandidate>) {
    exists c :: c in supplied && Admissible(inputs, d, c)
  }

  /** The alternatives that are looked at: the first so many of the dependent's own. */
  function Looked(supplied: seq<ReconstructionCandidate>, limit: nat): (some: seq<ReconstructionCandidate>) {
    if |supplied| > limit then supplied[..limit] else supplied
  }

  /**
   The reason that is due for an open demand. With an admissible alternative at hand it is capacity,
   provided the search was completed. Without one it is that nothing was supplied, or the fault of
   the dependent's first alternative; unless some were not looked at, when nothing is proven.
   */
  ghost predicate Due(inputs: PlanInputs, d: Demand, supplied: seq<ReconstructionCandidate>, proven: bool,
                      reason: UnresolvedReason) {
    var limit := inputs.planning.maxCandidatesPerDependent;
    if AnyAdmissible(inputs, d, Looked(supplied, limit)) then
      reason == if proven then CapacityExhausted else SearchLimitReached
    else if |supplied| > limit then reason == SearchLimitReached
    else if supplied == [] then reason == NoCandidateSupplied
    else exists outcome :: Fault(inputs, d, supplied[0], Rejection(outcome, reason))
  }

  lemma EligibleAny(inputs: PlanInputs, d: Demand, supplied: seq<ReconstructionCandidate>, n: nat)
    requires n <= |supplied|
    ensures Eligible(inputs, d, supplied, n) != [] <==> AnyAdmissible(inputs, d, supplied[..n])
  {
    var eligible := Eligible(inputs, d, supplied, n);
    if eligible != [] {
      EligibleMeans(inputs, d, supplied, n, eligible[0]);
    }
    if c :| c in supplied[..n] && Admissible(inputs, d, c) {
      EligibleMeans(inputs, d, supplied, n, CandidateUse(c, DistinctHops(c.hops)));
    }
  }

  lemma ReasonIsDue(inputs: PlanInputs, d: Demand, proven: bool)
    ensures Due(inputs, d, OfDependent(inputs.candidates, d.dependent), proven, ReasonFor(Evaluate(inputs, d), proven))
  {
    var supplied := OfDependent(inputs.candidates, d.dependent);
    var n := Examined(inputs, supplied);
    assert supplied[..|supplied|] == supplied;
    EligibleAny(inputs, d, supplied, n);
    if !AnyAdmissible(inputs, d, supplied[..n]) && n == |supplied| > 0 {
      assert supplied[0] in supplied;
      ProblemMeans(inputs, d, supplied[0]);
      RefusalIsTrue(inputs, d, supplied[0]);
      var reports := Reports(inputs, d, supplied, n);
      assert reports[0] == Problem(inputs, d, supplied[0]);
      var r := reports[0].value;
      assert r == Rejection(r.outcome, r.reason);
    }
  }

  /** Every demand a plan leaves open carries the reason that is due. */
  lemma ReasonsAreTrue(inputs: PlanInputs, failed: seq<SwitchKey>, plan: ReconstructionPlan, choice: seq<nat>,
                       proven: bool, entry: UnresolvedDependent)
    requires ValidInputs(inputs) && Realizes(inputs, failed, plan, choice, proven) && entry in plan.unresolved
    ensures var d := Demand(entry.dependent, entry.coversFailed);
            Due(inputs, d, OfDependent(inputs.candidates, d.dependent), proven, entry.reason)
  {
    var demands := DemandsOf(inputs, failed);
    var options := OptionsOf(inputs, demands);
    UnresolvedMeans(options, choice, proven, |options|, entry);
    var i :| 0 <= i < |options| && choice[i] == Assignment.SKIPPED
             && entry == UnresolvedDependent(options[i].demand.dependent, options[i].demand.failed,
                                             ReasonFor(options[i], proven));
    ReasonIsDue(inputs, demands[i], proven);
  }
}
