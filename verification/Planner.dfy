/**
 Planning a reconstruction (plan_internal, src/plan/planning_core.cpp:473-704): demands, the
 assignment, and the plan read off from it.
 */
module Planner {
  import opened Identity
  import opened Outcome
  import opened Topology
  import opened Candidates
  import opened Plan
  import opened Eligibility
  import opened Demands
  import Assignment
  import Decomposition
  import FastPath
  import Solver

  // ---- From eligible alternatives to the assignment problem ----

  function UseOf(u: CandidateUse): (use: Assignment.Use) {
    Assignment.Use(u.candidate.cost, |u.candidate.hops|, u.capacityKeys)
  }

  function UsesOf(eligible: seq<CandidateUse>): (uses: seq<Assignment.Use>)
    ensures |uses| == |eligible|
    ensures forall j :: 0 <= j < |eligible| ==> uses[j] == UseOf(eligible[j])
  {
    seq(|eligible|, j requires 0 <= j < |eligible| => UseOf(eligible[j]))
  }

  function Alternatives(options: seq<DemandOptions>): (problem: seq<seq<Assignment.Use>>)
    ensures |problem| == |options|
    ensures forall i :: 0 <= i < |options| ==> problem[i] == UsesOf(options[i].eligible)
  {
    seq(|options|, i requires 0 <= i < |options| => UsesOf(options[i].eligible))
  }

  /** The options are what evaluating their demands gives. */
  ghost predicate Evaluated(inputs: PlanInputs, options: seq<DemandOptions>) {
    forall i :: 0 <= i < |options| ==> options[i] == Evaluate(inputs, options[i].demand)
  }

  lemma EligibleFew(inputs: PlanInputs, demand: Demand)
    ensures |Evaluate(inputs, demand).eligible| < Assignment.SKIPPED
  {
  }

  lemma UseWellFormed(inputs: PlanInputs, demand: Demand, j: nat)
    requires Table(inputs.candidates) && j < |Evaluate(inputs, demand).eligible|
    ensures Assignment.Distinct(UseOf(Evaluate(inputs, demand).eligible[j]).capacityKeys)
  {
    var u := Evaluate(inputs, demand).eligible[j];
    EvaluateExact(inputs, demand, u);
    DistinctHopsUnique(u.candidate.hops);
  }

  /** The assignment problem meets what the search and the fast path rely on. */
  lemma ProblemWellFormed(inputs: PlanInputs, options: seq<DemandOptions>)
    requires Table(inputs.candidates) && Evaluated(inputs, options)
    ensures Assignment.WellFormed(Alternatives(options))
    ensures FastPath.FrontsMinimal(Alternatives(options))
  {
    var problem: seq<seq<Assignment.Use>> := Alternatives(options);
    forall i | 0 <= i < |problem|
      ensures |problem[i]| < Assignment.SKIPPED
      ensures forall j :: 0 <= j < |problem[i]| ==> Assignment.Distinct(problem[i][j].capacityKeys)
    {
      EligibleFew(inputs, options[i].demand);
      forall j | 0 <= j < |problem[i]|
        ensures Assignment.Distinct(problem[i][j].capacityKeys)
      {
        UseWellFormed(inputs, options[i].demand, j);
      }
    }
    forall i, j | 0 <= i < |problem| && 0 <= j < |problem[i]|
      ensures || problem[i][0].cost < problem[i][j].cost
              || (problem[i][0].cost == problem[i][j].cost && problem[i][0].hops <= problem[i][j].hops)
    {
      EvaluateFront(inputs, options[i].demand, j);
    }
  }

  // ---- Capacity ----

  function CapacityOf(t: TopologySnapshot, key: SwitchKey): (capacity: U32) {
    if key in t.switches then t.switches[key].capacityScore else 0
  }

  /** What the topology declares for a generation; nothing for one it does not know. */
  predicate Declared(t: TopologySnapshot, key: SwitchKey, capacity: nat) {
    (key in t.switches ==> capacity == t.switches[key].capacityScore) && (key !in t.switches ==> capacity == 0)
  }

  ghost predicate Charged(options: seq<DemandOptions>, key: SwitchKey) {
    exists i, j :: 0 <= i < |options| && 0 <= j < |options[i].eligible| && key in options[i].eligible[j].capacityKeys
  }

  /** Exactly the generations some eligible alternative uses, with their declared capacity. */
  ghost predicate CapacityMap(t: TopologySnapshot, options: seq<DemandOptions>, capacity: Assignment.Capacity) {
    && (forall key :: key in capacity <==> Charged(options, key))
    && (forall key :: key in capacity ==> Declared(t, key, capacity[key]))
  }

  ghost predicate ChargedBy(eligible: seq<CandidateUse>, n: nat, key: SwitchKey)
    requires n <= |eligible|
  {
    exists j :: 0 <= j < n && key in eligible[j].capacityKeys
  }

  method AddCapacity(t: TopologySnapshot, eligible: seq<CandidateUse>, before: Assignment.Capacity)
    returns (capacity: Assignment.Capacity)
    requires forall key :: key in before ==> Declared(t, key, before[key])
    ensures forall key :: key in capacity ==> Declared(t, key, capacity[key])
    ensures forall key :: key in capacity <==> key in before || ChargedBy(eligible, |eligible|, key)
  {
    capacity := before;
    for j := 0 to |eligible|
      invariant forall key :: key in capacity ==> Declared(t, key, capacity[key])
      invariant forall key :: key in capacity <==> key in before || ChargedBy(eligible, j, key)
    {
      var keys := eligible[j].capacityKeys;
      for k := 0 to |keys|
        invariant forall key :: key in capacity ==> Declared(t, key, capacity[key])
        invariant forall key :: key in capacity <==> key in before || ChargedBy(eligible, j, key) || key in keys[..k]
      {
        if keys[k] !in capacity {
          capacity := capacity[keys[k] := CapacityOf(t, keys[k])];
        }
      }
      assert keys[..|keys|] == keys;
    }
  }

  method CollectCapacity(t: TopologySnapshot, options: seq<DemandOptions>) returns (capacity: Assignment.Capacity)
    ensures CapacityMap(t, options, capacity)
  {
    capacity := map[];
    for i := 0 to |options|
      invariant forall key :: key in capacity ==> Declared(t, key, capacity[key])
      invariant forall key :: key in capacity <==>
                  exists k :: 0 <= k < i && ChargedBy(options[k].eligible, |options[k].eligible|, key)
    {
      capacity := AddCapacity(t, options[i].eligible, capacity);
    }
  }

  lemma CapacityUnique(t: TopologySnapshot, options: seq<DemandOptions>, a: Assignment.Capacity, b: Assignment.Capacity)
    requires CapacityMap(t, options, a) && CapacityMap(t, options, b)
    ensures a == b
  {
    assert forall key :: key in a <==> key in b;
  }

  /** Every charged generation can take at least one dependent. */
  lemma CapacityPositive(inputs: PlanInputs, options: seq<DemandOptions>, capacity: Assignment.Capacity, key: SwitchKey)
    requires Table(inputs.candidates) && Evaluated(inputs, options)
    requires CapacityMap(inputs.topology, options, capacity) && key in capacity
    ensures capacity[key] > 0
  {
    var i, j :| 0 <= i < |options| && 0 <= j < |options[i].eligible| && key in options[i].eligible[j].capacityKeys;
    var demand, u := options[i].demand, options[i].eligible[j];
    EvaluateExact(inputs, demand, u);
    assert HopAdmissible(inputs, demand, u.candidate, key);
  }

  // ---- From the choice vector to the plan ----

  function StepOf(demand: Demand, c: ReconstructionCandidate): (step: RestoreStep)
    requires c.hops != []
  {
    RestoreStep(demand.dependent, demand.failed, RebindReplacement, c.hops[0], c.hops, c.links, c.cost, c.evidence)
  }

  function ReasonFor(option: DemandOptions, proven: bool): (reason: UnresolvedReason) {
    if option.eligible != [] && proven then CapacityExhausted
    else if option.eligible != [] then SearchLimitReached
    else option.blockingReason
  }

  /** Every choice names an eligible alternative with at least one hop, or skips. */
  ghost predicate Selectable(options: seq<DemandOptions>, choice: seq<nat>) {
    && |choice| == |options|
    && forall i :: 0 <= i < |options| ==>
         choice[i] == Assignment.SKIPPED ||
           (choice[i] < |options[i].eligible| && options[i].eligible[choice[i]].candidate.hops != [])
  }

  ghost function Restores(options: seq<DemandOptions>, choice: seq<nat>, n: nat): (steps: seq<RestoreStep>)
    requires Selectable(options, choice) && n <= |options|
  {
    if n == 0 then []
    else
      Restores(options, choice, n - 1)
      + if choice[n - 1] == Assignment.SKIPPED then []
        else [StepOf(options[n - 1].demand, options[n - 1].eligible[choice[n - 1]].candidate)]
  }

  ghost function Unresolved(options: seq<DemandOptions>, choice: seq<nat>, proven: bool,
                            n: nat): (entries: seq<UnresolvedDependent>)
    requires n <= |options| == |choice|
  {
    if n == 0 then []
    else
      Unresolved(options, choice, proven, n - 1)
      + if choice[n - 1] != Assignment.SKIPPED then []
        else [UnresolvedDependent(options[n - 1].demand.dependent, options[n - 1].demand.failed,
                                  ReasonFor(options[n - 1], proven))]
  }

  function FeasibilityOf(closureComplete: bool, enumerated: bool, proven: bool, demands: nat,
                         restores: nat): (f: PlanFeasibility) {
    if !closureComplete || !enumerated || !proven then PlanSearchLimitReached
    else if demands == 0 then NothingToRestore
    else if restores == 0 then ProvenInfeasible
    else ProvenFeasible
  }

  /** Reads the steps off the choice vector; the accounting closes by construction. */
  method ReadPlan(options: seq<DemandOptions>, choice: seq<nat>, proven: bool)
    returns (restores: seq<RestoreStep>, unresolved: seq<UnresolvedDependent>)
    requires Selectable(options, choice)
    ensures restores == Restores(options, choice, |options|)
    ensures unresolved == Unresolved(options, choice, proven, |options|)
    ensures |restores| + |unresolved| == |options|
  {
    restores, unresolved := [], [];
    for i := 0 to |options|
      invariant restores == Restores(options, choice, i)
      invariant unresolved == Unresolved(options, choice, proven, i)
      invariant |restores| + |unresolved| == i
    {
      var option := options[i];
      if choice[i] == Assignment.SKIPPED {
        unresolved := unresolved + [UnresolvedDependent(option.demand.dependent, option.demand.failed,
                                                        ReasonFor(option, proven))];
      } else {
        restores := restores + [StepOf(option.demand, option.eligible[choice[i]].candidate)];
      }
    }
  }

  // ---- The plan ----

  ghost predicate Choosable(t: TopologySnapshot, options: seq<DemandOptions>, choice: seq<nat>, proven: bool) {
    exists capacity ::
      && CapacityMap(t, options, capacity)
      && Assignment.Feasible(Alternatives(options), capacity, choice)
      && (proven ==> Assignment.Optimum(Alternatives(options), capacity, choice))
  }

  /** The plan that a choice vector gives. */
  ghost predicate Realizes(inputs: PlanInputs, failed: seq<SwitchKey>, plan: ReconstructionPlan, choice: seq<nat>,
                           proven: bool)
    requires ValidInputs(inputs)
  {
    var options := OptionsOf(inputs, DemandsOf(inputs, failed));
    && Selectable(options, choice)
    && Choosable(inputs.topology, options, choice, proven)
    && plan.restores == Restores(options, choice, |options|)
    && plan.unresolved == Unresolved(options, choice, proven, |options|)
    && plan.feasibility
       == FeasibilityOf(ClosureComplete(inputs, failed), AllEnumerated(options), proven, |options|, |plan.restores|)
    && plan.serviceWithheld == (inputs.planning.allowWithholdOnUnresolved && plan.unresolved != [])
    && plan.fences == Fences(inputs, failed)
    && plan.closureComplete == ClosureComplete(inputs, failed)
    && Labels(inputs, failed, plan)
  }

  /** A choice the assignment phase may make that leaves more demands open than a plan may hold. */
  ghost predicate Overflows(inputs: PlanInputs, failed: seq<SwitchKey>, choice: seq<nat>, proven: bool)
    requires ValidInputs(inputs)
  {
    var options := OptionsOf(inputs, DemandsOf(inputs, failed));
    && Selectable(options, choice)
    && Choosable(inputs.topology, options, choice, proven)
    && |Unresolved(options, choice, proven, |options|)| > inputs.limits.maxUnresolvedDependents
  }

  predicate Labels(inputs: PlanInputs, failed: seq<SwitchKey>, plan: ReconstructionPlan) {
    && plan.id == (if inputs.planId == 0 then 1 else inputs.planId)
    && plan.epoch == inputs.epoch && plan.boot == inputs.boot
    && plan.failedGenerations == failed
    && plan.topology == inputs.topology && plan.policy == Basis(inputs)
    && plan.sealed
  }

  datatype PlanResult = Planned(plan: ReconstructionPlan) | Refused(code: Code)

  /** A generation may be planned around once it is fenced or must be. */
  predicate Failing(inputs: PlanInputs, key: SwitchKey) {
    key.Valid() && (key in inputs.fenced || inputs.assess(key).fenceRequired)
  }

  predicate Ready(inputs: PlanInputs, failed: seq<SwitchKey>) {
    && inputs.epoch != 0 && inputs.boot != 0 && inputs.limits.Valid()
    && failed != []
    && forall k :: 0 <= k < |failed| ==> Failing(inputs, failed[k])
  }

  lemma OptionsEvaluated(inputs: PlanInputs, demands: seq<Demand>)
    ensures Evaluated(inputs, OptionsOf(inputs, demands))
  {
  }

  lemma TypedSelectable(inputs: PlanInputs, options: seq<DemandOptions>, choice: seq<nat>)
    requires Table(inputs.candidates) && Evaluated(inputs, options)
    requires Assignment.Typed(Alternatives(options), choice, |options|)
    ensures Selectable(options, choice)
  {
    forall i | 0 <= i < |options|
      ensures choice[i] == Assignment.SKIPPED
              || (choice[i] < |options[i].eligible| && options[i].eligible[choice[i]].candidate.hops != [])
    {
      assert Assignment.ChoiceAt(Alternatives(options), choice, i);
      if choice[i] != Assignment.SKIPPED {
        EligibleValid(inputs, options[i].demand, choice[i]);
      }
    }
  }

  lemma EligibleValid(inputs: PlanInputs, demand: Demand, j: nat)
    requires Table(inputs.candidates) && j < |Evaluate(inputs, demand).eligible|
    ensures Evaluate(inputs, demand).eligible[j].candidate.Valid()
  {
    var u := Evaluate(inputs, demand).eligible[j];
    EvaluateExact(inputs, demand, u);
    var k :| 0 <= k < |inputs.candidates| && inputs.candidates[k] == u.candidate;
  }

  /** The assignment phase on evaluated options. */
  method Choose(inputs: PlanInputs, options: seq<DemandOptions>, referenceMode: bool)
    returns (choice: seq<nat>, proven: bool, nodes: nat)
    requires Table(inputs.candidates) && Evaluated(inputs, options) && |options| <= Decomposition.MAX_DEMANDS
    ensures Selectable(options, choice) && Choosable(inputs.topology, options, choice, proven)
    ensures nodes <= inputs.limits.maxCandidatesEvaluated && (!proven ==> nodes == inputs.limits.maxCandidatesEvaluated)
  {
    var capacity := CollectCapacity(inputs.topology, options);
    ProblemWellFormed(inputs, options);
    choice, proven, nodes := Solver.Assign(Alternatives(options), capacity, inputs.limits.maxCandidatesEvaluated,
                                           referenceMode);
    TypedSelectable(inputs, options, choice);
  }

  method MakePlan(inputs: PlanInputs, failed: seq<SwitchKey>, referenceMode: bool)
    returns (result: PlanResult, nodes: nat)
    requires ValidInputs(inputs)
    requires |DemandsOf(inputs, failed)| <= Decomposition.MAX_DEMANDS
    ensures !Ready(inputs, failed) ==> result == Refused(Code.Invalid)
    ensures result.Planned? ==>
              && |result.plan.unresolved| <= inputs.limits.maxUnresolvedDependents
              && exists choice, proven ::
                   && Realizes(inputs, failed, result.plan, choice, proven)
                   && (proven || nodes == inputs.limits.maxCandidatesEvaluated)
    ensures Ready(inputs, failed) && result.Refused? ==>
              && result.code == Code.Exhausted
              && exists choice, proven ::
                   && Overflows(inputs, failed, choice, proven)
                   && (proven || nodes == inputs.limits.maxCandidatesEvaluated)
    ensures nodes <= inputs.limits.maxCandidatesEvaluated
  {
    nodes := 0;
    if !Ready(inputs, failed) {
      return Refused(Code.Invalid), 0;
    }
    var demandPlan := BuildDemandPlan(inputs, failed);
    var options := demandPlan.options;
    OptionsEvaluated(inputs, demandPlan.demands);
    var choice, proven, visited := Choose(inputs, options, referenceMode);
    nodes := visited;
    var restores, unresolved := ReadPlan(options, choice, proven);
    if |unresolved| > inputs.limits.maxUnresolvedDependents {
      assert Overflows(inputs, failed, choice, proven);
      return Refused(Code.Exhausted), nodes;
    }
    var plan := ReconstructionPlan(
      if inputs.planId == 0 then 1 else inputs.planId, inputs.epoch, inputs.boot, failed,
      demandPlan.fences, restores, unresolved,
      FeasibilityOf(demandPlan.closureComplete, demandPlan.enumerationComplete, proven, |demandPlan.demands|,
                    |restores|),
      demandPlan.closureComplete, inputs.planning.allowWithholdOnUnresolved && unresolved != [],
      inputs.topology, Basis(inputs), true);
    assert Realizes(inputs, failed, plan, choice, proven);
    result := Planned(plan);
  }
}
