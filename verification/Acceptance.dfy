/**
 What a plan is known to be once the validator accepts it (src/plan/validator.cpp:53-276), and so
 what it is refused for.
 */
module Acceptance {
  import opened Identity
  import opened Outcome
  import opened Canonical
  import opened Topology
  import opened Closure
  import opened Plan
  import opened Eligibility
  import opened Demands
  import opened PlanProperties
  import opened PlannerValidates
  import opened Validator

  // ---- Capacity, counted ----

  ghost function StepsThroughKey(restores: seq<RestoreStep>, n: nat, key: SwitchKey): (steps: set<int>)
    requires n <= |restores|
  {
    set i | 0 <= i < n && key in restores[i].hops
  }

  /** The usage of a generation is the number of steps that run through it, however often each does. */
  lemma {:induction false} UsageCounts(restores: seq<RestoreStep>, n: nat, key: SwitchKey)
    requires n <= |restores|
    ensures StepUsage(restores, n, key) == |StepsThroughKey(restores, n, key)|
  {
    if n > 0 {
      UsageCounts(restores, n - 1, key);
      var before := StepsThroughKey(restores, n - 1, key);
      if key in restores[n - 1].hops {
        assert StepsThroughKey(restores, n, key) == before + {n - 1};
      } else {
        assert StepsThroughKey(restores, n, key) == before;
      }
    }
  }

  // ---- Order ----

  ghost function Targets(restores: seq<RestoreStep>): (targets: seq<Demand>)
    ensures |targets| == |restores|
    ensures forall i :: 0 <= i < |restores| ==>
              targets[i] == Demand(restores[i].dependent, restores[i].coversFailed)
  {
    seq(|restores|, i requires 0 <= i < |restores| => Demand(restores[i].dependent, restores[i].coversFailed))
  }

  lemma AdjacentLess(a: RestoreStep, b: RestoreStep)
    requires !RestoreLess(b, a) && Target(a) != Target(b)
    ensures DemandLess(Demand(a.dependent, a.coversFailed), Demand(b.dependent, b.coversFailed))
  {
    DependentOrder();
    KeyOrder();
  }

  lemma {:induction false} StrictlyRising(targets: seq<Demand>, i: nat, j: nat)
    requires i < j < |targets| && forall k :: 0 < k < |targets| ==> DemandLess(targets[k - 1], targets[k])
    ensures DemandLess(targets[i], targets[j])
    decreases j
  {
    DemandOrder();
    if i < j - 1 {
      StrictlyRising(targets, i, j - 1);
    }
    assert DemandLess(targets[j - 1], targets[j]);
  }

  /** Accepted restore steps are strictly ordered by dependent and failed generation. */
  lemma AcceptedOrder(inputs: PlanInputs, plan: ReconstructionPlan)
    requires RestoresOk(inputs, plan) && OrderingOk(plan)
    ensures Sorted(Targets(plan.restores), DemandLess)
  {
    var targets := Targets(plan.restores);
    forall k | 0 < k < |targets|
      ensures DemandLess(targets[k - 1], targets[k])
    {
      AdjacentLess(plan.restores[k - 1], plan.restores[k]);
    }
    forall i, j | 0 <= i < j < |targets|
      ensures DemandLess(targets[i], targets[j])
    {
      StrictlyRising(targets, i, j);
    }
  }

  // ---- What acceptance guarantees ----

  /** A generation that traffic may be moved to. */
  ghost predicate Safe(inputs: PlanInputs, failed: seq<SwitchKey>, hop: SwitchKey) {
    && hop !in failed && hop !in inputs.fenced && hop in inputs.topology.switches
    && !inputs.assess(hop).fenceRequired && !inputs.assess(hop).outcome.Conflict?
  }

  /** A step that moves a dependent off a failed generation and onto safe ones. */
  ghost predicate Sound(inputs: PlanInputs, failed: seq<SwitchKey>, step: RestoreStep) {
    && step.coversFailed in failed && step.action == RebindReplacement && step.cost > 0
    && step.hops != [] && step.hops[0] == step.replacement
    && step.dependent.Valid() && step.coversFailed.Valid()
    && (forall hop :: hop in step.hops ==> Safe(inputs, failed, hop))
    && (forall link :: link in step.links ==> link in inputs.topology.links)
  }

  lemma AcceptedStep(inputs: PlanInputs, plan: ReconstructionPlan, step: RestoreStep)
    requires ValidInputs(inputs) && ValidPlan(inputs, plan) && step in plan.restores
    ensures Sound(inputs, plan.failedGenerations, step)
  {
    var i :| 0 <= i < |plan.restores| && plan.restores[i] == step;
    assert StepOk(inputs, plan, plan.restores[i]);
    forall hop | hop in step.hops
      ensures Safe(inputs, plan.failedGenerations, hop)
    {
      var k :| 0 <= k < |step.hops| && step.hops[k] == hop;
      assert HopOk(inputs, plan, step.hops[k]);
    }
  }

  lemma AcceptedFence(inputs: PlanInputs, plan: ReconstructionPlan, key: SwitchKey)
    requires ValidInputs(inputs) && ValidPlan(inputs, plan) && key in plan.failedGenerations
    ensures key.Valid() && key in inputs.fenced
    ensures exists step :: step in plan.fences && step.failed == key
  {
    var k :| 0 <= k < |plan.failedGenerations| && plan.failedGenerations[k] == key;
    assert HasFence(plan.fences, plan.failedGenerations[k]);
    var i :| 0 <= i < |plan.fences| && plan.fences[i].failed == key;
    assert FenceOk(inputs, plan, plan.fences[i]);
    assert plan.fences[i] in plan.fences;
  }

  /** An accepted plan accounts for everything that a failed generation invalidates. */
  lemma AcceptedCovers(inputs: PlanInputs, plan: ReconstructionPlan, d: Demand)
    requires ValidInputs(inputs) && ValidPlan(inputs, plan) && plan.closureComplete
    requires d.failed in plan.failedGenerations
    requires Invalidates(inputs.topology, SwitchNode(d.failed), DependentNode(d.dependent))
    ensures Restored(plan.restores, d) || Explained(plan.unresolved, d)
  {
    DemandsComplete(inputs, plan.failedGenerations, d);
    ResolvedMeans(plan, d);
  }

  lemma AcceptedCapacity(inputs: PlanInputs, plan: ReconstructionPlan, key: SwitchKey)
    requires ValidInputs(inputs) && ValidPlan(inputs, plan) && key in inputs.topology.switches
    ensures |StepsThroughKey(plan.restores, |plan.restores|, key)| <= inputs.topology.switches[key].capacityScore
  {
    UsageCounts(plan.restores, |plan.restores|, key);
  }

  /**
   An accepted plan belongs to the current epoch, process, topology and policy; every generation it
   plans around is fenced; every step moves a dependent to generations that are neither lost, fenced
   nor contradicted and through known links; no demand is restored twice; no generation carries more
   steps than its declared capacity.
   */
  lemma AcceptedIsSafe(inputs: PlanInputs, plan: ReconstructionPlan)
    requires ValidInputs(inputs) && ValidPlan(inputs, plan)
    ensures plan.sealed && plan.epoch == inputs.epoch && plan.boot == inputs.boot && plan.topology == inputs.topology
    ensures plan.policy.assessment == inputs.assessment && plan.policy.planning == inputs.planning
    ensures plan.policy.candidates == inputs.candidates
    ensures plan.failedGenerations != []
    ensures forall key :: key in plan.failedGenerations ==> key in inputs.fenced
    ensures forall step :: step in plan.restores ==> Sound(inputs, plan.failedGenerations, step)
    ensures Sorted(Targets(plan.restores), DemandLess)
    ensures forall key :: key in inputs.topology.switches ==>
              |StepsThroughKey(plan.restores, |plan.restores|, key)| <= inputs.topology.switches[key].capacityScore
    ensures plan.feasibility in {ProvenInfeasible, NothingToRestore} ==> plan.restores == []
    ensures plan.feasibility.ProvenInfeasible? ==> plan.unresolved != []
  {
    AcceptedOrder(inputs, plan);
    forall key | key in plan.failedGenerations
      ensures key in inputs.fenced
    {
      AcceptedFence(inputs, plan, key);
    }
    forall step | step in plan.restores
      ensures Sound(inputs, plan.failedGenerations, step)
    {
      AcceptedStep(inputs, plan, step);
    }
    forall key | key in inputs.topology.switches
      ensures |StepsThroughKey(plan.restores, |plan.restores|, key)| <= inputs.topology.switches[key].capacityScore
    {
      AcceptedCapacity(inputs, plan, key);
    }
  }
}
