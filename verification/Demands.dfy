/**
 The demand set of a failure: which dependents must move off which failed generations
 (build_demand_plan, src/plan/planning_core.cpp:413-471).
 */
module Demands {
  import opened Identity
  import opened Canonical
  import opened Traversal
  import opened Topology
  import opened Closure
  import opened ClosureSearch
  import opened Candidates
  import opened Plan
  import opened Eligibility

  datatype DemandPlan = DemandPlan(
    demands: seq<Demand>,
    options: seq<DemandOptions>,
    fences: seq<FenceStep>,
    closureComplete: bool,
    enumerationComplete: bool)

  function Roots(failed: seq<SwitchKey>): (roots: seq<ClosureNode>)
    ensures |roots| == |failed|
    ensures forall k :: 0 <= k < |failed| ==> roots[k] == SwitchNode(failed[k])
  {
    seq(|failed|, k requires 0 <= k < |failed| => SwitchNode(failed[k]))
  }

  ghost function Whole(inputs: PlanInputs, failed: seq<SwitchKey>): (closure: DependencyClosure)
    requires Valid(inputs.topology)
  {
    ClosureFrom(inputs.topology, Roots(failed), ClosureBudget(inputs.limits))
  }

  ghost function Single(inputs: PlanInputs, root: SwitchKey): (closure: DependencyClosure)
    requires Valid(inputs.topology)
  {
    ClosureFrom(inputs.topology, [SwitchNode(root)], ClosureBudget(inputs.limits))
  }

  /** Every root was present and no bound stopped the traversal. */
  ghost predicate ClosureComplete(inputs: PlanInputs, failed: seq<SwitchKey>)
    requires Valid(inputs.topology)
  {
    !Whole(inputs, failed).state.Truncated? && Whole(inputs, failed).rootsAbsent == 0
  }

  function Fence(root: SwitchKey, closure: DependencyClosure): (step: FenceStep) {
    FenceStep(root, closure.state, |closure.members|, closure.omittedFrontier)
  }

  ghost function Fences(inputs: PlanInputs, failed: seq<SwitchKey>): (fences: seq<FenceStep>)
    requires Valid(inputs.topology)
    ensures |fences| == |failed|
    ensures forall k :: 0 <= k < |failed| ==> fences[k] == Fence(failed[k], Single(inputs, failed[k]))
  {
    seq(|failed|, k requires 0 <= k < |failed| => Fence(failed[k], Single(inputs, failed[k])))
  }

  function Attribute(root: SwitchKey, dependents: seq<DependentRef>): (demands: seq<Demand>)
    ensures |demands| == |dependents|
    ensures forall k :: 0 <= k < |dependents| ==> demands[k] == Demand(dependents[k], root)
  {
    seq(|dependents|, k requires 0 <= k < |dependents| => Demand(dependents[k], root))
  }

  function Gathered(failed: seq<SwitchKey>, lists: seq<seq<DependentRef>>, n: nat): (demands: seq<Demand>)
    requires n <= |failed| == |lists|
  {
    if n == 0 then [] else Gathered(failed, lists, n - 1) + Attribute(failed[n - 1], lists[n - 1])
  }

  ghost function DependentLists(inputs: PlanInputs, failed: seq<SwitchKey>): (lists: seq<seq<DependentRef>>)
    requires Valid(inputs.topology)
    ensures |lists| == |failed|
    ensures forall k :: 0 <= k < |failed| ==> lists[k] == Single(inputs, failed[k]).dependents
  {
    seq(|failed|, k requires 0 <= k < |failed| => Single(inputs, failed[k]).dependents)
  }

  ghost function Attributed(inputs: PlanInputs, failed: seq<SwitchKey>): (demands: seq<Demand>)
    requires Valid(inputs.topology)
  {
    Gathered(failed, DependentLists(inputs, failed), |failed|)
  }

  /** Every dependent of every root, in canonical order. */
  ghost function DemandsOf(inputs: PlanInputs, failed: seq<SwitchKey>): (demands: seq<Demand>)
    requires Valid(inputs.topology)
  {
    List(Attributed(inputs, failed), DemandLess)
  }

  function OptionsOf(inputs: PlanInputs, demands: seq<Demand>): (options: seq<DemandOptions>)
    ensures |options| == |demands|
    ensures forall k :: 0 <= k < |demands| ==> options[k] == Evaluate(inputs, demands[k])
  {
    seq(|demands|, k requires 0 <= k < |demands| => Evaluate(inputs, demands[k]))
  }

  predicate AllEnumerated(options: seq<DemandOptions>) {
    forall k :: 0 <= k < |options| ==> options[k].enumerationComplete
  }

  // ---- Completeness ----

  lemma AttributeMeans(root: SwitchKey, dependents: seq<DependentRef>, d: Demand)
    ensures d in Attribute(root, dependents) <==> d.failed == root && d.dependent in dependents
  {
    var added := Attribute(root, dependents);
    if d in added {
      var k :| 0 <= k < |added| && added[k] == d;
      assert dependents[k] in dependents;
    }
    if d.failed == root && d.dependent in dependents {
      var k :| 0 <= k < |dependents| && dependents[k] == d.dependent;
      assert added[k] == d;
    }
  }

  lemma SingleDependents(inputs: PlanInputs, root: SwitchKey, dependent: DependentRef)
    requires Valid(inputs.topology)
    ensures dependent in Single(inputs, root).dependents <==> DependentNode(dependent) in Single(inputs, root).members
  {
  }

  lemma {:induction false} GatheredMeans(failed: seq<SwitchKey>, lists: seq<seq<DependentRef>>, n: nat, d: Demand)
    requires n <= |failed| == |lists|
    ensures d in Gathered(failed, lists, n) <==>
              exists k :: 0 <= k < n && failed[k] == d.failed && d.dependent in lists[k]
  {
    if n > 0 {
      GatheredMeans(failed, lists, n - 1, d);
      AttributeMeans(failed[n - 1], lists[n - 1], d);
    }
  }

  lemma AttributedMeans(inputs: PlanInputs, failed: seq<SwitchKey>, d: Demand)
    requires Valid(inputs.topology)
    ensures d in Attributed(inputs, failed) <==>
              d.failed in failed && DependentNode(d.dependent) in Single(inputs, d.failed).members
  {
    GatheredMeans(failed, DependentLists(inputs, failed), |failed|, d);
    SingleDependents(inputs, d.failed, d.dependent);
  }

  lemma DemandsSorted(inputs: PlanInputs, failed: seq<SwitchKey>)
    requires Valid(inputs.topology)
    ensures Sorted(DemandsOf(inputs, failed), DemandLess)
  {
    DemandOrder();
    ListSorted(Attributed(inputs, failed), DemandLess);
  }

  lemma MemberIsNode(t: TopologySnapshot, root: SwitchKey, limits: Budget, dependent: DependentRef)
    requires Valid(t) && DependentNode(dependent) in ClosureFrom(t, [SwitchNode(root)], limits).members
    ensures dependent.Valid()
  {
    ListOne(SwitchNode(root));
    var x := DependentNode(dependent);
    MemberMeans(t, [SwitchNode(root)], Traversed(t, [SwitchNode(root)], limits), x);
    assert x in t.nodes;
    var i := IndexOf(t.nodes, x);
    assert t.nodes[i].Valid();
  }

  /** Every demand is a real one: the dependent is invalidated by that failed generation. */
  lemma DemandsSound(inputs: PlanInputs, failed: seq<SwitchKey>, d: Demand)
    requires Valid(inputs.topology) && d in DemandsOf(inputs, failed)
    ensures d.failed in failed && d.dependent.Valid()
    ensures Invalidates(inputs.topology, SwitchNode(d.failed), DependentNode(d.dependent))
  {
    AttributedMeans(inputs, failed, d);
    var budget := ClosureBudget(inputs.limits);
    MemberIsNode(inputs.topology, d.failed, budget, d.dependent);
    ClosureExact(inputs.topology, [SwitchNode(d.failed)], budget, DependentNode(d.dependent));
  }

  /**
   When the plan's closure is complete, the demand set is exactly every pair of a failed
   generation and a dependent it invalidates, even where the traversal from that one generation
   is flagged truncated.
   */
  lemma DemandsComplete(inputs: PlanInputs, failed: seq<SwitchKey>, d: Demand)
    requires Valid(inputs.topology) && ClosureComplete(inputs, failed)
    ensures d in DemandsOf(inputs, failed) <==>
              d.failed in failed && Invalidates(inputs.topology, SwitchNode(d.failed), DependentNode(d.dependent))
  {
    AttributedMeans(inputs, failed, d);
    if d.failed in failed {
      var k :| 0 <= k < |failed| && failed[k] == d.failed;
      assert Roots(failed)[k] == SwitchNode(d.failed);
      OneRootExact(inputs.topology, Roots(failed), ClosureBudget(inputs.limits), SwitchNode(d.failed),
                   DependentNode(d.dependent));
    }
  }

  // ---- The construction ----

  method SingleClosure(inputs: PlanInputs, root: SwitchKey) returns (closure: DependencyClosure)
    requires Valid(inputs.topology)
    ensures closure == Single(inputs, root)
  {
    closure := ComputeClosure(inputs.topology, [SwitchNode(root)], ClosureBudget(inputs.limits));
  }

  method AttributeRoots(inputs: PlanInputs, failed: seq<SwitchKey>) returns (fences: seq<FenceStep>, found: seq<Demand>)
    requires Valid(inputs.topology)
    ensures fences == Fences(inputs, failed)
    ensures found == Attributed(inputs, failed)
  {
    fences, found := [], [];
    ghost var steps, lists := Fences(inputs, failed), DependentLists(inputs, failed);
    for k := 0 to |failed|
      invariant fences == steps[..k]
      invariant found == Gathered(failed, lists, k)
    {
      var closure := SingleClosure(inputs, failed[k]);
      assert steps[k] == Fence(failed[k], closure) && lists[k] == closure.dependents;
      TakeNext(steps, k);
      fences := fences + [Fence(failed[k], closure)];
      found := found + Attribute(failed[k], closure.dependents);
    }
  }

  method EvaluateAll(inputs: PlanInputs, demands: seq<Demand>) returns (options: seq<DemandOptions>, enumerated: bool)
    requires Table(inputs.candidates)
    ensures options == OptionsOf(inputs, demands)
    ensures enumerated == AllEnumerated(options)
  {
    options, enumerated := [], true;
    for k := 0 to |demands|
      invariant |options| == k && forall j :: 0 <= j < k ==> options[j] == Evaluate(inputs, demands[j])
      invariant enumerated == AllEnumerated(options)
    {
      var evaluation := EvaluateDemand(inputs, demands[k]);
      if !evaluation.enumerationComplete {
        enumerated := false;
      }
      options := options + [evaluation];
    }
  }

  method BuildDemandPlan(inputs: PlanInputs, failed: seq<SwitchKey>) returns (plan: DemandPlan)
    requires ValidInputs(inputs)
    ensures plan.demands == DemandsOf(inputs, failed)
    ensures plan.options == OptionsOf(inputs, plan.demands)
    ensures plan.fences == Fences(inputs, failed)
    ensures plan.closureComplete == ClosureComplete(inputs, failed)
    ensures plan.enumerationComplete == AllEnumerated(plan.options)
  {
    var whole := ComputeClosure(inputs.topology, Roots(failed), ClosureBudget(inputs.limits));
    var closureComplete := (whole.state.Complete? || whole.state.Empty?) && whole.rootsAbsent == 0;
    var fences, found := AttributeRoots(inputs, failed);
    var demands := List(found, DemandLess);
    var options, enumerated := EvaluateAll(inputs, demands);
    plan := DemandPlan(demands, options, fences, closureComplete, enumerated);
  }
}
