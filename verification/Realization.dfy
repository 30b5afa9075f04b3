/**
 Which plans the assignment phase can lead to (src/plan/planning_core.cpp:514-703): every choice
 within capacity is realised by a plan, among them the choice that serves nothing and the choices
 that serve one demand with one of its alternatives.
 */
module Realization {
  import opened Identity
  import opened Topology
  import opened Candidates
  import opened Plan
  import opened Eligibility
  import opened Demands
  import opened Planner
  import Assignment

  // ---- The capacity map ----

  ghost function ChargedKeys(options: seq<DemandOptions>): (keys: set<SwitchKey>)
    ensures forall key :: key in keys <==> Charged(options, key)
  {
    set i, j, key | 0 <= i < |options| && 0 <= j < |options[i].eligible| &&
      key in options[i].eligible[j].capacityKeys :: key
  }

  ghost function CapacityFor(t: TopologySnapshot, options: seq<DemandOptions>): (capacity: Assignment.Capacity)
    ensures CapacityMap(t, options, capacity)
  {
    map key | key in ChargedKeys(options) :: CapacityOf(t, key)
  }

  // ---- Choices ----

  /** Serves demand i with alternative j, and nothing else. */
  function Only(count: nat, i: nat, j: nat): (choice: seq<nat>)
    ensures |choice| == count
    ensures forall k :: 0 <= k < count ==> choice[k] == if k == i then j else Assignment.SKIPPED
  {
    seq(count, k => if k == i then j else Assignment.SKIPPED)
  }

  lemma {:induction false} OnlyUsage(problem: seq<seq<Assignment.Use>>, i: nat, j: nat, n: nat, key: SwitchKey)
    requires n <= |problem| && (i < |problem| ==> j < |problem[i]|)
    ensures Assignment.Typed(problem, Only(|problem|, i, j), n)
    ensures Assignment.Usage(problem, Only(|problem|, i, j), n, key) <= if i < n then 1 else 0
  {
    var choice := Only(|problem|, i, j);
    forall k | 0 <= k < n
      ensures Assignment.ChoiceAt(problem, choice, k)
    {
    }
    if n > 0 {
      OnlyUsage(problem, i, j, n - 1, key);
    }
  }

  /** One dependent always fits, since every generation that can be charged has room for one. */
  lemma OnlyChoosable(inputs: PlanInputs, options: seq<DemandOptions>, i: nat, j: nat)
    requires Table(inputs.candidates) && Evaluated(inputs, options)
    requires i < |options| ==> j < |options[i].eligible|
    ensures Choosable(inputs.topology, options, Only(|options|, i, j), false)
    ensures Selectable(options, Only(|options|, i, j))
  {
    var problem, capacity := Alternatives(options), CapacityFor(inputs.topology, options);
    var choice := Only(|options|, i, j);
    forall key | key in capacity
      ensures Assignment.Typed(problem, choice, |problem|) &&
              Assignment.Usage(problem, choice, |problem|, key) <= capacity[key]
    {
      OnlyUsage(problem, i, j, |problem|, key);
      CapacityPositive(inputs, options, capacity, key);
    }
    OnlyUsage(problem, i, j, |problem|, SwitchKey(0, 0));
    assert Assignment.Feasible(problem, capacity, choice);
    TypedSelectable(inputs, options, choice);
  }

  // ---- The plan of a choice ----

  ghost function PlanOf(inputs: PlanInputs, failed: seq<SwitchKey>, choice: seq<nat>,
                        proven: bool): (plan: ReconstructionPlan)
    requires ValidInputs(inputs) && Selectable(OptionsOf(inputs, DemandsOf(inputs, failed)), choice)
  {
    var options := OptionsOf(inputs, DemandsOf(inputs, failed));
    var restores := Restores(options, choice, |options|);
    var unresolved := Unresolved(options, choice, proven, |options|);
    ReconstructionPlan(
      if inputs.planId == 0 then 1 else inputs.planId, inputs.epoch, inputs.boot, failed,
      Fences(inputs, failed), restores, unresolved,
      FeasibilityOf(ClosureComplete(inputs, failed), AllEnumerated(options), proven, |options|, |restores|),
      ClosureComplete(inputs, failed), inputs.planning.allowWithholdOnUnresolved && unresolved != [],
      inputs.topology, Basis(inputs), true)
  }

  lemma PlanOfRealizes(inputs: PlanInputs, failed: seq<SwitchKey>, choice: seq<nat>, proven: bool)
    requires ValidInputs(inputs) && Selectable(OptionsOf(inputs, DemandsOf(inputs, failed)), choice)
    requires Choosable(inputs.topology, OptionsOf(inputs, DemandsOf(inputs, failed)), choice, proven)
    ensures Realizes(inputs, failed, PlanOf(inputs, failed, choice, proven), choice, proven)
  {
  }

  /** The plan that serves demand i with alternative j, or nothing when there is no such demand. */
  lemma OnlyRealized(inputs: PlanInputs, failed: seq<SwitchKey>, i: nat, j: nat)
    returns (plan: ReconstructionPlan, choice: seq<nat>)
    requires ValidInputs(inputs)
    requires var options := OptionsOf(inputs, DemandsOf(inputs, failed)); i < |options| ==> j < |options[i].eligible|
    ensures Realizes(inputs, failed, plan, choice, false)
    ensures choice == Only(|DemandsOf(inputs, failed)|, i, j)
  {
    var options := OptionsOf(inputs, DemandsOf(inputs, failed));
    OptionsEvaluated(inputs, DemandsOf(inputs, failed));
    OnlyChoosable(inputs, options, i, j);
    choice := Only(|options|, i, j);
    PlanOfRealizes(inputs, failed, choice, false);
    plan := PlanOf(inputs, failed, choice, false);
  }

  // ---- The optimum ----

  /** The choice of a completed search: the one optimum, which always exists. */
  ghost predicate Optimal(inputs: PlanInputs, failed: seq<SwitchKey>, choice: seq<nat>)
    requires ValidInputs(inputs)
  {
    var options := OptionsOf(inputs, DemandsOf(inputs, failed));
    Selectable(options, choice) && Choosable(inputs.topology, options, choice, true)
  }

  lemma OptimalExists(inputs: PlanInputs, failed: seq<SwitchKey>)
    requires ValidInputs(inputs)
    ensures exists choice :: Optimal(inputs, failed, choice)
  {
    var options := OptionsOf(inputs, DemandsOf(inputs, failed));
    OptionsEvaluated(inputs, DemandsOf(inputs, failed));
    var choice := Assignment.OptimumExists(Alternatives(options), CapacityFor(inputs.topology, options));
    TypedSelectable(inputs, options, choice);
    assert Optimal(inputs, failed, choice);
  }

  lemma OptimalUnique(inputs: PlanInputs, failed: seq<SwitchKey>, a: seq<nat>, b: seq<nat>)
    requires ValidInputs(inputs) && Optimal(inputs, failed, a) && Optimal(inputs, failed, b)
    ensures a == b
  {
    var options := OptionsOf(inputs, DemandsOf(inputs, failed));
    var problem: seq<seq<Assignment.Use>> := Alternatives(options);
    var capacity :| CapacityMap(inputs.topology, options, capacity) && Assignment.Feasible(problem, capacity, a)
                    && Assignment.Optimum(problem, capacity, a);
    var other :| CapacityMap(inputs.topology, options, other) && Assignment.Feasible(problem, other, b)
                 && Assignment.Optimum(problem, other, b);
    CapacityUnique(inputs.topology, options, capacity, other);
    Assignment.OptimumUnique(problem, capacity, a, b);
  }

  ghost function OptimalChoice(inputs: PlanInputs, failed: seq<SwitchKey>): (choice: seq<nat>)
    requires ValidInputs(inputs)
    ensures Optimal(inputs, failed, choice)
  {
    OptimalExists(inputs, failed);
    var best :| Optimal(inputs, failed, best);
    best
  }
}
