/**
 The planner against the independent validator: exactly which plans of the planner the validator
 accepts (src/plan/planning_core.cpp:473-704 against src/plan/validator.cpp:47-245).
 */
module PlannerValidates {
  import opened Identity
  import opened Outcome
  import opened Canonical
  import opened Topology
  import opened Traversal
  import opened Closure
  import opened Candidates
  import opened Plan
  import opened Eligibility
  import opened Demands
  import opened Planner
  import opened PlanProperties
  import opened Realization
  import opened Validator
  import Assignment

  // ---- Steps ----

  /** The options are those of the demands, and the choice picks from them. */
  ghost predicate Chosen(inputs: PlanInputs, demands: seq<Demand>, options: seq<DemandOptions>, choice: seq<nat>) {
    && Table(inputs.candidates) && options == OptionsOf(inputs, demands)
    && Selectable(options, choice)
  }

  lemma OptionDemand(inputs: PlanInputs, demands: seq<Demand>, i: nat)
    requires i < |demands|
    ensures OptionsOf(inputs, demands)[i].demand == demands[i]
  {
  }

  /** A restore step names a demand and an admissible alternative for it. */
  ghost predicate Backed(inputs: PlanInputs, demands: seq<Demand>, step: RestoreStep) {
    exists d, c ::
      && d in demands && c in inputs.candidates && c.Valid() && c.dependent == d.dependent
      && Admissible(inputs, d, c) && step == StepOf(d, c)
  }

  lemma StepBacked(inputs: PlanInputs, demands: seq<Demand>, options: seq<DemandOptions>, choice: seq<nat>,
                   step: RestoreStep)
    requires Chosen(inputs, demands, options, choice)
    requires step in Restores(options, choice, |options|)
    ensures Backed(inputs, demands, step)
  {
    RestoresMeans(options, choice, |options|, step);
    var i :| 0 <= i < |options| && choice[i] != Assignment.SKIPPED
             && step == StepOf(options[i].demand, options[i].eligible[choice[i]].candidate);
    OptionDemand(inputs, demands, i);
    EvaluateExact(inputs, demands[i], options[i].eligible[choice[i]]);
    EligibleValid(inputs, demands[i], choice[i]);
    assert demands[i] in demands;
  }

  /** No hop of a restore step is any failed generation, not just its own. */
  lemma HopSafe(inputs: PlanInputs, failed: seq<SwitchKey>, d: Demand, c: ReconstructionCandidate, hop: SwitchKey)
    requires Ready(inputs, failed) && Admissible(inputs, d, c) && hop in c.hops
    ensures hop !in failed
    ensures hop !in inputs.fenced && hop in inputs.topology.switches
    ensures !inputs.assess(hop).fenceRequired && inputs.assess(hop).outcome != Code.Conflict
  {
    assert HopAdmissible(inputs, d, c, hop);
    forall k | 0 <= k < |failed|
      ensures failed[k] != hop
    {
      assert Failing(inputs, failed[k]);
    }
  }

  lemma StepHopsOk(inputs: PlanInputs, failed: seq<SwitchKey>, plan: ReconstructionPlan, d: Demand,
                   c: ReconstructionCandidate)
    requires Ready(inputs, failed) && plan.failedGenerations == failed && Admissible(inputs, d, c)
    ensures forall k :: 0 <= k < |c.hops| ==> HopOk(inputs, plan, c.hops[k])
  {
    forall k | 0 <= k < |c.hops|
      ensures HopOk(inputs, plan, c.hops[k])
    {
      HopSafe(inputs, failed, d, c, c.hops[k]);
    }
  }

  lemma AdmissibleStepOk(inputs: PlanInputs, failed: seq<SwitchKey>, plan: ReconstructionPlan, d: Demand,
                         c: ReconstructionCandidate)
    requires Ready(inputs, failed) && plan.failedGenerations == failed
    requires d.failed in failed && d.dependent.Valid() && c.Valid() && Admissible(inputs, d, c)
    ensures StepOk(inputs, plan, StepOf(d, c)) <==> forall k :: 0 <= k < |c.links| ==>
              c.links[k] in inputs.topology.links
  {
    StepHopsOk(inputs, failed, plan, d, c);
    var k :| 0 <= k < |failed| && failed[k] == d.failed;
    assert Failing(inputs, failed[k]);
  }

  lemma BackedStepOk(inputs: PlanInputs, failed: seq<SwitchKey>, plan: ReconstructionPlan, step: RestoreStep)
    requires ValidInputs(inputs) && Ready(inputs, failed) && plan.failedGenerations == failed
    requires Backed(inputs, DemandsOf(inputs, failed), step)
    ensures StepOk(inputs, plan, step) <==> forall k :: 0 <= k < |step.links| ==> step.links[k] in inputs.topology.links
  {
    var demands := DemandsOf(inputs, failed);
    var d, c :|
      && d in demands && c in inputs.candidates && c.Valid() && c.dependent == d.dependent
      && Admissible(inputs, d, c) && step == StepOf(d, c);
    DemandsSound(inputs, failed, d);
    AdmissibleStepOk(inputs, failed, plan, d, c);
  }

  // ---- Order ----

  /** The demands that were skipped, or those that were not, in order. */
  ghost function Kept(demands: seq<Demand>, choice: seq<nat>, skipped: bool, n: nat): (kept: seq<Demand>)
    requires n <= |demands| == |choice|
  {
    if n == 0 then []
    else
      Kept(demands, choice, skipped, n - 1)
      + if (choice[n - 1] == Assignment.SKIPPED) == skipped then [demands[n - 1]] else []
  }

  lemma {:induction false} KeptSorted(demands: seq<Demand>, choice: seq<nat>, skipped: bool, n: nat)
    requires n <= |demands| == |choice| && Sorted(demands, DemandLess)
    ensures Sorted(Kept(demands, choice, skipped, n), DemandLess)
    ensures forall d :: d in Kept(demands, choice, skipped, n) ==> exists k :: 0 <= k < n && demands[k] == d
  {
    if n > 0 {
      KeptSorted(demands, choice, skipped, n - 1);
      var before := Kept(demands, choice, skipped, n - 1);
      forall i | 0 <= i < |before|
        ensures DemandLess(before[i], demands[n - 1])
      {
        assert before[i] in before;
        var k :| 0 <= k < n - 1 && demands[k] == before[i];
      }
    }
  }

  lemma {:induction false} RestoresKept(options: seq<DemandOptions>, demands: seq<Demand>, choice: seq<nat>, n: nat)
    requires Selectable(options, choice) && n <= |options| == |demands|
    requires forall k :: 0 <= k < |demands| ==> options[k].demand == demands[k]
    ensures var restores, kept := Restores(options, choice, n), Kept(demands, choice, false, n);
            |restores| == |kept| && forall i :: 0 <= i < |kept| ==> Target(restores[i]) == kept[i]
  {
    if n > 0 {
      RestoresKept(options, demands, choice, n - 1);
    }
  }

  function Subject(entry: UnresolvedDependent): (d: Demand) {
    Demand(entry.dependent, entry.coversFailed)
  }

  lemma {:induction false} UnresolvedKept(options: seq<DemandOptions>, demands: seq<Demand>, choice: seq<nat>,
                                          proven: bool, n: nat)
    requires n <= |options| == |demands| == |choice|
    requires forall k :: 0 <= k < |demands| ==> options[k].demand == demands[k]
    ensures var unresolved, kept := Unresolved(options, choice, proven, n), Kept(demands, choice, true, n);
            |unresolved| == |kept| && forall i :: 0 <= i < |kept| ==> Subject(unresolved[i]) == kept[i]
  {
    if n > 0 {
      UnresolvedKept(options, demands, choice, proven, n - 1);
    }
  }

  lemma OrderedSteps(restores: seq<RestoreStep>, kept: seq<Demand>)
    requires Sorted(kept, DemandLess) && |restores| == |kept| && forall i :: 0 <= i < |kept| ==>
               Target(restores[i]) == kept[i]
    ensures forall i :: 0 < i < |restores| ==> !RestoreLess(restores[i], restores[i - 1])
    ensures forall i, j :: 0 <= i < j < |restores| ==> Target(restores[i]) != Target(restores[j])
  {
    DemandOrder();
    DependentOrder();
    KeyOrder();
    forall i | 0 < i < |restores|
      ensures !RestoreLess(restores[i], restores[i - 1])
    {
      assert DemandLess(kept[i - 1], kept[i]);
    }
    forall i, j | 0 <= i < j < |restores|
      ensures Target(restores[i]) != Target(restores[j])
    {
      assert DemandLess(kept[i], kept[j]);
    }
  }

  lemma OrderedEntries(unresolved: seq<UnresolvedDependent>, kept: seq<Demand>)
    requires Sorted(kept, DemandLess) && |unresolved| == |kept| && forall i :: 0 <= i < |kept| ==>
               Subject(unresolved[i]) == kept[i]
    ensures forall i :: 0 < i < |unresolved| ==> !UnresolvedLess(unresolved[i], unresolved[i - 1])
  {
    DependentOrder();
    KeyOrder();
    forall i | 0 < i < |unresolved|
      ensures !UnresolvedLess(unresolved[i], unresolved[i - 1])
    {
      assert DemandLess(kept[i - 1], kept[i]);
    }
  }

  // ---- Capacity ----

  /** Each alternative consumes capacity of exactly the generations it runs through. */
  ghost predicate ChargesItsHops(options: seq<DemandOptions>) {
    forall i, j, key :: 0 <= i < |options| && 0 <= j < |options[i].eligible| ==>
      (key in options[i].eligible[j].capacityKeys <==> key in options[i].eligible[j].candidate.hops)
  }

  lemma EvaluatedCharges(inputs: PlanInputs, options: seq<DemandOptions>)
    requires Table(inputs.candidates) && Evaluated(inputs, options)
    ensures ChargesItsHops(options)
  {
    forall i, j, key | 0 <= i < |options| && 0 <= j < |options[i].eligible|
      ensures key in options[i].eligible[j].capacityKeys <==> key in options[i].eligible[j].candidate.hops
    {
      EvaluateExact(inputs, options[i].demand, options[i].eligible[j]);
    }
  }

  lemma SelectableTyped(options: seq<DemandOptions>, choice: seq<nat>, n: nat)
    requires Selectable(options, choice) && n <= |options|
    ensures Assignment.Typed(Alternatives(options), choice, n)
  {
  }

  /** How many of the first n choices run through a generation. */
  ghost function Through(options: seq<DemandOptions>, choice: seq<nat>, n: nat, key: SwitchKey): (count: nat)
    requires Selectable(options, choice) && n <= |options|
  {
    if n == 0 then 0
    else
      Through(options, choice, n - 1, key)
      + if choice[n - 1] != Assignment.SKIPPED && key in options[n - 1].eligible[choice[n - 1]].candidate.hops then 1
        else 0
  }

  lemma {:induction false} StepsThrough(options: seq<DemandOptions>, choice: seq<nat>, n: nat, key: SwitchKey)
    requires Selectable(options, choice) && n <= |options|
    ensures StepUsage(Restores(options, choice, n), |Restores(options, choice, n)|, key) ==
            Through(options, choice, n, key)
  {
    if n > 0 {
      StepsThrough(options, choice, n - 1, key);
      var before := Restores(options, choice, n - 1);
      if choice[n - 1] != Assignment.SKIPPED {
        var step := StepOf(options[n - 1].demand, options[n - 1].eligible[choice[n - 1]].candidate);
        UsageAppend(before, step, key);
        assert Restores(options, choice, n) == before + [step];
      } else {
        assert Restores(options, choice, n) == before;
      }
    }
  }

  lemma {:induction false} ChargesThrough(options: seq<DemandOptions>, choice: seq<nat>, n: nat, key: SwitchKey)
    requires ChargesItsHops(options) && Selectable(options, choice) && n <= |options|
    ensures Assignment.Typed(Alternatives(options), choice, n)
    ensures Assignment.Usage(Alternatives(options), choice, n, key) == Through(options, choice, n, key)
  {
    SelectableTyped(options, choice, n);
    if n > 0 {
      ChargesThrough(options, choice, n - 1, key);
    }
  }

  /** The validator's count of steps through a generation is the planner's use of its capacity. */
  lemma UsageAgrees(options: seq<DemandOptions>, choice: seq<nat>, key: SwitchKey)
    requires ChargesItsHops(options) && Selectable(options, choice)
    ensures Assignment.Typed(Alternatives(options), choice, |options|)
    ensures StepUsage(Restores(options, choice, |options|), |Restores(options, choice, |options|)|, key)
         == Assignment.Usage(Alternatives(options), choice, |options|, key)
  {
    StepsThrough(options, choice, |options|, key);
    ChargesThrough(options, choice, |options|, key);
  }

  lemma UsageAppend(restores: seq<RestoreStep>, step: RestoreStep, key: SwitchKey)
    ensures StepUsage(restores + [step], |restores| + 1, key)
         == StepUsage(restores, |restores|, key) + if key in step.hops then 1 else 0
  {
    UsagePrefix(restores, step, |restores|, key);
  }

  lemma {:induction false} UsagePrefix(restores: seq<RestoreStep>, step: RestoreStep, n: nat, key: SwitchKey)
    requires n <= |restores|
    ensures StepUsage(restores + [step], n, key) == StepUsage(restores, n, key)
  {
    if n > 0 {
      UsagePrefix(restores, step, n - 1, key);
    }
  }

  lemma {:induction false} UnchargedUnused(options: seq<DemandOptions>, choice: seq<nat>, n: nat, key: SwitchKey)
    requires n <= |options| && Assignment.Typed(Alternatives(options), choice, n) && !Charged(options, key)
    ensures Assignment.Usage(Alternatives(options), choice, n, key) == 0
  {
    if n > 0 {
      UnchargedUnused(options, choice, n - 1, key);
      assert Assignment.ChoiceAt(Alternatives(options), choice, n - 1);
      if choice[n - 1] != Assignment.SKIPPED {
        assert key !in options[n - 1].eligible[choice[n - 1]].capacityKeys;
      }
    }
  }

  lemma RestoresWithinDeclared(inputs: PlanInputs, options: seq<DemandOptions>, choice: seq<nat>, proven: bool)
    requires Table(inputs.candidates) && Evaluated(inputs, options)
    requires Selectable(options, choice) && Choosable(inputs.topology, options, choice, proven)
    ensures WithinDeclared(inputs.topology, Restores(options, choice, |options|))
  {
    var problem: seq<seq<Assignment.Use>> := Alternatives(options);
    var capacity :| CapacityMap(inputs.topology, options, capacity) && Assignment.Feasible(problem, capacity, choice);
    var restores := Restores(options, choice, |options|);
    EvaluatedCharges(inputs, options);
    forall key | key in inputs.topology.switches
      ensures StepUsage(restores, |restores|, key) <= inputs.topology.switches[key].capacityScore
    {
      UsageAgrees(options, choice, key);
      if key !in capacity {
        UnchargedUnused(options, choice, |options|, key);
      }
    }
  }

  // ---- The planner's plans ----

  predicate AllFenced(inputs: PlanInputs, failed: seq<SwitchKey>) {
    forall k :: 0 <= k < |failed| ==> failed[k] in inputs.fenced
  }

  predicate LinksKnown(t: TopologySnapshot, restores: seq<RestoreStep>) {
    forall i, k :: 0 <= i < |restores| && 0 <= k < |restores[i].links| ==> restores[i].links[k] in t.links
  }

  /** All closures together are complete, yet that of one failed generation alone is flagged truncated. */
  ghost predicate FlaggedRoot(inputs: PlanInputs, failed: seq<SwitchKey>)
    requires ValidInputs(inputs)
  {
    ClosureComplete(inputs, failed) && exists k :: 0 <= k < |failed| && Single(inputs, failed[k]).state.Truncated?
  }

  /** The edges below the root use up the edge bound, and nothing depends on the node found last. */
  ghost predicate UsesUpEdges(inputs: PlanInputs, root: SwitchKey)
    requires ValidInputs(inputs)
  {
    var t, budget := inputs.topology, ClosureBudget(inputs.limits);
    && InDegrees(t, Single(inputs, root).members) == Bounds(t, budget).edges
    && EndsBare(Indexed(t), Traversed(t, [SwitchNode(root)], budget).queue)
  }

  /** When that happens, in terms of the dependency graph. */
  lemma FlaggedRootMeans(inputs: PlanInputs, failed: seq<SwitchKey>)
    requires ValidInputs(inputs)
    ensures FlaggedRoot(inputs, failed) <==>
              ClosureComplete(inputs, failed) && exists k :: 0 <= k < |failed| && UsesUpEdges(inputs, failed[k])
  {
    if ClosureComplete(inputs, failed) {
      forall k | 0 <= k < |failed|
        ensures Single(inputs, failed[k]).state.Truncated? <==> UsesUpEdges(inputs, failed[k])
      {
        assert Roots(failed)[k] == SwitchNode(failed[k]);
        OneRootTruncated(inputs.topology, Roots(failed), ClosureBudget(inputs.limits), SwitchNode(failed[k]));
      }
    }
  }

  /** Every alternative that may be chosen for some demand names links of the topology only. */
  ghost predicate EligibleLinksKnown(inputs: PlanInputs, failed: seq<SwitchKey>)
    requires ValidInputs(inputs)
  {
    var options := OptionsOf(inputs, DemandsOf(inputs, failed));
    forall i, j :: 0 <= i < |options| && 0 <= j < |options[i].eligible| ==>
      CandidateLinksKnown(inputs.topology, options[i].eligible[j].candidate)
  }

  predicate CandidateLinksKnown(t: TopologySnapshot, c: ReconstructionCandidate) {
    forall k :: 0 <= k < |c.links| ==> c.links[k] in t.links
  }

  lemma FenceOfEach(inputs: PlanInputs, failed: seq<SwitchKey>, plan: ReconstructionPlan, k: nat)
    requires ValidInputs(inputs) && Ready(inputs, failed) && k < |failed|
    requires plan.fences == Fences(inputs, failed)
    requires plan.closureComplete == ClosureComplete(inputs, failed)
    ensures HasFence(plan.fences, failed[k])
    ensures FenceOk(inputs, plan, plan.fences[k]) <==>
              && failed[k] in inputs.fenced
              && (Single(inputs, failed[k]).state.Truncated? ==> !ClosureComplete(inputs, failed))
  {
    assert Failing(inputs, failed[k]);
    assert plan.fences[k].failed == failed[k];
  }

  /** Which failed generations have a truncated closure of their own. */
  ghost function Flags(inputs: PlanInputs, failed: seq<SwitchKey>): (flags: seq<bool>)
    requires ValidInputs(inputs)
    ensures |flags| == |failed|
    ensures forall k :: 0 <= k < |failed| ==> flags[k] == Single(inputs, failed[k]).state.Truncated?
  {
    seq(|failed|, k requires 0 <= k < |failed| => Single(inputs, failed[k]).state.Truncated?)
  }

  lemma FencesJudged(inputs: PlanInputs, plan: ReconstructionPlan, flags: seq<bool>, complete: bool)
    requires |flags| == |plan.failedGenerations| == |plan.fences|
    requires forall k :: 0 <= k < |flags| ==> HasFence(plan.fences, plan.failedGenerations[k])
    requires forall k :: 0 <= k < |flags| ==>
               (FenceOk(inputs, plan, plan.fences[k]) <==>
                  plan.failedGenerations[k] in inputs.fenced && (flags[k] ==> !complete))
    ensures FencesOk(inputs, plan) <==>
              AllFenced(inputs, plan.failedGenerations) && !(complete && exists k :: 0 <= k < |flags| && flags[k])
  {
  }

  lemma PlannedFences(inputs: PlanInputs, failed: seq<SwitchKey>, plan: ReconstructionPlan)
    requires ValidInputs(inputs) && Ready(inputs, failed)
    requires plan.failedGenerations == failed && plan.fences == Fences(inputs, failed)
    requires plan.closureComplete == ClosureComplete(inputs, failed)
    ensures FencesOk(inputs, plan) <==> AllFenced(inputs, failed) && !FlaggedRoot(inputs, failed)
  {
    var flags := Flags(inputs, failed);
    forall k | 0 <= k < |failed|
      ensures HasFence(plan.fences, failed[k])
      ensures FenceOk(inputs, plan, plan.fences[k]) <==>
                failed[k] in inputs.fenced && (flags[k] ==> !plan.closureComplete)
    {
      FenceOfEach(inputs, failed, plan, k);
    }
    FencesJudged(inputs, plan, flags, plan.closureComplete);
    FlagsMean(inputs, failed, flags);
  }

  lemma FlagsMean(inputs: PlanInputs, failed: seq<SwitchKey>, flags: seq<bool>)
    requires ValidInputs(inputs) && flags == Flags(inputs, failed)
    ensures FlaggedRoot(inputs, failed) <==>
              ClosureComplete(inputs, failed) && exists k :: 0 <= k < |flags| && flags[k]
  {
    assert forall k :: 0 <= k < |failed| ==> flags[k] == Single(inputs, failed[k]).state.Truncated?;
  }

  lemma PlannedSteps(inputs: PlanInputs, failed: seq<SwitchKey>, plan: ReconstructionPlan, demands: seq<Demand>,
                     options: seq<DemandOptions>, choice: seq<nat>)
    requires ValidInputs(inputs) && Ready(inputs, failed) && plan.failedGenerations == failed
    requires demands == DemandsOf(inputs, failed) && Chosen(inputs, demands, options, choice)
    requires plan.restores == Restores(options, choice, |options|)
    ensures (forall i :: 0 <= i < |plan.restores| ==> StepOk(inputs, plan, plan.restores[i]))
            <==> LinksKnown(inputs.topology, plan.restores)
  {
    forall i | 0 <= i < |plan.restores|
      ensures StepOk(inputs, plan, plan.restores[i])
              <==> forall k :: 0 <= k < |plan.restores[i].links| ==> plan.restores[i].links[k] in inputs.topology.links
    {
      assert plan.restores[i] in plan.restores;
      StepBacked(inputs, demands, options, choice, plan.restores[i]);
      BackedStepOk(inputs, failed, plan, plan.restores[i]);
    }
  }

  lemma PlannedOrder(plan: ReconstructionPlan, demands: seq<Demand>, options: seq<DemandOptions>, choice: seq<nat>,
                     proven: bool)
    requires Selectable(options, choice) && |options| == |demands| && Sorted(demands, DemandLess)
    requires forall k :: 0 <= k < |demands| ==> options[k].demand == demands[k]
    requires plan.restores == Restores(options, choice, |options|)
    requires plan.unresolved == Unresolved(options, choice, proven, |options|)
    ensures OrderingOk(plan)
    ensures forall i, j :: 0 <= i < j < |plan.restores| ==> Target(plan.restores[i]) != Target(plan.restores[j])
  {
    RestoresKept(options, demands, choice, |options|);
    KeptSorted(demands, choice, false, |options|);
    OrderedSteps(plan.restores, Kept(demands, choice, false, |options|));
    UnresolvedKept(options, demands, choice, proven, |options|);
    KeptSorted(demands, choice, true, |options|);
    OrderedEntries(plan.unresolved, Kept(demands, choice, true, |options|));
  }

  lemma ResolvedMeans(plan: ReconstructionPlan, d: Demand)
    ensures Resolved(plan, d) <==> Restored(plan.restores, d) || Explained(plan.unresolved, d)
  {
    if Restored(plan.restores, d) {
      var step :| step in plan.restores && step.dependent == d.dependent && step.coversFailed == d.failed;
      var i :| 0 <= i < |plan.restores| && plan.restores[i] == step;
      assert Target(plan.restores[i]) == d;
    }
    if Explained(plan.unresolved, d) {
      var entry :| entry in plan.unresolved && entry.dependent == d.dependent && entry.coversFailed == d.failed;
      var i :| 0 <= i < |plan.unresolved| && plan.unresolved[i] == entry;
      assert Subject(plan.unresolved[i]) == d;
    }
  }

  lemma PlannedCoverage(inputs: PlanInputs, failed: seq<SwitchKey>, plan: ReconstructionPlan, choice: seq<nat>,
                        proven: bool)
    requires ValidInputs(inputs) && Realizes(inputs, failed, plan, choice, proven)
    ensures CoverageOk(inputs, plan)
  {
    forall d | d in DemandsOf(inputs, failed)
      ensures Resolved(plan, d)
    {
      PlanPartition(inputs, failed, plan, choice, proven, d);
      ResolvedMeans(plan, d);
    }
  }

  lemma PlannedCoherent(inputs: PlanInputs, failed: seq<SwitchKey>, plan: ReconstructionPlan, choice: seq<nat>,
                        proven: bool)
    requires ValidInputs(inputs) && Ready(inputs, failed) && Realizes(inputs, failed, plan, choice, proven)
    ensures Current(inputs, plan) && Coherent(plan)
  {
    var options := OptionsOf(inputs, DemandsOf(inputs, failed));
    Accounting(options, choice, proven, |options|);
  }

  lemma PlannedRestores(inputs: PlanInputs, failed: seq<SwitchKey>, plan: ReconstructionPlan, choice: seq<nat>,
                        proven: bool)
    requires ValidInputs(inputs) && Ready(inputs, failed) && Realizes(inputs, failed, plan, choice, proven)
    ensures RestoresOk(inputs, plan) <==> LinksKnown(inputs.topology, plan.restores)
    ensures OrderingOk(plan)
  {
    var demands := DemandsOf(inputs, failed);
    var options := OptionsOf(inputs, demands);
    OptionsEvaluated(inputs, demands);
    DemandsSorted(inputs, failed);
    forall k | 0 <= k < |demands|
      ensures options[k].demand == demands[k]
    {
      OptionDemand(inputs, demands, k);
    }
    PlannedSteps(inputs, failed, plan, demands, options, choice);
    PlannedOrder(plan, demands, options, choice, proven);
    RestoresWithinDeclared(inputs, options, choice, proven);
  }

  /**
   The validator accepts a plan of the planner, on the same inputs, exactly when every failed
   generation is fenced, the chosen alternatives name links of the topology, and no closure of a
   single root is flagged truncated while the closure of all of them is complete.
   */
  lemma PlannedIsValid(inputs: PlanInputs, failed: seq<SwitchKey>, plan: ReconstructionPlan, choice: seq<nat>,
                       proven: bool)
    requires ValidInputs(inputs) && Ready(inputs, failed) && Realizes(inputs, failed, plan, choice, proven)
    ensures ValidPlan(inputs, plan) <==>
              && AllFenced(inputs, failed)
              && !FlaggedRoot(inputs, failed)
              && LinksKnown(inputs.topology, plan.restores)
    ensures EligibleLinksKnown(inputs, failed) ==> LinksKnown(inputs.topology, plan.restores)
  {
    PlannedCoherent(inputs, failed, plan, choice, proven);
    PlannedFences(inputs, failed, plan);
    PlannedRestores(inputs, failed, plan, choice, proven);
    PlannedCoverage(inputs, failed, plan, choice, proven);
    if EligibleLinksKnown(inputs, failed) {
      ChosenLinksKnown(inputs, failed, plan, choice, proven);
    }
  }

  lemma ChosenLinksKnown(inputs: PlanInputs, failed: seq<SwitchKey>, plan: ReconstructionPlan, choice: seq<nat>,
                         proven: bool)
    requires ValidInputs(inputs) && Realizes(inputs, failed, plan, choice, proven) && EligibleLinksKnown(inputs, failed)
    ensures LinksKnown(inputs.topology, plan.restores)
  {
    var options := OptionsOf(inputs, DemandsOf(inputs, failed));
    forall i, k | 0 <= i < |plan.restores| && 0 <= k < |plan.restores[i].links|
      ensures plan.restores[i].links[k] in inputs.topology.links
    {
      assert plan.restores[i] in plan.restores;
      RestoresMeans(options, choice, |options|, plan.restores[i]);
      var n :| 0 <= n < |options| && choice[n] != Assignment.SKIPPED
               && plan.restores[i] == StepOf(options[n].demand, options[n].eligible[choice[n]].candidate);
      assert CandidateLinksKnown(inputs.topology, options[n].eligible[choice[n]].candidate);
    }
  }

  /** The plan that serves one demand through an alternative with an unknown link is refused. */
  lemma UnknownLinkRefused(inputs: PlanInputs, failed: seq<SwitchKey>, i: nat, j: nat)
    returns (plan: ReconstructionPlan, choice: seq<nat>)
    requires ValidInputs(inputs) && Ready(inputs, failed)
    requires var options := OptionsOf(inputs, DemandsOf(inputs, failed));
             && i < |options| && j < |options[i].eligible|
             && !CandidateLinksKnown(inputs.topology, options[i].eligible[j].candidate)
    ensures Realizes(inputs, failed, plan, choice, false) && !ValidPlan(inputs, plan)
  {
    var options := OptionsOf(inputs, DemandsOf(inputs, failed));
    plan, choice := OnlyRealized(inputs, failed, i, j);
    var step := StepOf(options[i].demand, options[i].eligible[j].candidate);
    OptionsEvaluated(inputs, DemandsOf(inputs, failed));
    EligibleFew(inputs, options[i].demand);
    RestoresMeans(options, choice, |options|, step);
    var n :| 0 <= n < |plan.restores| && plan.restores[n] == step;
    var k :| 0 <= k < |step.links| && step.links[k] !in inputs.topology.links;
    assert !LinksKnown(inputs.topology, plan.restores);
    PlannedIsValid(inputs, failed, plan, choice, false);
  }

  /**
   The same over the inputs alone: whatever choice within capacity the planner makes, its plan
   passes, if and only if every failed generation is fenced, no single root is flagged while all
   together are complete, and every eligible alternative names known links. A caller can check all
   three before planning.
   */
  lemma EveryPlanValid(inputs: PlanInputs, failed: seq<SwitchKey>)
    requires ValidInputs(inputs) && Ready(inputs, failed)
    ensures (forall plan, choice, proven :: Realizes(inputs, failed, plan, choice, proven) ==> ValidPlan(inputs, plan))
            <==> AllFenced(inputs, failed) && !FlaggedRoot(inputs, failed) && EligibleLinksKnown(inputs, failed)
  {
    if AllFenced(inputs, failed) && !FlaggedRoot(inputs, failed) && EligibleLinksKnown(inputs, failed) {
      forall plan, choice, proven | Realizes(inputs, failed, plan, choice, proven)
        ensures ValidPlan(inputs, plan)
      {
        PlannedIsValid(inputs, failed, plan, choice, proven);
      }
    } else {
      var plan, choice := SomePlanRefused(inputs, failed);
    }
  }

  lemma SomePlanRefused(inputs: PlanInputs, failed: seq<SwitchKey>) returns (plan: ReconstructionPlan, choice: seq<nat>)
    requires ValidInputs(inputs) && Ready(inputs, failed)
    requires !(AllFenced(inputs, failed) && !FlaggedRoot(inputs, failed) && EligibleLinksKnown(inputs, failed))
    ensures Realizes(inputs, failed, plan, choice, false) && !ValidPlan(inputs, plan)
  {
    var options := OptionsOf(inputs, DemandsOf(inputs, failed));
    if AllFenced(inputs, failed) && !FlaggedRoot(inputs, failed) {
      var i, j :| 0 <= i < |options| && 0 <= j < |options[i].eligible|
                  && !CandidateLinksKnown(inputs.topology, options[i].eligible[j].candidate);
      plan, choice := UnknownLinkRefused(inputs, failed, i, j);
    } else {
      plan, choice := OnlyRealized(inputs, failed, |options|, 0);
      PlannedIsValid(inputs, failed, plan, choice, false);
    }
  }

  /** The alternatives that the one optimum serves its demands with name links of the topology only. */
  ghost predicate OptimumLinksKnown(inputs: PlanInputs, failed: seq<SwitchKey>)
    requires ValidInputs(inputs)
  {
    var options := OptionsOf(inputs, DemandsOf(inputs, failed));
    LinksKnown(inputs.topology, Restores(options, OptimalChoice(inputs, failed), |options|))
  }

  /**
   For a search that was completed: there is exactly one plan, that of the optimum, and it passes if
   and only if every failed generation is fenced, no single root is flagged while all together are
   complete, and the alternatives of the optimum name known links. Nothing but the inputs decides.
   */
  lemma ProvenPlanValid(inputs: PlanInputs, failed: seq<SwitchKey>)
    requires ValidInputs(inputs) && Ready(inputs, failed)
    ensures exists plan, choice :: Realizes(inputs, failed, plan, choice, true)
    ensures forall plan, choice :: Realizes(inputs, failed, plan, choice, true) ==>
              (ValidPlan(inputs, plan) <==>
                 AllFenced(inputs, failed) && !FlaggedRoot(inputs, failed) && OptimumLinksKnown(inputs, failed))
  {
    var best := OptimalChoice(inputs, failed);
    PlanOfRealizes(inputs, failed, best, true);
    assert Realizes(inputs, failed, PlanOf(inputs, failed, best, true), best, true);
    forall plan, choice | Realizes(inputs, failed, plan, choice, true)
      ensures ValidPlan(inputs, plan) <==>
                AllFenced(inputs, failed) && !FlaggedRoot(inputs, failed) && OptimumLinksKnown(inputs, failed)
    {
      OneProvenValid(inputs, failed, plan, choice);
    }
  }

  lemma OneProvenValid(inputs: PlanInputs, failed: seq<SwitchKey>, plan: ReconstructionPlan, choice: seq<nat>)
    requires ValidInputs(inputs) && Ready(inputs, failed) && Realizes(inputs, failed, plan, choice, true)
    ensures ValidPlan(inputs, plan) <==>
              AllFenced(inputs, failed) && !FlaggedRoot(inputs, failed) && OptimumLinksKnown(inputs, failed)
  {
    OptimalUnique(inputs, failed, choice, OptimalChoice(inputs, failed));
    PlannedIsValid(inputs, failed, plan, choice, true);
  }
}
