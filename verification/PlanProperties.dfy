/**
 What every plan of the planner guarantees: the demands are partitioned, infeasibility is a
 certificate, unresolved reasons are true, and proven plans do not depend on how they were found
 (src/plan/planning_core.cpp:627-699).
 */
module PlanProperties {
  import opened Identity
  import opened Canonical
  import opened Topology
  import opened Closure
  import opened Candidates
  import opened Plan
  import opened Eligibility
  import opened Demands
  import opened Planner
  import opened Certificates
  import Assignment

  // ---- Partition ----

  lemma {:induction false} RestoresMeans(options: seq<DemandOptions>, choice: seq<nat>, n: nat, step: RestoreStep)
    requires Selectable(options, choice) && n <= |options|
    ensures step in Restores(options, choice, n) <==>
              exists i :: 0 <= i < n && choice[i] != Assignment.SKIPPED
                          && step == StepOf(options[i].demand, options[i].eligible[choice[i]].candidate)
  {
    if n > 0 {
      RestoresMeans(options, choice, n - 1, step);
    }
  }

  lemma {:induction false} UnresolvedMeans(options: seq<DemandOptions>, choice: seq<nat>, proven: bool, n: nat,
                                           entry: UnresolvedDependent)
    requires n <= |options| == |choice|
    ensures entry in Unresolved(options, choice, proven, n) <==>
              exists i :: 0 <= i < n && choice[i] == Assignment.SKIPPED
                          && entry == UnresolvedDependent(options[i].demand.dependent, options[i].demand.failed,
                                                          ReasonFor(options[i], proven))
  {
    if n > 0 {
      UnresolvedMeans(options, choice, proven, n - 1, entry);
    }
  }

  lemma {:induction false} Accounting(options: seq<DemandOptions>, choice: seq<nat>, proven: bool, n: nat)
    requires Selectable(options, choice) && n <= |options|
    ensures |Restores(options, choice, n)| + |Unresolved(options, choice, proven, n)| == n
  {
    if n > 0 {
      Accounting(options, choice, proven, n - 1);
    }
  }

  ghost predicate Restored(restores: seq<RestoreStep>, d: Demand) {
    exists step :: step in restores && step.dependent == d.dependent && step.coversFailed == d.failed
  }

  ghost predicate Explained(unresolved: seq<UnresolvedDependent>, d: Demand) {
    exists entry :: entry in unresolved && entry.dependent == d.dependent && entry.coversFailed == d.failed
  }

  lemma DemandsDistinct(demands: seq<Demand>, i: nat, j: nat)
    requires Sorted(demands, DemandLess) && i < |demands| && j < |demands| && demands[i] == demands[j]
    ensures i == j
  {
    DemandOrder();
  }

  lemma RestoredMeans(options: seq<DemandOptions>, demands: seq<Demand>, choice: seq<nat>, d: Demand)
    requires Selectable(options, choice) && |options| == |demands|
    requires forall k :: 0 <= k < |demands| ==> options[k].demand == demands[k]
    ensures Restored(Restores(options, choice, |options|), d) <==>
              exists i :: 0 <= i < |demands| && demands[i] == d && choice[i] != Assignment.SKIPPED
  {
    var restores := Restores(options, choice, |options|);
    if Restored(restores, d) {
      var step :| step in restores && step.dependent == d.dependent && step.coversFailed == d.failed;
      RestoresMeans(options, choice, |options|, step);
      var i :| 0 <= i < |options| && choice[i] != Assignment.SKIPPED
               && step == StepOf(options[i].demand, options[i].eligible[choice[i]].candidate);
      assert demands[i] == d;
    }
    forall i | 0 <= i < |demands| && demands[i] == d && choice[i] != Assignment.SKIPPED
      ensures Restored(restores, d)
    {
      var step := StepOf(options[i].demand, options[i].eligible[choice[i]].candidate);
      RestoresMeans(options, choice, |options|, step);
    }
  }

  lemma ExplainedMeans(options: seq<DemandOptions>, demands: seq<Demand>, choice: seq<nat>, proven: bool, d: Demand)
    requires |choice| == |options| == |demands|
    requires forall k :: 0 <= k < |demands| ==> options[k].demand == demands[k]
    ensures Explained(Unresolved(options, choice, proven, |options|), d) <==>
              exists i :: 0 <= i < |demands| && demands[i] == d && choice[i] == Assignment.SKIPPED
  {
    var unresolved := Unresolved(options, choice, proven, |options|);
    if Explained(unresolved, d) {
      var entry :| entry in unresolved && entry.dependent == d.dependent && entry.coversFailed == d.failed;
      UnresolvedMeans(options, choice, proven, |options|, entry);
      var i :| 0 <= i < |options| && choice[i] == Assignment.SKIPPED
               && entry == UnresolvedDependent(options[i].demand.dependent, options[i].demand.failed,
                                               ReasonFor(options[i], proven));
      assert demands[i] == d;
    }
    forall i | 0 <= i < |demands| && demands[i] == d && choice[i] == Assignment.SKIPPED
      ensures Explained(unresolved, d)
    {
      var entry := UnresolvedDependent(options[i].demand.dependent, options[i].demand.failed,
                                       ReasonFor(options[i], proven));
      UnresolvedMeans(options, choice, proven, |options|, entry);
    }
  }

  lemma PartitionOf(options: seq<DemandOptions>, demands: seq<Demand>, choice: seq<nat>, proven: bool, d: Demand)
    requires Selectable(options, choice) && |options| == |demands| && Sorted(demands, DemandLess)
    requires forall k :: 0 <= k < |demands| ==> options[k].demand == demands[k]
    ensures d in demands <==>
              Restored(Restores(options, choice, |options|), d) ||
                Explained(Unresolved(options, choice, proven, |options|), d)
    ensures !(Restored(Restores(options, choice, |options|), d) &&
              Explained(Unresolved(options, choice, proven, |options|), d))
  {
    RestoredMeans(options, demands, choice, d);
    ExplainedMeans(options, demands, choice, proven, d);
    forall i, j | 0 <= i < |demands| && 0 <= j < |demands| && demands[i] == demands[j]
      ensures i == j
    {
      DemandsDistinct(demands, i, j);
    }
  }

  /** Every demand is restored or explained, never both, and nothing else is. */
  lemma PlanPartition(inputs: PlanInputs, failed: seq<SwitchKey>, plan: ReconstructionPlan, choice: seq<nat>,
                      proven: bool, d: Demand)
    requires ValidInputs(inputs) && Realizes(inputs, failed, plan, choice, proven)
    ensures d in DemandsOf(inputs, failed) <==> Restored(plan.restores, d) || Explained(plan.unresolved, d)
    ensures !(Restored(plan.restores, d) && Explained(plan.unresolved, d))
    ensures |plan.restores| + |plan.unresolved| == |DemandsOf(inputs, failed)|
  {
    var demands, options := RealizedParts(inputs, failed, plan, choice, proven);
    Accounting(options, choice, proven, |options|);
    PartitionOf(options, demands, choice, proven, d);
  }

  lemma RealizedParts(inputs: PlanInputs, failed: seq<SwitchKey>, plan: ReconstructionPlan, choice: seq<nat>,
                      proven: bool) returns (demands: seq<Demand>, options: seq<DemandOptions>)
    requires ValidInputs(inputs) && Realizes(inputs, failed, plan, choice, proven)
    ensures demands == DemandsOf(inputs, failed) && |options| == |demands| && Sorted(demands, DemandLess)
    ensures forall k :: 0 <= k < |demands| ==> options[k].demand == demands[k]
    ensures Selectable(options, choice) && plan.restores == Restores(options, choice, |options|)
    ensures plan.unresolved == Unresolved(options, choice, proven, |options|)
  {
    demands := DemandsOf(inputs, failed);
    options := OptionsOf(inputs, demands);
    DemandsSorted(inputs, failed);
  }

  // ---- Fence steps ----

  /**
   Each failed generation has its fence step, which counts what that generation invalidates: all of
   it, with nothing omitted, unless the step says that its closure was truncated.
   */
  lemma FencesDescribe(inputs: PlanInputs, failed: seq<SwitchKey>, plan: ReconstructionPlan, choice: seq<nat>,
                       proven: bool, k: nat) returns (members: seq<ClosureNode>)
    requires ValidInputs(inputs) && Realizes(inputs, failed, plan, choice, proven) && k < |failed|
    ensures |plan.fences| == |failed| && plan.fences[k].failed == failed[k]
    ensures plan.fences[k].closureMembers == |members| && Sorted(members, NodeLess)
    ensures forall x :: x in members ==> Invalidates(inputs.topology, SwitchNode(failed[k]), x)
    ensures !plan.fences[k].closureState.Truncated? ==>
              && plan.fences[k].omittedDependents == 0
              && forall x :: Invalidates(inputs.topology, SwitchNode(failed[k]), x) ==> x in members
  {
    members := SingleDescribes(inputs, failed[k]);
    assert plan.fences[k] == Fence(failed[k], Single(inputs, failed[k]));
  }

  lemma SingleDescribes(inputs: PlanInputs, root: SwitchKey) returns (members: seq<ClosureNode>)
    requires ValidInputs(inputs)
    ensures var closure := Single(inputs, root);
            && members == closure.members && Sorted(members, NodeLess)
            && (forall x :: x in members ==> Invalidates(inputs.topology, SwitchNode(root), x))
            && (!closure.state.Truncated? ==>
                  && closure.omittedFrontier == 0
                  && forall x :: Invalidates(inputs.topology, SwitchNode(root), x) ==> x in members)
  {
    var t, node, budget := inputs.topology, SwitchNode(root), ClosureBudget(inputs.limits);
    members := Single(inputs, root).members;
    MembersSorted(t, [node], budget);
    forall x
      ensures x in members ==> Invalidates(t, node, x)
      ensures !Single(inputs, root).state.Truncated? && Invalidates(t, node, x) ==> x in members
    {
      ClosureExact(t, [node], budget, x);
    }
  }

  // ---- Infeasibility ----

  ghost predicate NoneAdmissible(inputs: PlanInputs, demands: seq<Demand>) {
    forall d, c :: d in demands && c in inputs.candidates && c.dependent == d.dependent ==> !Admissible(inputs, d, c)
  }

  lemma {:induction false} NothingRestored(options: seq<DemandOptions>, choice: seq<nat>, n: nat)
    requires Selectable(options, choice) && n <= |options|
    ensures Restores(options, choice, n) == [] <==> forall i :: 0 <= i < n ==> choice[i] == Assignment.SKIPPED
  {
    if n > 0 {
      NothingRestored(options, choice, n - 1);
    }
  }

  lemma NoneEligible(inputs: PlanInputs, options: seq<DemandOptions>, demands: seq<Demand>)
    requires Table(inputs.candidates) && options == OptionsOf(inputs, demands) && AllEnumerated(options)
    ensures NoneAdmissible(inputs, demands) <==> forall i :: 0 <= i < |options| ==> options[i].eligible == []
  {
    if NoneAdmissible(inputs, demands) {
      forall i | 0 <= i < |options|
        ensures options[i].eligible == []
      {
        assert demands[i] in demands;
        if options[i].eligible != [] {
          EvaluateExact(inputs, demands[i], options[i].eligible[0]);
        }
      }
    }
    if forall i :: 0 <= i < |options| ==> options[i].eligible == [] {
      forall d, c | d in demands && c in inputs.candidates && c.dependent == d.dependent
        ensures !Admissible(inputs, d, c)
      {
        var i :| 0 <= i < |demands| && demands[i] == d;
        assert options[i].enumerationComplete;
        EvaluateExact(inputs, d, CandidateUse(c, DistinctHops(c.hops)));
      }
    }
  }

  /** An exhaustive search that restores nothing proves there was nothing to choose from. */
  lemma ProvenNothing(inputs: PlanInputs, options: seq<DemandOptions>, choice: seq<nat>)
    requires Table(inputs.candidates) && Evaluated(inputs, options)
    requires Selectable(options, choice) && Choosable(inputs.topology, options, choice, true)
    ensures Restores(options, choice, |options|) == [] <==> forall i :: 0 <= i < |options| ==> options[i].eligible == []
  {
    NothingRestored(options, choice, |options|);
    var problem: seq<seq<Assignment.Use>> := Alternatives(options);
    var capacity :| CapacityMap(inputs.topology, options, capacity) && Assignment.Feasible(problem, capacity, choice)
                    && Assignment.Optimum(problem, capacity, choice);
    ProblemWellFormed(inputs, options);
    forall key | key in capacity
      ensures capacity[key] > 0
    {
      CapacityPositive(inputs, options, capacity, key);
    }
    forall i | 0 <= i < |options| && options[i].eligible != []
      ensures Restores(options, choice, |options|) != []
    {
      Certificates.OptimumServes(problem, capacity, choice, i);
    }
  }

  lemma ReasonProven(inputs: PlanInputs, demand: Demand)
    requires Evaluate(inputs, demand).enumerationComplete
    ensures ProvenNegative(ReasonFor(Evaluate(inputs, demand), true))
  {
    BlockingReason(inputs, demand);
  }

  lemma {:induction false} ReasonsProven(inputs: PlanInputs, options: seq<DemandOptions>, choice: seq<nat>,
                                         entry: UnresolvedDependent)
    requires Evaluated(inputs, options) && AllEnumerated(options) && |choice| == |options|
    requires entry in Unresolved(options, choice, true, |options|)
    ensures ProvenNegative(entry.reason)
  {
    UnresolvedMeans(options, choice, true, |options|, entry);
    var i :| 0 <= i < |options| && entry.reason == ReasonFor(options[i], true);
    ReasonProven(inputs, options[i].demand);
  }

  /**
   ProvenInfeasible is a certificate: it is reported exactly when nothing was cut short, there
   was something to restore, and no alternative in the table is admissible for any demand.
   */
  lemma InfeasibleCertificate(inputs: PlanInputs, failed: seq<SwitchKey>, plan: ReconstructionPlan, choice: seq<nat>,
                              proven: bool)
    requires ValidInputs(inputs) && Realizes(inputs, failed, plan, choice, proven)
    ensures var demands := DemandsOf(inputs, failed);
            plan.feasibility.ProvenInfeasible? <==>
              && ClosureComplete(inputs, failed) && AllEnumerated(OptionsOf(inputs, demands)) && proven
              && demands != [] && NoneAdmissible(inputs, demands)
    ensures plan.feasibility.ProvenInfeasible? ==> forall entry :: entry in plan.unresolved ==>
              ProvenNegative(entry.reason)
  {
    var demands := DemandsOf(inputs, failed);
    var options := OptionsOf(inputs, demands);
    OptionsEvaluated(inputs, demands);
    if AllEnumerated(options) && proven {
      NoneEligible(inputs, options, demands);
      ProvenNothing(inputs, options, choice);
      forall entry | entry in plan.unresolved
        ensures ProvenNegative(entry.reason)
      {
        ReasonsProven(inputs, options, choice, entry);
      }
    }
  }

  /** Some demand has an alternative in the table that is admissible for it. */
  ghost predicate SomeAdmissible(inputs: PlanInputs, demands: seq<Demand>) {
    exists d, c :: d in demands && c in inputs.candidates && c.dependent == d.dependent && Admissible(inputs, d, c)
  }

  /**
   The other verdicts in terms of the inputs: SearchLimitReached owns up to every cut. Otherwise
   NothingToRestore says that no dependent anywhere is invalidated by a failed generation, and
   ProvenFeasible that some demand can be served and is.
   */
  lemma VerdictMeans(inputs: PlanInputs, failed: seq<SwitchKey>, plan: ReconstructionPlan, choice: seq<nat>,
                     proven: bool)
    requires ValidInputs(inputs) && Realizes(inputs, failed, plan, choice, proven)
    ensures plan.feasibility.PlanSearchLimitReached? <==>
              || !ClosureComplete(inputs, failed)
              || !AllEnumerated(OptionsOf(inputs, DemandsOf(inputs, failed)))
              || !proven
    ensures !plan.feasibility.PlanSearchLimitReached? ==>
              && (plan.feasibility.NothingToRestore? <==>
                    forall d: Demand :: d.failed in failed ==>
                      !Invalidates(inputs.topology, SwitchNode(d.failed), DependentNode(d.dependent)))
              && (plan.feasibility.ProvenFeasible? <==> SomeAdmissible(inputs, DemandsOf(inputs, failed)))
              && (plan.feasibility.ProvenFeasible? <==> plan.restores != [])
  {
    if plan.feasibility.PlanSearchLimitReached? {
      return;
    }
    var demands := DemandsOf(inputs, failed);
    InfeasibleCertificate(inputs, failed, plan, choice, proven);
    forall d: Demand
      ensures d in demands <==>
                d.failed in failed && Invalidates(inputs.topology, SwitchNode(d.failed), DependentNode(d.dependent))
    {
      DemandsComplete(inputs, failed, d);
    }
    EmptyMeans(demands);
  }

  lemma EmptyMeans(demands: seq<Demand>)
    ensures demands == [] <==> forall d :: d !in demands
  {
    if demands != [] {
      assert demands[0] in demands;
    }
  }

  // ---- Reasons ----

  /**
   CapacityExhausted is a true reason: under the chosen assignment every eligible alternative of
   the demand runs through a generation with no capacity left.
   */
  lemma ExhaustedIsTrue(inputs: PlanInputs, options: seq<DemandOptions>, choice: seq<nat>, i: nat, j: nat)
    requires Table(inputs.candidates) && Evaluated(inputs, options)
    requires Selectable(options, choice) && Choosable(inputs.topology, options, choice, true)
    requires i < |options| && choice[i] == Assignment.SKIPPED && j < |options[i].eligible|
    ensures exists key :: key in options[i].eligible[j].candidate.hops
                          && Assignment.Typed(Alternatives(options), choice, |options|)
                          && key in inputs.topology.switches
                          && Assignment.Usage(Alternatives(options), choice, |options|, key)
                             == inputs.topology.switches[key].capacityScore
  {
    var problem: seq<seq<Assignment.Use>> := Alternatives(options);
    var capacity :| CapacityMap(inputs.topology, options, capacity) && Assignment.Feasible(problem, capacity, choice)
                    && Assignment.Optimum(problem, capacity, choice);
    ProblemWellFormed(inputs, options);
    LeftOutIsBlocked(problem, capacity, choice, i, j);
    var key :| key in problem[i][j].capacityKeys && Saturated(problem, capacity, choice, key);
    FullyUsed(inputs, options, choice, capacity, i, j, key);
  }

  lemma FullyUsed(inputs: PlanInputs, options: seq<DemandOptions>, choice: seq<nat>, capacity: Assignment.Capacity,
                  i: nat, j: nat, key: SwitchKey)
    requires Table(inputs.candidates) && Evaluated(inputs, options)
    requires CapacityMap(inputs.topology, options, capacity)
    requires i < |options| && j < |options[i].eligible| && key in options[i].eligible[j].capacityKeys
    requires Assignment.Feasible(Alternatives(options), capacity, choice)
    requires Saturated(Alternatives(options), capacity, choice, key)
    ensures key in options[i].eligible[j].candidate.hops && key in inputs.topology.switches
    ensures Assignment.Usage(Alternatives(options), choice, |options|, key)
            == inputs.topology.switches[key].capacityScore
  {
    ChargedKnown(inputs, options, i, j, key);
  }

  lemma ChargedKnown(inputs: PlanInputs, options: seq<DemandOptions>, i: nat, j: nat, key: SwitchKey)
    requires Table(inputs.candidates) && Evaluated(inputs, options)
    requires i < |options| && j < |options[i].eligible| && key in options[i].eligible[j].capacityKeys
    ensures key in options[i].eligible[j].candidate.hops && key in inputs.topology.switches
  {
    EvaluateExact(inputs, options[i].demand, options[i].eligible[j]);
    assert HopAdmissible(inputs, options[i].demand, options[i].eligible[j].candidate, key);
  }

  /** A search that was cut never reports exhausted capacity as its own finding. */
  lemma NoFalseExhaustion(inputs: PlanInputs, failed: seq<SwitchKey>, plan: ReconstructionPlan, choice: seq<nat>,
                          entry: UnresolvedDependent)
    requires ValidInputs(inputs) && Realizes(inputs, failed, plan, choice, false)
    requires entry in plan.unresolved && entry.reason.CapacityExhausted?
    ensures Refuses(inputs, entry)
  {
    var options := OptionsOf(inputs, DemandsOf(inputs, failed));
    UnresolvedMeans(options, choice, false, |options|, entry);
  }

  /** The demand has no eligible alternative at all, and this is the first reason found for that. */
  ghost predicate Refuses(inputs: PlanInputs, entry: UnresolvedDependent) {
    var option := Evaluate(inputs, Demand(entry.dependent, entry.coversFailed));
    option.eligible == [] && option.blockingReason == entry.reason
  }

  // ---- The reference solver ----

  /** The same inputs with another search budget, as the reference solver makes them. */
  function Rebudgeted(inputs: PlanInputs, budget: nat): (adjusted: PlanInputs) {
    inputs.(limits := inputs.limits.(maxCandidatesEvaluated := budget))
  }

  lemma {:induction false} FirstProblemRebudgeted(inputs: PlanInputs, budget: nat, demand: Demand,
                                                  c: ReconstructionCandidate, k: nat)
    requires k <= |c.hops|
    ensures FirstProblem(Rebudgeted(inputs, budget), demand, c, k) == FirstProblem(inputs, demand, c, k)
    decreases |c.hops| - k
  {
    if k < |c.hops| {
      FirstProblemRebudgeted(inputs, budget, demand, c, k + 1);
    }
  }

  lemma ProblemRebudgeted(inputs: PlanInputs, budget: nat, demand: Demand, c: ReconstructionCandidate)
    ensures Problem(Rebudgeted(inputs, budget), demand, c) == Problem(inputs, demand, c)
  {
    FirstProblemRebudgeted(inputs, budget, demand, c, 0);
  }

  lemma {:induction false} EligibleRebudgeted(inputs: PlanInputs, budget: nat, demand: Demand,
                                              supplied: seq<ReconstructionCandidate>, n: nat)
    requires n <= |supplied|
    ensures Eligible(Rebudgeted(inputs, budget), demand, supplied, n) == Eligible(inputs, demand, supplied, n)
  {
    if n > 0 {
      EligibleRebudgeted(inputs, budget, demand, supplied, n - 1);
      ProblemRebudgeted(inputs, budget, demand, supplied[n - 1]);
    }
  }

  lemma ReportsRebudgeted(inputs: PlanInputs, budget: nat, demand: Demand, supplied: seq<ReconstructionCandidate>,
                          n: nat)
    requires n <= |supplied|
    ensures Reports(Rebudgeted(inputs, budget), demand, supplied, n) == Reports(inputs, demand, supplied, n)
  {
    forall k | 0 <= k < n
      ensures Reports(Rebudgeted(inputs, budget), demand, supplied, n)[k] == Reports(inputs, demand, supplied, n)[k]
    {
      ProblemRebudgeted(inputs, budget, demand, supplied[k]);
    }
  }

  lemma EvaluateRebudgeted(inputs: PlanInputs, budget: nat, demand: Demand)
    ensures Evaluate(Rebudgeted(inputs, budget), demand) == Evaluate(inputs, demand)
  {
    var supplied := OfDependent(inputs.candidates, demand.dependent);
    ReportsRebudgeted(inputs, budget, demand, supplied, Examined(inputs, supplied));
    EligibleRebudgeted(inputs, budget, demand, supplied, Examined(inputs, supplied));
  }

  lemma OptionsRebudgeted(inputs: PlanInputs, budget: nat, demands: seq<Demand>)
    ensures OptionsOf(Rebudgeted(inputs, budget), demands) == OptionsOf(inputs, demands)
  {
    forall k | 0 <= k < |demands|
      ensures OptionsOf(Rebudgeted(inputs, budget), demands)[k] == OptionsOf(inputs, demands)[k]
    {
      EvaluateRebudgeted(inputs, budget, demands[k]);
    }
  }

  lemma DemandsRebudgeted(inputs: PlanInputs, budget: nat, failed: seq<SwitchKey>)
    requires ValidInputs(inputs)
    ensures DemandsOf(Rebudgeted(inputs, budget), failed) == DemandsOf(inputs, failed)
    ensures Fences(Rebudgeted(inputs, budget), failed) == Fences(inputs, failed)
    ensures ClosureComplete(Rebudgeted(inputs, budget), failed) == ClosureComplete(inputs, failed)
  {
    assert DependentLists(Rebudgeted(inputs, budget), failed) == DependentLists(inputs, failed);
  }

  /** The budget decides only how far the search goes, never what it searches. */
  lemma RealizesRebudgeted(inputs: PlanInputs, budget: nat, failed: seq<SwitchKey>, plan: ReconstructionPlan,
                           choice: seq<nat>, proven: bool)
    requires ValidInputs(inputs)
    requires Realizes(Rebudgeted(inputs, budget), failed, plan, choice, proven)
    ensures Realizes(inputs, failed, plan, choice, proven)
  {
    DemandsRebudgeted(inputs, budget, failed);
    OptionsRebudgeted(inputs, budget, DemandsOf(inputs, failed));
    assert Labels(inputs, failed, plan);
  }

  /**
   Two plans that both claim a proven assignment are the same plan: the production planner with
   its fast path and the reference solver without it, each with its own budget, can only agree.
   */
  lemma ProvenPlansAgree(inputs: PlanInputs, budget: nat, failed: seq<SwitchKey>, a: ReconstructionPlan,
                         ca: seq<nat>, b: ReconstructionPlan, cb: seq<nat>)
    requires ValidInputs(inputs)
    requires Realizes(inputs, failed, a, ca, true) && Realizes(Rebudgeted(inputs, budget), failed, b, cb, true)
    ensures ca == cb && a == b
  {
    RealizesRebudgeted(inputs, budget, failed, b, cb, true);
    var options := OptionsOf(inputs, DemandsOf(inputs, failed));
    var problem: seq<seq<Assignment.Use>> := Alternatives(options);
    var capacity :| CapacityMap(inputs.topology, options, capacity) && Assignment.Feasible(problem, capacity, ca)
                    && Assignment.Optimum(problem, capacity, ca);
    var other :| CapacityMap(inputs.topology, options, other) && Assignment.Feasible(problem, other, cb)
                 && Assignment.Optimum(problem, other, cb);
    CapacityUnique(inputs.topology, options, capacity, other);
    Assignment.OptimumUnique(problem, capacity, ca, cb);
  }
}
