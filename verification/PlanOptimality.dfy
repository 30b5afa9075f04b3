/**
 What a completed assignment phase guarantees about the plan itself (src/plan/planning_core.cpp:58-63
 and 514-640), in terms of its restore steps and of the capacities the topology declares.
 */
module PlanOptimality {
  import opened Identity
  import opened Topology
  import opened Candidates
  import opened Plan
  import opened Eligibility
  import opened Demands
  import opened Planner
  import opened PlanProperties
  import opened PlannerValidates
  import opened Validator
  import Assignment

  // ---- Nothing more fits ----

  /** Some generation the alternative runs through is used to the capacity the topology declares. */
  ghost predicate Full(t: TopologySnapshot, restores: seq<RestoreStep>, hops: seq<SwitchKey>) {
    exists hop :: hop in hops && hop in t.switches
                  && StepUsage(restores, |restores|, hop) == t.switches[hop].capacityScore
  }

  lemma SkippedFull(inputs: PlanInputs, options: seq<DemandOptions>, choice: seq<nat>, i: nat, j: nat)
    requires Table(inputs.candidates) && Evaluated(inputs, options)
    requires Selectable(options, choice) && Choosable(inputs.topology, options, choice, true)
    requires i < |options| && choice[i] == Assignment.SKIPPED && j < |options[i].eligible|
    ensures Full(inputs.topology, Restores(options, choice, |options|), options[i].eligible[j].candidate.hops)
  {
    ExhaustedIsTrue(inputs, options, choice, i, j);
    EvaluatedCharges(inputs, options);
    var key :| && key in options[i].eligible[j].candidate.hops
               && Assignment.Typed(Alternatives(options), choice, |options|)
               && key in inputs.topology.switches
               && Assignment.Usage(Alternatives(options), choice, |options|, key)
                  == inputs.topology.switches[key].capacityScore;
    UsageAgrees(options, choice, key);
  }

  /**
   A completed search leaves a demand unresolved only where nothing more fits: every admissible
   alternative of the table runs through a generation that the restored dependents use to exactly
   its declared capacity.
   */
  lemma UnresolvedIsFull(inputs: PlanInputs, failed: seq<SwitchKey>, plan: ReconstructionPlan, choice: seq<nat>,
                         entry: UnresolvedDependent, c: ReconstructionCandidate)
    requires ValidInputs(inputs) && Realizes(inputs, failed, plan, choice, true) && entry in plan.unresolved
    requires var d := Demand(entry.dependent, entry.coversFailed);
             && Evaluate(inputs, d).enumerationComplete
             && c in inputs.candidates && c.dependent == d.dependent && Admissible(inputs, d, c)
    ensures Full(inputs.topology, plan.restores, c.hops)
  {
    var options := OptionsOf(inputs, DemandsOf(inputs, failed));
    OptionsEvaluated(inputs, DemandsOf(inputs, failed));
    var i := SkippedAt(options, choice, entry);
    var j := EligibleAt(inputs, options[i].demand, c);
    SkippedFull(inputs, options, choice, i, j);
  }

  lemma SkippedAt(options: seq<DemandOptions>, choice: seq<nat>, entry: UnresolvedDependent) returns (i: nat)
    requires |options| == |choice| && entry in Unresolved(options, choice, true, |options|)
    ensures i < |options| && choice[i] == Assignment.SKIPPED
    ensures options[i].demand == Demand(entry.dependent, entry.coversFailed)
  {
    UnresolvedMeans(options, choice, true, |options|, entry);
    i :| 0 <= i < |options| && choice[i] == Assignment.SKIPPED
         && entry == UnresolvedDependent(options[i].demand.dependent, options[i].demand.failed,
                                         ReasonFor(options[i], true));
  }

  lemma EligibleAt(inputs: PlanInputs, d: Demand, c: ReconstructionCandidate) returns (j: nat)
    requires Table(inputs.candidates) && Evaluate(inputs, d).enumerationComplete
    requires c in inputs.candidates && c.dependent == d.dependent && Admissible(inputs, d, c)
    ensures j < |Evaluate(inputs, d).eligible| && Evaluate(inputs, d).eligible[j].candidate == c
  {
    var use := CandidateUse(c, DistinctHops(c.hops));
    EvaluateExact(inputs, d, use);
    j :| 0 <= j < |Evaluate(inputs, d).eligible| && Evaluate(inputs, d).eligible[j] == use;
  }

  // ---- Nothing better fits ----

  /** The cost of the steps, saturating as the planner adds it. */
  ghost function TotalCost(restores: seq<RestoreStep>): (cost: U64) {
    if restores == [] then 0
    else Assignment.SaturatingAdd(TotalCost(restores[..|restores| - 1]), restores[|restores| - 1].cost)
  }

  ghost function TotalHops(restores: seq<RestoreStep>): (hops: nat) {
    if restores == [] then 0 else TotalHops(restores[..|restores| - 1]) + |restores[|restores| - 1].hops|
  }

  /** The score of n decisions that lead to these steps. */
  ghost predicate Scores(score: Assignment.Score, restores: seq<RestoreStep>, n: nat) {
    score.skipped + |restores| == n && score.cost == TotalCost(restores) && score.hops == TotalHops(restores)
  }

  lemma ScoresSkip(score: Assignment.Score, restores: seq<RestoreStep>, n: nat)
    requires Scores(score, restores, n)
    ensures Scores(score.(skipped := score.skipped + 1), restores + [], n + 1)
  {
    assert restores + [] == restores;
  }

  lemma ScoresTake(score: Assignment.Score, restores: seq<RestoreStep>, n: nat, step: RestoreStep)
    requires Scores(score, restores, n)
    ensures Scores(Assignment.Score(score.skipped, Assignment.SaturatingAdd(score.cost, step.cost),
                                    score.hops + |step.hops|), restores + [step], n + 1)
  {
    assert (restores + [step])[..|restores|] == restores;
  }

  /** The objective of the search is that of the steps it leads to. */
  lemma {:induction false} ScoreOfSteps(options: seq<DemandOptions>, choice: seq<nat>, n: nat)
    requires Selectable(options, choice) && n <= |options|
    ensures Assignment.Typed(Alternatives(options), choice, n)
    ensures Scores(Assignment.ScoreOf(Alternatives(options), choice, n), Restores(options, choice, n), n)
  {
    SelectableTyped(options, choice, n);
    if n > 0 {
      ScoreOfSteps(options, choice, n - 1);
      ScoreOfNext(options, choice, n, Assignment.ScoreOf(Alternatives(options), choice, n - 1),
                  Restores(options, choice, n - 1));
    }
  }

  lemma ScoreOfNext(options: seq<DemandOptions>, choice: seq<nat>, n: nat, score: Assignment.Score,
                    restores: seq<RestoreStep>)
    requires Selectable(options, choice) && 0 < n <= |options|
    requires Assignment.ChoiceAt(Alternatives(options), choice, n - 1) && Scores(score, restores, n - 1)
    ensures Scores(Assignment.Extend(Alternatives(options), choice, n - 1, score),
                   restores + (if choice[n - 1] == Assignment.SKIPPED then []
                               else [StepOf(options[n - 1].demand, options[n - 1].eligible[choice[n - 1]].candidate)]),
                   n)
  {
    if choice[n - 1] == Assignment.SKIPPED {
      ScoresSkip(score, restores, n - 1);
    } else {
      ScoresTake(score, restores, n - 1,
                 StepOf(options[n - 1].demand, options[n - 1].eligible[choice[n - 1]].candidate));
    }
  }

  /** A choice whose steps stay within the declared capacities is one the search looks at. */
  lemma DeclaredFeasible(inputs: PlanInputs, options: seq<DemandOptions>, choice: seq<nat>,
                         capacity: Assignment.Capacity)
    requires Table(inputs.candidates) && Evaluated(inputs, options) && Selectable(options, choice)
    requires CapacityMap(inputs.topology, options, capacity)
    requires WithinDeclared(inputs.topology, Restores(options, choice, |options|))
    ensures Assignment.Feasible(Alternatives(options), capacity, choice)
  {
    SelectableTyped(options, choice, |options|);
    EvaluatedCharges(inputs, options);
    forall key | key in capacity
      ensures Assignment.Usage(Alternatives(options), choice, |options|, key) <= capacity[key]
    {
      UsageAgrees(options, choice, key);
      CapacityPositive(inputs, options, capacity, key);
    }
  }

  /**
   The plan of a completed search is the best there is: no choice of eligible alternatives whose
   steps stay within the declared capacities restores more dependents, or as many at less cost, or
   as many at the same cost over fewer hops.
   */
  lemma ProvenIsBest(inputs: PlanInputs, failed: seq<SwitchKey>, plan: ReconstructionPlan, choice: seq<nat>,
                     other: seq<nat>)
    requires ValidInputs(inputs) && Realizes(inputs, failed, plan, choice, true)
    requires Selectable(OptionsOf(inputs, DemandsOf(inputs, failed)), other)
    requires var options := OptionsOf(inputs, DemandsOf(inputs, failed));
             WithinDeclared(inputs.topology, Restores(options, other, |options|))
    ensures var options := OptionsOf(inputs, DemandsOf(inputs, failed));
            var steps := Restores(options, other, |options|);
            && |steps| <= |plan.restores|
            && (|steps| == |plan.restores| ==> TotalCost(plan.restores) <= TotalCost(steps))
            && (|steps| == |plan.restores| && TotalCost(plan.restores) == TotalCost(steps) ==>
                  TotalHops(plan.restores) <= TotalHops(steps))
  {
    var options := OptionsOf(inputs, DemandsOf(inputs, failed));
    OptionsEvaluated(inputs, DemandsOf(inputs, failed));
    BestSteps(inputs, options, choice, other);
  }

  lemma BestSteps(inputs: PlanInputs, options: seq<DemandOptions>, choice: seq<nat>, other: seq<nat>)
    requires Table(inputs.candidates) && Evaluated(inputs, options)
    requires Selectable(options, choice) && Choosable(inputs.topology, options, choice, true)
    requires Selectable(options, other) && WithinDeclared(inputs.topology, Restores(options, other, |options|))
    ensures var best, steps := Restores(options, choice, |options|), Restores(options, other, |options|);
            && |steps| <= |best|
            && (|steps| == |best| ==> TotalCost(best) <= TotalCost(steps))
            && (|steps| == |best| && TotalCost(best) == TotalCost(steps) ==> TotalHops(best) <= TotalHops(steps))
  {
    var problem: seq<seq<Assignment.Use>> := Alternatives(options);
    var capacity :| CapacityMap(inputs.topology, options, capacity) && Assignment.Feasible(problem, capacity, choice)
                    && Assignment.Optimum(problem, capacity, choice);
    DeclaredFeasible(inputs, options, other, capacity);
    ScoreOfSteps(options, choice, |options|);
    ScoreOfSteps(options, other, |options|);
    if other != choice {
      BetterSteps(Assignment.Summary(problem, choice), Assignment.Summary(problem, other), |options|,
                  Restores(options, choice, |options|), Restores(options, other, |options|));
    }
  }

  lemma BetterSteps(a: Assignment.Solution, b: Assignment.Solution, n: nat, best: seq<RestoreStep>,
                    steps: seq<RestoreStep>)
    requires Assignment.Better(a, b) && Scores(a.score, best, n) && Scores(b.score, steps, n)
    ensures |steps| <= |best|
    ensures |steps| == |best| ==> TotalCost(best) <= TotalCost(steps)
    ensures |steps| == |best| && TotalCost(best) == TotalCost(steps) ==> TotalHops(best) <= TotalHops(steps)
  {
  }
}
