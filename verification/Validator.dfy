/**
 The independent plan validator (src/plan/validator.cpp): what a valid plan is, and the checks that
 decide it. Finding scopes and detail strings are left out; the finding codes are kept.
 */
module Validator {
  import opened Identity
  import opened Outcome
  import opened Canonical
  import opened Topology
  import opened Plan
  import opened Eligibility
  import opened Demands

  const MAX_FINDINGS := 256

  // ---- What a valid plan is ----

  predicate Current(inputs: PlanInputs, plan: ReconstructionPlan) {
    && plan.epoch == inputs.epoch && plan.boot == inputs.boot
    && plan.topology == inputs.topology && plan.policy == Basis(inputs)
  }

  predicate Coherent(plan: ReconstructionPlan) {
    && plan.failedGenerations != []
    && (plan.feasibility.ProvenInfeasible? ==> plan.restores == [] && plan.unresolved != [])
    && (plan.feasibility.NothingToRestore? ==> plan.restores == [])
  }

  predicate FenceOk(inputs: PlanInputs, plan: ReconstructionPlan, step: FenceStep) {
    && step.failed.Valid()
    && (step.closureState.Truncated? ==> !plan.closureComplete)
    && step.failed in inputs.fenced
  }

  predicate FencesOk(inputs: PlanInputs, plan: ReconstructionPlan) {
    && (forall i :: 0 <= i < |plan.fences| ==> FenceOk(inputs, plan, plan.fences[i]))
    && (forall k :: 0 <= k < |plan.failedGenerations| ==> HasFence(plan.fences, plan.failedGenerations[k]))
  }

  predicate HasFence(fences: seq<FenceStep>, key: SwitchKey) {
    exists i :: 0 <= i < |fences| && fences[i].failed == key
  }

  /** A generation that may carry traffic again, as the validator sees it. */
  predicate HopOk(inputs: PlanInputs, plan: ReconstructionPlan, hop: SwitchKey) {
    && hop !in plan.failedGenerations
    && hop !in inputs.fenced
    && hop in inputs.topology.switches
    && !inputs.assess(hop).fenceRequired
    && inputs.assess(hop).outcome != Code.Conflict
  }

  predicate StepOk(inputs: PlanInputs, plan: ReconstructionPlan, step: RestoreStep) {
    && step.dependent.Valid() && step.coversFailed.Valid()
    && step.coversFailed in plan.failedGenerations
    && step.action.RebindReplacement?
    && step.hops != [] && step.cost != 0 && step.replacement == step.hops[0]
    && (forall k :: 0 <= k < |step.hops| ==> HopOk(inputs, plan, step.hops[k]))
    && (forall k :: 0 <= k < |step.links| ==> step.links[k] in inputs.topology.links)
  }

  function Target(step: RestoreStep): (target: Demand) {
    Demand(step.dependent, step.coversFailed)
  }

  /** How many of the first n steps run through a generation. */
  function StepUsage(restores: seq<RestoreStep>, n: nat, key: SwitchKey): (count: nat)
    requires n <= |restores|
  {
    if n == 0 then 0 else StepUsage(restores, n - 1, key) + if key in restores[n - 1].hops then 1 else 0
  }

  ghost predicate WithinDeclared(t: TopologySnapshot, restores: seq<RestoreStep>) {
    forall key :: key in t.switches ==> StepUsage(restores, |restores|, key) <= t.switches[key].capacityScore
  }

  ghost predicate RestoresOk(inputs: PlanInputs, plan: ReconstructionPlan) {
    && (forall i :: 0 <= i < |plan.restores| ==> StepOk(inputs, plan, plan.restores[i]))
    && (forall i, j :: 0 <= i < j < |plan.restores| ==> Target(plan.restores[i]) != Target(plan.restores[j]))
    && WithinDeclared(inputs.topology, plan.restores)
  }

  predicate Resolved(plan: ReconstructionPlan, d: Demand) {
    || (exists i :: 0 <= i < |plan.restores| && Target(plan.restores[i]) == d)
    || (exists i ::
          0 <= i < |plan.unresolved| && Demand(plan.unresolved[i].dependent, plan.unresolved[i].coversFailed) == d)
  }

  ghost predicate Covers(inputs: PlanInputs, plan: ReconstructionPlan)
    requires ValidInputs(inputs)
  {
    forall d :: d in DemandsOf(inputs, plan.failedGenerations) ==> Resolved(plan, d)
  }

  ghost predicate CoverageOk(inputs: PlanInputs, plan: ReconstructionPlan)
    requires ValidInputs(inputs)
  {
    && Covers(inputs, plan)
    && plan.closureComplete == ClosureComplete(inputs, plan.failedGenerations)
  }

  predicate RestoreLess(a: RestoreStep, b: RestoreStep) {
    if a.dependent != b.dependent then DependentLess(a.dependent, b.dependent)
    else if a.coversFailed != b.coversFailed then KeyLess(a.coversFailed, b.coversFailed)
    else KeyLess(a.replacement, b.replacement)
  }

  predicate UnresolvedLess(a: UnresolvedDependent, b: UnresolvedDependent) {
    if a.dependent != b.dependent then DependentLess(a.dependent, b.dependent)
    else KeyLess(a.coversFailed, b.coversFailed)
  }

  predicate OrderingOk(plan: ReconstructionPlan) {
    && (forall i :: 0 < i < |plan.restores| ==> !RestoreLess(plan.restores[i], plan.restores[i - 1]))
    && (forall i :: 0 < i < |plan.unresolved| ==> !UnresolvedLess(plan.unresolved[i], plan.unresolved[i - 1]))
  }

  ghost predicate ValidPlan(inputs: PlanInputs, plan: ReconstructionPlan)
    requires ValidInputs(inputs)
  {
    && plan.sealed
    && Current(inputs, plan) && Coherent(plan)
    && FencesOk(inputs, plan)
    && RestoresOk(inputs, plan)
    && CoverageOk(inputs, plan)
    && OrderingOk(plan)
  }

  // ---- The checks ----

  ghost predicate StepsOk(inputs: PlanInputs, plan: ReconstructionPlan, n: nat)
    requires n <= |plan.restores|
  {
    && (forall i :: 0 <= i < n ==> StepOk(inputs, plan, plan.restores[i]))
    && (forall i, j :: 0 <= i < j < n ==> Target(plan.restores[i]) != Target(plan.restores[j]))
  }

  function Tally(usage: map<SwitchKey, nat>, key: SwitchKey): (count: nat) {
    if key in usage then usage[key] else 0
  }

  /** Each distinct hop of a step counts once. */
  function Count(usage: map<SwitchKey, nat>, hops: seq<SwitchKey>): (next: map<SwitchKey, nat>) {
    map key | key in usage.Keys + Elements(hops) :: Tally(usage, key) + if key in hops then 1 else 0
  }

  ghost predicate Counts(usage: map<SwitchKey, nat>, restores: seq<RestoreStep>, n: nat)
    requires n <= |restores|
  {
    forall key :: Tally(usage, key) == StepUsage(restores, n, key)
  }

  lemma CountsNext(usage: map<SwitchKey, nat>, restores: seq<RestoreStep>, n: nat)
    requires n < |restores| && Counts(usage, restores, n)
    ensures Counts(Count(usage, restores[n].hops), restores, n + 1)
  {
    var next := Count(usage, restores[n].hops);
    forall key
      ensures Tally(next, key) == StepUsage(restores, n + 1, key)
    {
      assert Tally(usage, key) == StepUsage(restores, n, key);
    }
  }

  ghost predicate UsageOk(t: TopologySnapshot, usage: map<SwitchKey, nat>, keys: set<SwitchKey>) {
    forall key :: key in keys && key in usage && key in t.switches ==> usage[key] <= t.switches[key].capacityScore
  }

  lemma UsageMeans(t: TopologySnapshot, usage: map<SwitchKey, nat>, restores: seq<RestoreStep>)
    requires Counts(usage, restores, |restores|)
    ensures UsageOk(t, usage, usage.Keys) <==> WithinDeclared(t, restores)
  {
    forall key | key in t.switches
      ensures Tally(usage, key) == StepUsage(restores, |restores|, key)
    {
    }
  }

  /** A report with one more finding; past the bound it only says that it was cut. */
  function Reported(findings: seq<Code>, code: Code): (next: seq<Code>)
    ensures next != [] && Leads(findings, next)
    ensures |findings| <= MAX_FINDINGS + 1 ==> |next| <= MAX_FINDINGS + 1
  {
    if |findings| < MAX_FINDINGS then findings + [code]
    else if |findings| == MAX_FINDINGS then findings + [Code.Exhausted]
    else findings
  }

  /** The first finding of a report, its outcome, stays the first. */
  predicate Leads(findings: seq<Code>, next: seq<Code>) {
    findings != [] ==> next != [] && next[0] == findings[0]
  }

  datatype ValidationReport = ValidationReport(valid: bool, outcome: Code, findings: seq<Code>, checks: nat)

  method CollectResolved(plan: ReconstructionPlan) returns (resolved: set<Demand>)
    ensures forall d :: d in resolved <==> Resolved(plan, d)
  {
    resolved := {};
    for i := 0 to |plan.restores|
      invariant forall d :: d in resolved <==> exists j :: 0 <= j < i && Target(plan.restores[j]) == d
    {
      resolved := resolved + {Target(plan.restores[i])};
    }
    for i := 0 to |plan.unresolved|
      invariant forall d :: d in resolved <==>
                  || (exists j :: 0 <= j < |plan.restores| && Target(plan.restores[j]) == d)
                  || (exists j :: 0 <= j < i && Demand(plan.unresolved[j].dependent,
                                                       plan.unresolved[j].coversFailed) == d)
    {
      resolved := resolved + {Demand(plan.unresolved[i].dependent, plan.unresolved[i].coversFailed)};
    }
  }

  class Validator {
    const inputs: PlanInputs
    var findings: seq<Code>
    var checks: nat

    constructor (inputs: PlanInputs)
      ensures this.inputs == inputs && findings == [] && checks == 0
    {
      this.inputs := inputs;
      findings, checks := [], 0;
    }

    /** The report is bounded: past the bound one last finding says that it was cut. */
    method Record(code: Code)
      requires |findings| <= MAX_FINDINGS + 1
      modifies this`findings
      ensures findings == Reported(old(findings), code)
    {
      if |findings| >= MAX_FINDINGS {
        if |findings| == MAX_FINDINGS {
          findings := findings + [Code.Exhausted];
        }
        return;
      }
      findings := findings + [code];
    }

    /** One counted check. The report stays clean exactly when it was clean and the check holds. */
    method Check(condition: bool, code: Code)
      requires |findings| <= MAX_FINDINGS + 1
      modifies this`findings, this`checks
      ensures |findings| <= MAX_FINDINGS + 1 && checks == old(checks) + 1
      ensures findings == if condition then old(findings) else Reported(old(findings), code)
    {
      checks := checks + 1;
      if !condition {
        Record(code);
      }
    }

    method CheckHeader(plan: ReconstructionPlan)
      requires |findings| <= MAX_FINDINGS + 1
      modifies this
      ensures |findings| <= MAX_FINDINGS + 1 && Leads(old(findings), findings)
      ensures findings == [] <==> old(findings) == [] && Current(inputs, plan) && Coherent(plan)
      ensures old(findings) == [] && findings != [] ==>
                findings[0] == if Current(inputs, plan) then Code.Invalid else Code.Stale
    {
      Check(plan.epoch == inputs.epoch, Code.Stale);
      Check(plan.boot == inputs.boot, Code.Stale);
      Check(plan.topology == inputs.topology, Code.Stale);
      Check(plan.policy == Basis(inputs), Code.Stale);
      Check(plan.failedGenerations != [], Code.Invalid);
      Check(!plan.feasibility.ProvenInfeasible? || (plan.restores == [] && plan.unresolved != []), Code.Invalid);
      Check(!plan.feasibility.NothingToRestore? || plan.restores == [], Code.Invalid);
    }

    method CheckFences(plan: ReconstructionPlan)
      requires |findings| <= MAX_FINDINGS + 1
      modifies this
      ensures |findings| <= MAX_FINDINGS + 1 && Leads(old(findings), findings)
      ensures findings == [] <==> old(findings) == [] && FencesOk(inputs, plan)
      ensures old(findings) == [] && findings != [] ==> findings[0] in {Code.Invalid, Code.Fenced}
    {
      var covered: set<SwitchKey> := {};
      for i := 0 to |plan.fences|
        invariant |findings| <= MAX_FINDINGS + 1 && Leads(old(findings), findings)
        invariant findings == [] <==> old(findings) == [] && forall j :: 0 <= j < i ==>
                    FenceOk(inputs, plan, plan.fences[j])
        invariant old(findings) == [] && findings != [] ==> findings[0] in {Code.Invalid, Code.Fenced}
        invariant forall key :: key in covered <==> exists j :: 0 <= j < i && plan.fences[j].failed == key
      {
        var step := plan.fences[i];
        covered := covered + {step.failed};
        Check(step.failed.Valid(), Code.Invalid);
        if step.closureState.Truncated? {
          Check(!plan.closureComplete, Code.Invalid);
        }
        if step.failed !in inputs.fenced {
          Check(false, Code.Fenced);
        }
      }
      for k := 0 to |plan.failedGenerations|
        invariant |findings| <= MAX_FINDINGS + 1 && Leads(old(findings), findings)
        invariant findings == [] <==>
                    && old(findings) == [] && (forall j :: 0 <= j < |plan.fences| ==>
                                                 FenceOk(inputs, plan, plan.fences[j]))
                    && forall j :: 0 <= j < k ==> HasFence(plan.fences, plan.failedGenerations[j])
        invariant old(findings) == [] && findings != [] ==> findings[0] in {Code.Invalid, Code.Fenced}
      {
        Check(plan.failedGenerations[k] in covered, Code.Fenced);
      }
    }

    method CheckHops(plan: ReconstructionPlan, step: RestoreStep)
      requires |findings| <= MAX_FINDINGS + 1
      modifies this
      ensures |findings| <= MAX_FINDINGS + 1 && Leads(old(findings), findings)
      ensures findings == [] <==>
                old(findings) == [] && forall k :: 0 <= k < |step.hops| ==> HopOk(inputs, plan, step.hops[k])
    {
      for k := 0 to |step.hops|
        invariant |findings| <= MAX_FINDINGS + 1 && Leads(old(findings), findings)
        invariant findings == [] <==>
                    old(findings) == [] && forall j :: 0 <= j < k ==> HopOk(inputs, plan, step.hops[j])
      {
        var hop := step.hops[k];
        Check(hop !in plan.failedGenerations, Code.Fenced);
        if hop in inputs.fenced {
          Check(false, Code.Fenced);
          continue;
        }
        if hop !in inputs.topology.switches {
          Check(false, if KnownIdentity(inputs, hop.id) then Code.Stale else Code.NotFound);
          continue;
        }
        if inputs.assess(hop).fenceRequired {
          Check(false, Code.Fenced);
        }
        if inputs.assess(hop).outcome == Code.Conflict {
          Check(false, Code.Conflict);
        }
      }
    }

    method CheckLinks(links: seq<U64>)
      requires |findings| <= MAX_FINDINGS + 1
      modifies this
      ensures |findings| <= MAX_FINDINGS + 1 && Leads(old(findings), findings)
      ensures findings == [] <==> old(findings) == [] && forall k :: 0 <= k < |links| ==>
                links[k] in inputs.topology.links
    {
      for k := 0 to |links|
        invariant |findings| <= MAX_FINDINGS + 1 && Leads(old(findings), findings)
        invariant findings == [] <==> old(findings) == [] && forall j :: 0 <= j < k ==>
                    links[j] in inputs.topology.links
      {
        Check(links[k] in inputs.topology.links, Code.NotFound);
      }
    }

    /** One step; a demand restored before is reported ahead of its hops. */
    method CheckStep(plan: ReconstructionPlan, step: RestoreStep, first: bool)
      requires |findings| <= MAX_FINDINGS + 1
      modifies this
      ensures |findings| <= MAX_FINDINGS + 1 && Leads(old(findings), findings)
      ensures findings == [] <==> old(findings) == [] && StepOk(inputs, plan, step) && first
    {
      Check(step.dependent.Valid(), Code.Invalid);
      Check(step.coversFailed.Valid(), Code.Invalid);
      Check(step.coversFailed in plan.failedGenerations, Code.Invalid);
      Check(step.action.RebindReplacement?, Code.Invalid);
      Check(|step.hops| != 0, Code.Invalid);
      Check(step.cost != 0, Code.Invalid);
      Check(step.hops == [] || step.replacement == step.hops[0], Code.Invalid);
      Check(first, Code.AlreadyExists);
      CheckHops(plan, step);
      CheckLinks(step.links);
    }

    /** Every step on its own, and no demand twice. */
    method CheckSteps(plan: ReconstructionPlan) returns (usage: map<SwitchKey, nat>)
      requires |findings| <= MAX_FINDINGS + 1
      modifies this
      ensures |findings| <= MAX_FINDINGS + 1 && Leads(old(findings), findings)
      ensures findings == [] <==>
                && old(findings) == []
                && (forall i :: 0 <= i < |plan.restores| ==> StepOk(inputs, plan, plan.restores[i]))
                && (forall i, j :: 0 <= i < j < |plan.restores| ==>
                      Target(plan.restores[i]) != Target(plan.restores[j]))
      ensures Counts(usage, plan.restores, |plan.restores|)
    {
      var seen: set<Demand> := {};
      usage := map[];
      for i := 0 to |plan.restores|
        invariant |findings| <= MAX_FINDINGS + 1 && Leads(old(findings), findings)
        invariant findings == [] <==> old(findings) == [] && StepsOk(inputs, plan, i)
        invariant forall d :: d in seen <==> exists j :: 0 <= j < i && Target(plan.restores[j]) == d
        invariant Counts(usage, plan.restores, i)
      {
        var step := plan.restores[i];
        CheckStep(plan, step, Target(step) !in seen);
        seen := seen + {Target(step)};
        CountsNext(usage, plan.restores, i);
        usage := Count(usage, step.hops);
      }
    }

    method CheckUsage(usage: map<SwitchKey, nat>)
      requires |findings| <= MAX_FINDINGS + 1
      modifies this
      ensures |findings| <= MAX_FINDINGS + 1 && Leads(old(findings), findings)
      ensures findings == [] <==> old(findings) == [] && UsageOk(inputs.topology, usage, usage.Keys)
    {
      var keys := usage.Keys;
      while keys != {}
        invariant |findings| <= MAX_FINDINGS + 1 && Leads(old(findings), findings) && keys <= usage.Keys
        invariant findings == [] <==> old(findings) == [] && UsageOk(inputs.topology, usage, usage.Keys - keys)
        decreases |keys|
      {
        var key :| key in keys;
        ghost var done := usage.Keys - keys;
        assert usage.Keys - (keys - {key}) == done + {key};
        keys := keys - {key};
        if key in inputs.topology.switches && usage[key] > inputs.topology.switches[key].capacityScore {
          Check(false, Code.Exhausted);
        }
      }
      assert usage.Keys - keys == usage.Keys;
    }

    method CheckRestores(plan: ReconstructionPlan)
      requires |findings| <= MAX_FINDINGS + 1
      modifies this
      ensures |findings| <= MAX_FINDINGS + 1 && Leads(old(findings), findings)
      ensures findings == [] <==> old(findings) == [] && RestoresOk(inputs, plan)
    {
      var usage := CheckSteps(plan);
      UsageMeans(inputs.topology, usage, plan.restores);
      CheckUsage(usage);
    }

    method CheckDemands(plan: ReconstructionPlan, demands: seq<Demand>)
      requires |findings| <= MAX_FINDINGS + 1
      modifies this
      ensures |findings| <= MAX_FINDINGS + 1 && Leads(old(findings), findings)
      ensures findings == [] <==> old(findings) == [] && forall d :: d in demands ==> Resolved(plan, d)
      ensures old(findings) == [] && findings != [] ==> findings[0] == Code.PartialClosure
    {
      var resolved := CollectResolved(plan);
      for k := 0 to |demands|
        invariant |findings| <= MAX_FINDINGS + 1 && Leads(old(findings), findings)
        invariant findings == [] <==> old(findings) == [] && forall j :: 0 <= j < k ==> Resolved(plan, demands[j])
        invariant old(findings) == [] && findings != [] ==> findings[0] == Code.PartialClosure
      {
        if demands[k] !in resolved {
          Check(false, Code.PartialClosure);
        }
      }
    }

    method CheckCoverage(plan: ReconstructionPlan)
      requires |findings| <= MAX_FINDINGS + 1 && ValidInputs(inputs)
      modifies this
      ensures |findings| <= MAX_FINDINGS + 1 && Leads(old(findings), findings)
      ensures findings == [] <==> old(findings) == [] && CoverageOk(inputs, plan)
      ensures old(findings) == [] && findings != [] ==>
                findings[0] == if Covers(inputs, plan) then Code.Invalid else Code.PartialClosure
    {
      var demandPlan := BuildDemandPlan(inputs, plan.failedGenerations);
      CheckDemands(plan, demandPlan.demands);
      Check(plan.closureComplete == demandPlan.closureComplete, Code.Invalid);
    }

    method CheckOrdering(plan: ReconstructionPlan)
      requires |findings| <= MAX_FINDINGS + 1
      modifies this
      ensures |findings| <= MAX_FINDINGS + 1 && Leads(old(findings), findings)
      ensures findings == [] <==> old(findings) == [] && OrderingOk(plan)
      ensures old(findings) == [] && findings != [] ==> findings[0] == Code.Invalid
    {
      Check(forall i :: 0 < i < |plan.restores| ==> !RestoreLess(plan.restores[i], plan.restores[i - 1]), Code.Invalid);
      Check(forall i :: 0 < i < |plan.unresolved| ==>
              !UnresolvedLess(plan.unresolved[i], plan.unresolved[i - 1]), Code.Invalid);
    }

    /** The validator accepts exactly the valid plans, and a refusal names the first finding. */
    method Validate(plan: ReconstructionPlan) returns (report: ValidationReport)
      requires findings == [] && ValidInputs(inputs)
      modifies this
      ensures report.valid <==> ValidPlan(inputs, plan)
      ensures report.findings == findings && report.valid == (findings == [])
      ensures report.outcome == if findings == [] then Code.Ok else findings[0]
      ensures !plan.sealed ==> report.findings == [Code.Corrupt]
      ensures plan.sealed && !(Current(inputs, plan) && Coherent(plan)) ==>
                report.outcome == if Current(inputs, plan) then Code.Invalid else Code.Stale
      ensures plan.sealed && Current(inputs, plan) && Coherent(plan) && !FencesOk(inputs, plan) ==>
                report.outcome in {Code.Invalid, Code.Fenced}
      ensures plan.sealed && Current(inputs, plan) && Coherent(plan) && FencesOk(inputs, plan) &&
              RestoresOk(inputs, plan) && !report.valid ==>
                report.outcome == if Covers(inputs, plan) then Code.Invalid else Code.PartialClosure
    {
      Check(plan.sealed, Code.Corrupt);
      if plan.sealed {
        CheckHeader(plan);
        CheckFences(plan);
        CheckRestores(plan);
        CheckCoverage(plan);
        CheckOrdering(plan);
      }
      report := ValidationReport(findings == [], if findings == [] then Code.Ok else findings[0], findings, checks);
    }
  }
}
