/**
 Restoring service (evaluate_restore, src/runtime/failover.cpp) and applying plans: what has to have
 happened before a dependent may forward again, and exactly how many steps of a plan take effect.
 */
module Restoration {
  import opened Identity
  import opened Canonical
  import opened Evidence
  import opened Plan
  import opened Runtime
  import opened RuntimeRuns
  import opened Restarts
  import Authority
  import Validator

  // ---- The decision ----

  /** A generation that an active grant of the dependent is bound to. */
  ghost predicate BoundNow(s: State, dependent: DependentRef, now: U64, key: SwitchKey) {
    exists id ::
      && id in s.registry.grants && s.registry.grants[id].dependent == dependent
      && s.registry.grants[id].ActiveAt(now) && key in s.registry.grants[id].bound
  }

  predicate Hazard(s: State, key: SwitchKey, now: U64) {
    key in s.registry.fences || AssessNow(s, key, now).fenceRequired
  }

  ghost predicate Blocked(s: State, dependent: DependentRef, now: U64) {
    exists key :: BoundNow(s, dependent, now, key) && Hazard(s, key, now)
  }

  /** The recorded step the decision looks at: the last one of the dependent in map order. */
  ghost predicate LastStep(steps: StepMap, dependent: DependentRef, key: StepKey) {
    && key in steps && key.dependent == dependent
    && forall other :: other in steps && other.dependent == dependent ==> !KeyLess(key.replacement, other.replacement)
  }

  /** Service may be restored: nothing in the way, authority now, and the effect seen to have happened. */
  ghost predicate Permits(s: State, dependent: DependentRef, now: U64) {
    && !Blocked(s, dependent, now)
    && Authority.HasActive(s.registry, dependent, now)
    && exists key :: LastStep(s.steps, dependent, key)
                     && (s.steps[key].AckVerified? ||
                         (s.policy.allowAcknowledgementRestore && !s.steps[key].AckFailed?))
  }

  // ---- The gate ----

  /** The runtime takes the report in, and it reaches the step: the plan it names is retained with that step. */
  ghost predicate Reports(s: State, event: Event, key: StepKey) {
    && !s.stopped && event.Called? && event.call.VerifyEffect? && event.c.admitted
    && var r := event.call.verification;
       && (r.kind.EffectVerification? || r.kind.EffectFailure?)
       && r.id < RESERVED_ID_BASE && r.effectPlan in s.plans
       && r.effectDependent == key.dependent
       && Names(s.plans[r.effectPlan].restores, |s.plans[r.effectPlan].restores|, key)
  }

  /** A plan with that step takes effect again. */
  ghost predicate Reapplies(s: State, event: Event, key: StepKey)
    requires Inputs(s)
  {
    && !s.stopped && event.Called? && event.call.ApplyPlan? && s.topology.Some? && event.call.planId in s.plans
    && var plan := s.plans[event.call.planId];
       && Applicable(s, plan, event.c.now) && !plan.feasibility.NothingToRestore?
       && Names(plan.restores, |plan.restores|, key)
  }

  // ---- What one call does to a recorded step ----

  lemma {:induction false} AppliedSteps(s: State, restores: seq<RestoreStep>, n: nat, now: U64, key: StepKey)
    requires s.topology.Some? && n <= |restores|
    ensures var a := ApplySteps(s, restores, n, now);
            if Names(restores, n, key) then key in a.steps && (a.steps[key].AckApplied? || a.steps[key].AckFailed?)
            else (key in a.steps <==> key in s.steps) && (key in s.steps ==> a.steps[key] == s.steps[key])
  {
    if n > 0 {
      AppliedSteps(s, restores, n - 1, now, key);
      var step := restores[n - 1];
      if StepKey(step.dependent, step.replacement) != key {
        assert Names(restores, n, key) == Names(restores, n - 1, key);
      }
    }
  }

  lemma DeclaringSteps(s: State, d: Declaration, id: U64, admitted: bool, now: U64, fencing: bool)
    requires Inputs(s)
    ensures DeclaringFailure(s, d, id, admitted, now, fencing).state.steps == s.steps
  {
    var recorded := RecordingFailure(s, d, id, admitted, now);
    assert recorded.state.steps == s.steps;
    if fencing && Established(s, d, id, admitted, now) {
      FencingSteps(recorded.state, d, now);
    }
  }

  lemma FencingSteps(s: State, d: Declaration, now: U64)
    requires s.topology.Some? && Topology.Valid(s.topology.value)
    ensures FencingFailure(s, d, now).state.steps == s.steps
  {
  }

  lemma {:induction false} MarkedKeys(steps: StepMap, restores: seq<RestoreStep>, n: nat, dependent: DependentRef,
                                      ack: AckState)
    requires n <= |restores|
    ensures Marked(steps, restores, n, dependent, ack).Keys == steps.Keys
  {
    if n > 0 {
      MarkedKeys(steps, restores, n - 1, dependent, ack);
    }
  }

  lemma OtherCallsSteps(s: State, call: Call, c: Circumstance)
    requires Inputs(s) && !call.DeclareFailure? && !call.ApplyPlan? && !call.VerifyEffect?
    ensures Acting(s, call, c).state.steps == s.steps
  {
  }

  // ---- Exact accounting of an application ----

  /** How many more grants the registry may hold. */
  function Room(s: State): (room: nat) {
    if |s.registry.grants| < s.limits.maxAuthorityGrants then s.limits.maxAuthorityGrants - |s.registry.grants| else 0
  }

  /** A step that nothing but the grant bound can stop. */
  ghost predicate Grantable(s: State, step: RestoreStep, now: U64)
    requires s.topology.Some?
  {
    && step.dependent.Valid() && step.hops != []
    && HopsUsable(s, s.registry.fences, step.hops, now)
  }

  lemma GrantableOutcome(s: State, r: Authority.Registry, step: RestoreStep, now: U64)
    requires s.topology.Some? && Identified(s) && Grantable(s, step, now) && r.fences == s.registry.fences
    ensures StepAck(s, r, step, now) == if |r.grants| < s.limits.maxAuthorityGrants then AckApplied else AckFailed
  {
    assert step.hops[0] in Elements(step.hops);
    forall k | k in Elements(step.hops)
      ensures k !in r.fences
    {
      var j :| 0 <= j < |step.hops| && step.hops[j] == k;
      assert HopUsable(s, s.registry.fences, step.hops[j], now);
    }
  }

  function Smaller(a: nat, b: nat): (m: nat) {
    if a < b then a else b
  }

  lemma GrantedCounts(r: Authority.Registry, dependent: DependentRef, bound: set<SwitchKey>, epoch: nat, boot: nat,
                      now: U64, ttl: U64)
    requires Authority.Numbered(r)
    ensures |Authority.Granted(r, dependent, bound, epoch, boot, now, ttl).grants| == |r.grants| + 1
    ensures Authority.Numbered(Authority.Granted(r, dependent, bound, epoch, boot, now, ttl))
    ensures Authority.Granted(r, dependent, bound, epoch, boot, now, ttl).fences == r.fences
  {
    assert r.nextGrant !in r.grants;
  }

  /** The applied steps are a prefix, as long as the room for grants. */
  lemma {:induction false} ApplyCounts(s: State, restores: seq<RestoreStep>, n: nat, now: U64)
    requires s.topology.Some? && Identified(s) && Authority.Numbered(s.registry) && n <= |restores|
    requires forall i :: 0 <= i < |restores| ==> Grantable(s, restores[i], now)
    ensures var a := ApplySteps(s, restores, n, now);
            && Authority.Numbered(a.registry) && a.registry.fences == s.registry.fences
            && |a.registry.grants| == |s.registry.grants| + Smaller(n, Room(s))
            && forall i :: 0 <= i < n ==> a.results[i].ack == if i < Room(s) then AckApplied else AckFailed
  {
    if n > 0 {
      ApplyCounts(s, restores, n - 1, now);
      var before := ApplySteps(s, restores, n - 1, now);
      var step := restores[n - 1];
      GrantableOutcome(s, before.registry, step, now);
      GrantedCounts(before.registry, step.dependent, Elements(step.hops), s.epoch, s.boot, now, s.policy.grantTtl);
    }
  }

  lemma {:induction false} AppliedKeys(s: State, restores: seq<RestoreStep>, n: nat, now: U64)
    requires s.topology.Some? && n <= |restores|
    ensures forall i :: 0 <= i < n ==>
              ApplySteps(s, restores, n, now).results[i].key == StepKey(restores[i].dependent, restores[i].replacement)
  {
    if n > 0 {
      AppliedKeys(s, restores, n - 1, now);
    }
  }

  lemma ValidatedStep(s: State, plan: ReconstructionPlan, i: nat, now: U64)
    requires s.topology.Some? && Inputs(s) && Validates(s, plan, now) && i < |plan.restores|
    ensures Grantable(s, plan.restores[i], now)
  {
    var inputs := MakeInputs(s, plan.id, now);
    var step := plan.restores[i];
    assert Validator.StepOk(inputs, plan, step);
    forall k | 0 <= k < |step.hops|
      ensures HopUsable(s, s.registry.fences, step.hops[k], now)
    {
      assert Validator.HopOk(inputs, plan, step.hops[k]);
    }
  }

  /** One result per step, Applied as long as there was room. */
  ghost predicate Accounts(results: seq<StepResult>, restores: seq<RestoreStep>, room: nat) {
    && |results| == |restores|
    && forall i :: 0 <= i < |restores| ==>
         && results[i].key == StepKey(restores[i].dependent, restores[i].replacement)
         && results[i].ack == if i < room then AckApplied else AckFailed
  }

  lemma PlanAccounting(s: State, plan: ReconstructionPlan, now: U64)
    requires s.topology.Some? && Inputs(s) && Identified(s) && Authority.Numbered(s.registry)
    requires Applicable(s, plan, now) && plan.feasibility.ProvenFeasible?
    ensures var a := ApplySteps(s, plan.restores, |plan.restores|, now);
            && Accounts(a.results, plan.restores, Room(s))
            && |a.registry.grants| == |s.registry.grants| + Smaller(|plan.restores|, Room(s))
  {
    forall i | 0 <= i < |plan.restores|
      ensures Grantable(s, plan.restores[i], now)
    {
      ValidatedStep(s, plan, i, now);
    }
    ApplyCounts(s, plan.restores, |plan.restores|, now);
    AppliedKeys(s, plan.restores, |plan.restores|, now);
  }

  lemma RunCalled(events: seq<Event>, call: Call, c: Circumstance)
    requires Run(events).Up?
    ensures var e := Perform(Run(events).state, call, c);
            Run(events + [Called(call, c)]) == Up(e.state, Run(events).journal + e.entries)
  {
    assert (events + [Called(call, c)])[..|events|] == events;
  }

  lemma PerformApplies(s: State, call: Call, c: Circumstance)
    requires Inputs(s) && !s.stopped && call.ApplyPlan?
    ensures Perform(s, call, c) == ApplyingPlan(s, call.planId, c.now)
  {
  }

  lemma ApplicableApplies(s: State, planId: U64, now: U64)
    requires Inputs(s) && s.topology.Some? && planId in s.plans && Applicable(s, s.plans[planId], now)
    ensures ApplyingPlan(s, planId, now) == ApplyEffect(s, s.plans[planId], now)
  {
  }

  /**
   In every reachable state, applying a retained plan that is applicable and proven grants exactly
   the first steps that fit under the grant bound: a step can fail only because the bound was
   reached. The journal holds the plan, the receipt that says so, and the plan again.
   */
  lemma ApplyAccounting(events: seq<Event>, planId: U64, c: Circumstance)
    requires Run(events).Up? && !Run(events).state.stopped
    requires Run(events).state.topology.Some? && planId in Run(events).state.plans
    requires Applicable(Run(events).state, Run(events).state.plans[planId], c.now)
    requires Run(events).state.plans[planId].feasibility.ProvenFeasible?
    ensures var s, journal := Run(events).state, Run(events).journal;
            var plan, after := s.plans[planId], Run(events + [Called(ApplyPlan(planId), c)]);
            var results := ApplySteps(s, plan.restores, |plan.restores|, c.now).results;
            && Accounts(results, plan.restores, Room(s))
            && after.Up?
            && after.journal == journal + [PlanCommitted(plan), ApplyCompleted(results), PlanCommitted(plan)]
            && |after.state.registry.grants| == |s.registry.grants| + Smaller(|plan.restores|, Room(s))
  {
    var s := Run(events).state;
    var plan := s.plans[planId];
    PlanAccounting(s, plan, c.now);
    PerformApplies(s, ApplyPlan(planId), c);
    ApplicableApplies(s, planId, c.now);
    RunCalled(events, ApplyPlan(planId), c);
  }
}
