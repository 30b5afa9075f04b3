/**
 What installing a topology and applying a plan grant (install_topology,
 src/runtime/coordinator.cpp:301-354, and apply_plan, src/runtime/failover.cpp:500-579), and what
 the codes of an application and of an effect report say.
 */
module Grants {
  import opened Identity
  import opened Outcome
  import opened Canonical
  import opened Topology
  import opened Evidence
  import opened Plan
  import opened Runtime
  import opened RuntimeRuns
  import opened Restarts
  import opened Restoration
  import Authority

  // ---- One grant ----

  /** Active authority over exactly these generations, given now under the current identity and policy. */
  ghost predicate Holder(s: State, r: Authority.Registry, dependent: DependentRef, bound: set<SwitchKey>, now: U64) {
    exists id :: id in r.grants && Fits(s, r.grants[id], dependent, bound, now)
  }

  predicate Fits(s: State, g: Authority.Grant, dependent: DependentRef, bound: set<SwitchKey>, now: U64) {
    && g.state.Active? && g.dependent == dependent && g.bound == bound
    && g.epoch == s.epoch && g.boot == s.boot && g.grantedAt == now
    && g.expiresAt == if now + s.policy.grantTtl <= U64_MAX then now + s.policy.grantTtl else U64_MAX
  }

  /** Why a dependent may have to go without: malformed, over a fenced generation, or no room. */
  ghost predicate Without(s: State, r: Authority.Registry, dependent: DependentRef, bound: set<SwitchKey>) {
    || !dependent.Valid() || bound == {}
    || (exists key :: key in bound && key in r.fences)
    || |r.grants| >= s.limits.maxAuthorityGrants
  }

  /** Grants are only added. */
  ghost predicate Grown(before: Authority.Registry, after: Authority.Registry) {
    && (forall id :: id in before.grants ==> id in after.grants && after.grants[id] == before.grants[id])
    && after.fences == before.fences && |before.grants| <= |after.grants|
  }

  /** The dependent holds what it asked for, or has to go without. */
  ghost predicate Settled(s: State, r: Authority.Registry, dependent: DependentRef, bound: set<SwitchKey>, now: U64) {
    Holder(s, r, dependent, bound, now) || Without(s, r, dependent, bound)
  }

  lemma GrownTwice(a: Authority.Registry, b: Authority.Registry, c: Authority.Registry)
    requires Grown(a, b) && Grown(b, c)
    ensures Grown(a, c)
  {
  }

  lemma {:induction false} GrownChain(states: seq<Authority.Registry>, m: nat, n: nat)
    requires m <= n < |states| && forall k :: 0 <= k < |states| - 1 ==> Grown(states[k], states[k + 1])
    ensures Grown(states[m], states[n])
  {
    if m < n {
      GrownChain(states, m, n - 1);
      assert Grown(states[n - 1], states[n - 1 + 1]);
      GrownTwice(states[m], states[n - 1], states[n]);
    }
  }

  lemma GrownHolds(s: State, before: Authority.Registry, after: Authority.Registry, dependent: DependentRef,
                   bound: set<SwitchKey>, now: U64)
    requires Grown(before, after)
    ensures Holder(s, before, dependent, bound, now) ==> Holder(s, after, dependent, bound, now)
    ensures Settled(s, before, dependent, bound, now) ==> Settled(s, after, dependent, bound, now)
  {
  }

  lemma TryGrantNumbered(s: State, r: Authority.Registry, dependent: DependentRef, bound: set<SwitchKey>, now: U64)
    requires Authority.Numbered(r)
    ensures Authority.Numbered(TryGrant(s, r, dependent, bound, now))
  {
  }

  lemma TryGrantHolds(s: State, r: Authority.Registry, dependent: DependentRef, bound: set<SwitchKey>, now: U64)
    requires Identified(s) && Authority.Numbered(r)
    ensures var next := TryGrant(s, r, dependent, bound, now);
            && Authority.Numbered(next) && Grown(r, next)
            && Settled(s, next, dependent, bound, now)
  {
    var next := TryGrant(s, r, dependent, bound, now);
    if Authority.GrantOutcome(r, s.limits.maxAuthorityGrants, dependent, bound, s.epoch, s.boot,
                              s.policy.grantTtl) == Code.Ok {
      GrantedCounts(r, dependent, bound, s.epoch, s.boot, now, s.policy.grantTtl);
      assert Fits(s, next.grants[r.nextGrant], dependent, bound, now);
    }
  }

  // ---- Installing a topology ----

  lemma PathTurn(s: State, paths: seq<PathDescriptor>, k: nat, now: U64)
    requires k < |paths|
    ensures GrantingPaths(s, paths, k + 1, now)
         == TryGrant(s, GrantingPaths(s, paths, k, now), DependentRef(Path, paths[k].id), Elements(paths[k].hops), now)
  {
  }

  lemma {:induction false} PathsNumbered(s: State, paths: seq<PathDescriptor>, n: nat, now: U64)
    requires Identified(s) && Authority.Numbered(s.registry) && n <= |paths|
    ensures Authority.Numbered(GrantingPaths(s, paths, n, now))
  {
    if n > 0 {
      PathsNumbered(s, paths, n - 1, now);
      PathTurn(s, paths, n - 1, now);
      TryGrantNumbered(s, GrantingPaths(s, paths, n - 1, now), DependentRef(Path, paths[n - 1].id),
                       Elements(paths[n - 1].hops), now);
    }
  }

  lemma PathNext(s: State, paths: seq<PathDescriptor>, k: nat, now: U64)
    requires Identified(s) && Authority.Numbered(s.registry) && k < |paths|
    ensures Grown(GrantingPaths(s, paths, k, now), GrantingPaths(s, paths, k + 1, now))
    ensures Settled(s, GrantingPaths(s, paths, k + 1, now), DependentRef(Path, paths[k].id), Elements(paths[k].hops),
                    now)
  {
    PathsNumbered(s, paths, k, now);
    PathTurn(s, paths, k, now);
    TryGrantHolds(s, GrantingPaths(s, paths, k, now), DependentRef(Path, paths[k].id), Elements(paths[k].hops), now);
  }

  lemma PathsGrow(s: State, paths: seq<PathDescriptor>, m: nat, n: nat, now: U64)
    requires Identified(s) && Authority.Numbered(s.registry) && m <= n <= |paths|
    ensures Grown(GrantingPaths(s, paths, m, now), GrantingPaths(s, paths, n, now))
  {
    var states := seq(|paths| + 1, k requires 0 <= k <= |paths| => GrantingPaths(s, paths, k, now));
    forall k | 0 <= k < |paths|
      ensures Grown(states[k], states[k + 1])
    {
      PathNext(s, paths, k, now);
    }
    GrownChain(states, m, n);
  }

  lemma PathHeld(s: State, paths: seq<PathDescriptor>, now: U64, k: nat)
    requires Identified(s) && Authority.Numbered(s.registry) && k < |paths|
    ensures Settled(s, GrantingPaths(s, paths, |paths|, now), DependentRef(Path, paths[k].id),
                    Elements(paths[k].hops), now)
  {
    PathNext(s, paths, k, now);
    PathsGrow(s, paths, k + 1, |paths|, now);
    GrownHolds(s, GrantingPaths(s, paths, k + 1, now), GrantingPaths(s, paths, |paths|, now),
               DependentRef(Path, paths[k].id), Elements(paths[k].hops), now);
  }

  function Ends(l: LinkDescriptor): (ends: set<SwitchKey>) {
    {l.a, l.b}
  }

  lemma LinkTurn(s: State, r: Authority.Registry, links: seq<LinkDescriptor>, k: nat, now: U64)
    requires k < |links|
    ensures GrantingLinks(s, r, links, k + 1, now)
         == TryGrant(s, GrantingLinks(s, r, links, k, now), DependentRef(Link, links[k].id), Ends(links[k]), now)
  {
  }

  lemma {:induction false} LinksNumbered(s: State, r: Authority.Registry, links: seq<LinkDescriptor>, n: nat, now: U64)
    requires Identified(s) && Authority.Numbered(r) && n <= |links|
    ensures Authority.Numbered(GrantingLinks(s, r, links, n, now))
  {
    if n > 0 {
      LinksNumbered(s, r, links, n - 1, now);
      LinkTurn(s, r, links, n - 1, now);
      TryGrantNumbered(s, GrantingLinks(s, r, links, n - 1, now), DependentRef(Link, links[n - 1].id),
                       Ends(links[n - 1]), now);
    }
  }

  lemma LinkNext(s: State, r: Authority.Registry, links: seq<LinkDescriptor>, k: nat, now: U64)
    requires Identified(s) && Authority.Numbered(r) && k < |links|
    ensures Grown(GrantingLinks(s, r, links, k, now), GrantingLinks(s, r, links, k + 1, now))
    ensures Settled(s, GrantingLinks(s, r, links, k + 1, now), DependentRef(Link, links[k].id), Ends(links[k]), now)
  {
    LinksNumbered(s, r, links, k, now);
    LinkTurn(s, r, links, k, now);
    TryGrantHolds(s, GrantingLinks(s, r, links, k, now), DependentRef(Link, links[k].id), Ends(links[k]), now);
  }

  lemma LinksGrow(s: State, r: Authority.Registry, links: seq<LinkDescriptor>, m: nat, n: nat, now: U64)
    requires Identified(s) && Authority.Numbered(r) && m <= n <= |links|
    ensures Grown(GrantingLinks(s, r, links, m, now), GrantingLinks(s, r, links, n, now))
  {
    var states := seq(|links| + 1, k requires 0 <= k <= |links| => GrantingLinks(s, r, links, k, now));
    forall k | 0 <= k < |links|
      ensures Grown(states[k], states[k + 1])
    {
      LinkNext(s, r, links, k, now);
    }
    GrownChain(states, m, n);
  }

  lemma LinkHeld(s: State, r: Authority.Registry, links: seq<LinkDescriptor>, now: U64, k: nat)
    requires Identified(s) && Authority.Numbered(r) && k < |links|
    ensures Settled(s, GrantingLinks(s, r, links, |links|, now), DependentRef(Link, links[k].id), Ends(links[k]), now)
  {
    LinkNext(s, r, links, k, now);
    LinksGrow(s, r, links, k + 1, |links|, now);
    GrownHolds(s, GrantingLinks(s, r, links, k + 1, now), GrantingLinks(s, r, links, |links|, now),
               DependentRef(Link, links[k].id), Ends(links[k]), now);
  }

  /**
   Installing a topology gives every path authority over all its hops and every link over both its
   ends, unless one of them is fenced or the grants have reached their bound; no earlier grant and
   no fence changes.
   */
  lemma InstallingGrants(s: State, t: TopologySnapshot, paths: seq<PathDescriptor>, links: seq<LinkDescriptor>,
                         now: U64)
    requires Identified(s) && Authority.Numbered(s.registry) && Installable(t, paths, links)
    ensures var r := Installing(s, t, paths, links, now).state.registry;
            && Grown(s.registry, r)
            && (forall id :: id in t.paths ==>
                  Settled(s, r, DependentRef(Path, id), Elements(t.paths[id].hops), now))
            && (forall id :: id in t.links ==>
                  Settled(s, r, DependentRef(Link, id), Ends(t.links[id]), now))
  {
    var middle := GrantingPaths(s, paths, |paths|, now);
    var r := Installing(s, t, paths, links, now).state.registry;
    PathsGrow(s, paths, 0, |paths|, now);
    PathsNumbered(s, paths, |paths|, now);
    LinksGrow(s, middle, links, 0, |links|, now);
    GrownTwice(s.registry, middle, r);
    forall id | id in t.paths
      ensures Settled(s, r, DependentRef(Path, id), Elements(t.paths[id].hops), now)
    {
      var k :| 0 <= k < |paths| && paths[k] == t.paths[id];
      PathHeld(s, paths, now, k);
      GrownHolds(s, middle, r, DependentRef(Path, id), Elements(paths[k].hops), now);
    }
    forall id | id in t.links
      ensures Settled(s, r, DependentRef(Link, id), Ends(t.links[id]), now)
    {
      var k :| 0 <= k < |links| && links[k] == t.links[id];
      LinkHeld(s, middle, links, now, k);
    }
  }

  // ---- Applying a plan ----

  lemma StepHolds(s: State, a: ApplyState, step: RestoreStep, now: U64)
    requires s.topology.Some? && Authority.Numbered(a.registry)
    ensures var next := ApplyStep(s, a, step, now);
            && Authority.Numbered(next.registry) && Grown(a.registry, next.registry)
            && next.results == a.results + [StepResult(StepKey(step.dependent, step.replacement),
                                                       StepAck(s, a.registry, step, now))]
            && (StepAck(s, a.registry, step, now).AckApplied? ==>
                  Holder(s, next.registry, step.dependent, Elements(step.hops), now))
  {
    GrantedCounts(a.registry, step.dependent, Elements(step.hops), s.epoch, s.boot, now, s.policy.grantTtl);
    var next := ApplyStep(s, a, step, now);
    if StepAck(s, a.registry, step, now).AckApplied? {
      assert Fits(s, next.registry.grants[a.registry.nextGrant], step.dependent, Elements(step.hops), now);
    }
  }

  /** Every step reported Applied has its dependent hold authority over exactly the step's generations. */
  lemma {:induction false} AppliedHolds(s: State, restores: seq<RestoreStep>, n: nat, now: U64, k: nat)
    requires s.topology.Some? && Authority.Numbered(s.registry) && n <= |restores|
    ensures var a := ApplySteps(s, restores, n, now);
            && Authority.Numbered(a.registry) && Grown(s.registry, a.registry)
            && (k < n && a.results[k].ack.AckApplied? ==>
                  Holder(s, a.registry, restores[k].dependent, Elements(restores[k].hops), now))
  {
    if n > 0 {
      AppliedHolds(s, restores, n - 1, now, k);
      var before, after := ApplySteps(s, restores, n - 1, now), ApplySteps(s, restores, n, now);
      StepHolds(s, before, restores[n - 1], now);
      GrownTwice(s.registry, before.registry, after.registry);
      if k < n - 1 {
        assert after.results[k] == before.results[k];
        GrownHolds(s, before.registry, after.registry, restores[k].dependent, Elements(restores[k].hops), now);
      }
    }
  }

  lemma AllAppliedMeans(results: seq<StepResult>, restores: seq<RestoreStep>, room: nat)
    requires Accounts(results, restores, room)
    ensures AllApplied(results) <==> |restores| <= room
  {
    if |restores| > room {
      assert results[room].ack == AckFailed;
    }
  }

  /** What the code of an applicable, proven plan says: whether all its steps fitted under the grant bound. */
  lemma ApplyCodeExactly(s: State, planId: U64, now: U64)
    requires Inputs(s) && Identified(s) && Authority.Numbered(s.registry) && !s.stopped
    requires s.topology.Some? && planId in s.plans && Applicable(s, s.plans[planId], now)
    requires s.plans[planId].feasibility.ProvenFeasible?
    ensures ApplyCode(s, planId, now)
         == if |s.plans[planId].restores| <= Room(s) then Code.Unverified else Code.PartialClosure
  {
    RetainedCodeExactly(s, s.plans[planId], now);
  }

  lemma RetainedCodeExactly(s: State, plan: ReconstructionPlan, now: U64)
    requires Inputs(s) && Identified(s) && Authority.Numbered(s.registry) && s.topology.Some?
    requires Applicable(s, plan, now) && plan.feasibility.ProvenFeasible?
    ensures RetainedCode(s, plan, now) == if |plan.restores| <= Room(s) then Code.Unverified else Code.PartialClosure
  {
    PlanAccounting(s, plan, now);
    AllAppliedMeans(ApplySteps(s, plan.restores, |plan.restores|, now).results, plan.restores, Room(s));
    ApplicableCode(s, plan, now);
  }

  lemma ApplicableCode(s: State, plan: ReconstructionPlan, now: U64)
    requires s.topology.Some? && Inputs(s) && Applicable(s, plan, now) && plan.feasibility.ProvenFeasible?
    ensures RetainedCode(s, plan, now)
         == if AllApplied(ApplySteps(s, plan.restores, |plan.restores|, now).results)
            then Code.Unverified else Code.PartialClosure
  {
  }
}
