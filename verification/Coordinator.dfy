/**
 The coordinator object (src/runtime/coordinator.cpp, src/runtime/failover.cpp): the calls with
 their early returns and the order of their journal writes, proved against the state machine.
 */
module Coordinator {
  import opened Identity
  import opened Outcome
  import opened Canonical
  import opened Limits
  import opened Topology
  import opened Closure
  import opened ClosureSearch
  import opened Evidence
  import opened EvidenceStore
  import opened Candidates
  import opened Plan
  import opened Runtime
  import opened Restoration
  import Authority
  import Validator

  lemma SameUsability(s: State, t: State, fences: map<SwitchKey, Authority.FenceRecord>, hops: seq<SwitchKey>, now: U64)
    requires s.topology.Some? && t == s.(registry := t.registry, steps := t.steps)
    ensures HopsUsable(s, fences, hops, now) == HopsUsable(t, fences, hops, now)
  {
    forall k | 0 <= k < |hops|
      ensures HopUsable(s, fences, hops[k], now) == HopUsable(t, fences, hops[k], now)
    {
    }
  }

  class Coordinator {
    var journal: seq<Entry>
    var boot: nat
    var epoch: nat
    var failures: map<SwitchKey, FailureRecord>
    const authority: Authority.AuthorityRegistry
    var evidence: Buckets
    var steps: StepMap
    var plans: map<U64, ReconstructionPlan>
    var topology: Option<TopologySnapshot>
    var candidates: seq<ReconstructionCandidate>
    var policy: RuntimePolicy
    const limits: Limits
    var stopped: bool

    ghost function View(): (s: State)
      reads this, authority
    {
      State(boot, epoch, failures, authority.View(), evidence, steps, plans, topology, candidates, policy, limits,
            stopped)
    }

    ghost predicate Configured()
      reads this, authority
    {
      authority.maxGrants == limits.maxAuthorityGrants && authority.maxFences == limits.maxFences
    }

    constructor (entries: seq<Entry>, config: Config)
      ensures Configured() && fresh(authority) && limits == config.limits
      ensures Recovered() == NOTHING && Blank(config) && journal == entries
    {
      failures, evidence, steps, plans := map[], map[], map[], map[];
      topology, candidates, policy := None, [], config.policy;
      limits := config.limits;
      boot, epoch, stopped := 0, 0, false;
      journal := entries;
      authority := new Authority.AuthorityRegistry(config.limits.maxAuthorityGrants, config.limits.maxFences);
    }

    ghost function Recovered(): (r: Recovery)
      reads this, authority
    {
      Recovery(failures, authority.View(), steps, plans, boot, epoch)
    }

    /** What replay does not touch. */
    ghost predicate Blank(config: Config)
      reads this
    {
      evidence == map[] && topology == None && candidates == [] && policy == config.policy && !stopped
    }

    /** Opening replays the journal into an empty runtime and starts a new incarnation. */
    static method Open(entries: seq<Entry>, config: Config) returns (running: Coordinator?)
      ensures running != null <==> config.Valid()
      ensures running != null ==>
                && fresh(running) && fresh(running.authority) && running.Configured()
                && running.View() == Reopened(entries, config)
                && running.journal == entries + OpeningEntries(entries, config)
    {
      if !config.limits.Valid() || !config.policy.Valid() {
        return null;
      }
      var c := new Coordinator(entries, config);
      c.ReplayAll(entries, config);
      c.BeginIncarnation(Replay(entries), config);
      running := c;
    }

    method ReplayAll(entries: seq<Entry>, config: Config)
      requires Recovered() == NOTHING && Blank(config)
      modifies this`failures, this`steps, this`plans, this`boot, this`epoch, authority
      ensures Recovered() == Replay(entries) && Blank(config)
    {
      for i := 0 to |entries|
        invariant Recovered() == Replay(entries[..i])
        invariant Blank(config)
      {
        assert entries[..i + 1][..i] == entries[..i];
        ReplayRecord(entries[i]);
      }
      assert entries[..|entries|] == entries;
    }

    method InvalidateGrants()
      modifies authority
      ensures authority.View() == Invalidated(old(authority.View()), policy.fenceOnRestart)
    {
      var _ := authority.InvalidatePreRestart();
      if policy.fenceOnRestart {
        var _ := authority.WithdrawAll(Authority.Restart);
      }
    }

    method BeginIncarnation(ghost r: Recovery, config: Config)
      requires Recovered() == r && Blank(config) && limits == config.limits
      modifies this`boot, this`epoch, this`journal, authority
      ensures View() == Starting(r, config)
      ensures journal == old(journal) + Heading(r, config)
    {
      if boot != 0 {
        boot, epoch := boot + 1, epoch + 1;
      } else {
        boot, epoch := if config.bootOrdinal == 0 then 1 else config.bootOrdinal, 1;
      }
      InvalidateGrants();
      journal := journal + [StreamHeader(boot, epoch)];
      if epoch > 1 {
        journal := journal + [EpochAdvance(epoch)];
      }
    }

    /** One record of the replay loop. */
    method ReplayRecord(e: Entry)
      modifies this`failures, this`steps, this`plans, this`boot, this`epoch, authority
      ensures Recovered() == ReplayOne(old(Recovered()), e)
    {
      match e
      case StreamHeader(b, n) =>
        boot, epoch := b, n;
      case FailureCommitted(f) =>
        failures := RecordFailure(failures, f);
      case FenceCommitted(f) =>
        var _ := authority.RestoreFence(f);
      case GrantMinted(id, g) =>
        var _ := authority.RestoreGrant(id, g);
      case PlanCommitted(plan) =>
        plans := plans[plan.id := plan];
      case ApplyCompleted(results) =>
        ghost var before := steps;
        for i := 0 to |results|
          invariant steps == MergeResults(before, results, i)
          invariant Recovered() == old(Recovered()).(steps := steps)
        {
          steps := steps[results[i].key := results[i].ack];
        }
      case _ =>
    }

    /** Admits the assertion, adjudicates, and commits the failure: first the journal, then the table. */
    method RecordFailureLocked(d: Declaration, id: U64, admission: Code, now: U64) returns (code: Code)
      modifies this`evidence, this`failures, this`journal
      ensures code == FailureCode(old(View()), d, id, admission, now)
      ensures View() == Guarded(old(View()), RecordingFailure(old(View()), d, id, admission == Code.Ok, now)).state
      ensures journal == old(journal) +
                Guarded(old(View()), RecordingFailure(old(View()), d, id, admission == Code.Ok, now)).entries
    {
      if !d.subject.Valid() || d.source.UnknownSource? {
        return Code.Invalid;
      }
      if !TrustOf(d.source).Authoritative? {
        return Code.Unauthorized;
      }
      if d.observedAt == 0 || d.validFor == 0 || |d.reason| > MAX_MESSAGE_BYTES {
        return Code.Invalid;
      }
      if stopped {
        return Code.Closed;
      }
      if topology.None? {
        return Code.Unsupported;
      }
      if admission != Code.Ok {
        return admission;
      }
      code := Adjudicate(d, id, now);
    }

    method AssessCurrent(key: SwitchKey, now: U64) returns (a: SwitchAssessment)
      ensures a == AssessNow(View(), key, now)
    {
      a := AssessSwitch(key, Bucket(evidence, key), Lookup(failures, key), now, policy.assessment);
    }

    /** The part of a declaration after its assertion has been admitted. */
    method Adjudicate(d: Declaration, id: U64, now: U64) returns (code: Code)
      requires d.Valid() && topology.Some? && !stopped
      modifies this`evidence, this`failures, this`journal
      ensures code == FailureCode(old(View()), d, id, Code.Ok, now)
      ensures View() == RecordingFailure(old(View()), d, id, true, now).state
      ensures journal == old(journal) + RecordingFailure(old(View()), d, id, true, now).entries
    {
      ghost var s := View();
      evidence := Admitted(evidence, Assertion(d, id));
      var a := AssessCurrent(d.subject, now);
      AdjudicationMeans(s, View(), d, id, now, a);
      if a.outcome == Code.Conflict {
        return Code.Conflict;
      }
      if !a.fenceRequired {
        return if a.outcome == Code.Ok then Code.Denied else a.outcome;
      }
      CommitFailure(FailureRecord(d.subject, id, epoch, boot, d.observedAt, now, d.reason));
      code := Code.Ok;
    }

    method CommitFailure(f: FailureRecord)
      modifies this`failures, this`journal
      ensures View() == old(View()).(failures := RecordFailure(old(failures), f))
      ensures journal == old(journal) + [FailureCommitted(f)]
    {
      journal := journal + [FailureCommitted(f)];
      failures := RecordFailure(failures, f);
    }

    /** Withdraws the grants on the generation, commits the fence unless there is one, then journals it. */
    method FenceSubject(d: Declaration, now: U64) returns (code: Code)
      requires Configured() && topology.Some? && Topology.Valid(topology.value)
      modifies this`journal, authority
      ensures View() == FencingFailure(old(View()), d, now).state
      ensures journal == old(journal) + FencingFailure(old(View()), d, now).entries
      ensures code == FencingCode(old(View()), d, now)
    {
      ghost var s := View();
      var closure := ComputeClosure(topology.value, [SwitchNode(d.subject)], ClosureBudget(limits));
      var withdrawn := authority.FenceGenerations({d.subject});
      var fence := Authority.FenceRecord(
        0, d.subject, epoch, boot, now,
        if closure.state.Truncated? || closure.rootsAbsent != 0 then Authority.Partial else Authority.Committed,
        |closure.members|, withdrawn, closure.omittedFrontier, DefaultReason(d.reason));
      FencedBy(s, d, now, fence);
      code := CommitUnlessFenced(fence, s);
    }

    /** The generation is swept; a fence it already has stands, and its scope is the outcome. */
    method CommitUnlessFenced(fence: Authority.FenceRecord, ghost s: State) returns (code: Code)
      requires Configured() && View() == s.(registry := Withdrawing(s, fence))
      modifies this`journal, authority
      ensures View() == CommittingFence(s, fence).state
      ensures journal == old(journal) + CommittingFence(s, fence).entries
      ensures code == CommitCode(s, fence)
    {
      if fence.subject in authority.fences {
        return ScopeCode(authority.fences[fence.subject].scope);
      }
      code := CommitAndJournal(fence);
      if code == Code.Ok {
        code := ScopeCode(fence.scope);
      }
    }

    method CommitAndJournal(fence: Authority.FenceRecord) returns (code: Code)
      requires Configured()
      modifies this`journal, authority
      ensures code == Authority.FenceOutcome(old(authority.View()), limits.maxFences, fence)
      ensures var swept := old(authority.View());
              if code != Code.Ok then authority.View() == swept && journal == old(journal)
              else authority.View() == Authority.Fencing(swept, fence)
                   && journal == old(journal) + [FenceCommitted(fence.(id := swept.nextFence))]
    {
      var id;
      code, id := authority.CommitFence(fence);
      if code == Code.Ok {
        journal := journal + [FenceCommitted(fence.(id := id))];
      }
    }

    /** A failure is recorded, then fenced; the first refusal ends the call. */
    method DeclareFailure(d: Declaration, id: U64, admission: Code, now: U64, fencing: bool) returns (code: Code)
      requires Configured() && Inputs(View())
      modifies this`evidence, this`failures, this`journal, authority
      ensures View() ==
                Guarded(old(View()), DeclaringFailure(old(View()), d, id, admission == Code.Ok, now, fencing)).state
      ensures journal == old(journal) +
                Guarded(old(View()), DeclaringFailure(old(View()), d, id, admission == Code.Ok, now, fencing)).entries
      ensures code == DeclareCode(old(View()), d, id, admission, now, fencing)
    {
      ghost var s, before, admitted := View(), journal, admission == Code.Ok;
      if !stopped {
        DeclaringSplits(s, d, id, admission, now, fencing);
      }
      code := RecordFailureLocked(d, id, admission, now);
      ghost var recorded := View();
      if code == Code.Ok && fencing {
        code := FenceSubject(d, now);
        Rejoin(before, RecordingFailure(s, d, id, admitted, now).entries, FencingFailure(recorded, d, now).entries);
      }
    }

    method CheckHops(hops: seq<SwitchKey>, now: U64) returns (usable: bool)
      requires topology.Some?
      ensures usable <==> HopsUsable(View(), authority.fences, hops, now)
    {
      for k := 0 to |hops|
        invariant forall j :: 0 <= j < k ==> HopUsable(View(), authority.fences, hops[j], now)
      {
        var hop := hops[k];
        if hop in authority.fences || hop !in topology.value.switches {
          return false;
        }
        var a := AssessCurrent(hop, now);
        if a.fenceRequired {
          return false;
        }
      }
      usable := true;
    }

    method GrantStep(step: RestoreStep, now: U64) returns (ack: AckState)
      requires Configured()
      modifies authority
      ensures var r := old(authority.View());
              && ack == (if GrantFor(old(View()), r, step) == Code.Ok then AckApplied else AckFailed)
              && authority.View()
                 == if ack.AckApplied?
                    then Authority.Granted(r, step.dependent, Elements(step.hops), epoch, boot, now, policy.grantTtl)
                    else r
    {
      var code, _ := authority.GrantAuthority(step.dependent, Elements(step.hops), epoch, boot, now, policy.grantTtl);
      ack := if code == Code.Ok then AckApplied else AckFailed;
    }

    /** One step of a plan: usable hops, then the grant. */
    method ApplyOne(step: RestoreStep, now: U64, ghost before: ApplyState, ghost start: State)
      returns (result: StepResult)
      requires Configured() && topology.Some? && Carries(start)
      requires before.registry == authority.View() && before.steps == steps
      modifies this`steps, authority
      ensures Configured() && Carries(start)
      ensures ApplyState(authority.View(), steps, before.results + [result]) == ApplyStep(start, before, step, now)
    {
      var usable := CheckHops(step.hops, now);
      SameUsability(View(), start, authority.fences, step.hops, now);
      var key := StepKey(step.dependent, step.replacement);
      var ack := AckFailed;
      if usable {
        ack := GrantStep(step, now);
      }
      steps := steps[key := ack];
      result := StepResult(key, ack);
    }

    ghost predicate Carries(start: State)
      reads this, authority
    {
      start == View().(registry := start.registry, steps := start.steps)
    }

    /** The steps of a plan, in order. */
    method ApplyAll(restores: seq<RestoreStep>, now: U64, ghost start: State) returns (results: seq<StepResult>)
      requires Configured() && topology.Some? && start == View()
      modifies this`steps, authority
      ensures Carries(start)
      ensures ApplyState(authority.View(), steps, results) == ApplySteps(start, restores, |restores|, now)
    {
      results := [];
      for n := 0 to |restores|
        invariant Configured() && Carries(start) && topology == start.topology
        invariant ApplyState(authority.View(), steps, results) == ApplySteps(start, restores, n, now)
      {
        ghost var before := ApplySteps(start, restores, n, now);
        var result := ApplyOne(restores[n], now, before, start);
        results := results + [result];
      }
    }

    /** The write-ahead record, the steps, the receipt and the final record. */
    method ApplyValidated(plan: ReconstructionPlan, now: U64) returns (results: seq<StepResult>)
      requires Configured() && topology.Some?
      modifies this`steps, this`journal, authority
      ensures !plan.feasibility.NothingToRestore? ==>
                results == ApplySteps(old(View()), plan.restores, |plan.restores|, now).results
      ensures plan.feasibility.NothingToRestore? ==> results == []
      ensures View() == ApplyEffect(old(View()), plan, now).state
      ensures journal == old(journal) + ApplyEffect(old(View()), plan, now).entries
    {
      if plan.feasibility.NothingToRestore? {
        journal := journal + [ApplyCompleted([])];
        return [];
      }
      journal := journal + [PlanCommitted(plan)];
      results := ApplyAll(plan.restores, now, View());
      journal := journal + [ApplyCompleted(results)];
      journal := journal + [PlanCommitted(plan)];
    }

    method ApplyPlan(planId: U64, now: U64) returns (code: Code, results: seq<StepResult>)
      requires Configured() && Inputs(View())
      modifies this`steps, this`journal, authority
      ensures code == ApplyCode(old(View()), planId, now)
      ensures Receipt(Guarded(old(View()), ApplyingPlan(old(View()), planId, now)).entries, results)
      ensures View() == Guarded(old(View()), ApplyingPlan(old(View()), planId, now)).state
      ensures journal == old(journal) + Guarded(old(View()), ApplyingPlan(old(View()), planId, now)).entries
    {
      results := [];
      if stopped {
        return Code.Closed, results;
      }
      if topology.None? {
        return Code.Unsupported, results;
      }
      if planId !in plans {
        return Code.NotFound, results;
      }
      code, results := ApplyRetained(plans[planId], now);
    }

    method ApplyRetained(plan: ReconstructionPlan, now: U64) returns (code: Code, results: seq<StepResult>)
      requires Configured() && Inputs(View()) && topology.Some?
      modifies this`steps, this`journal, authority
      ensures code == RetainedCode(old(View()), plan, now)
      ensures Receipt(ApplyingRetained(old(View()), plan, now).entries, results)
      ensures View() == ApplyingRetained(old(View()), plan, now).state
      ensures journal == old(journal) + ApplyingRetained(old(View()), plan, now).entries
    {
      results := [];
      code := MayApply(plan, now);
      if code != Code.Ok {
        return;
      }
      results := ApplyValidated(plan, now);
      if !plan.feasibility.NothingToRestore? {
        code := if AllApplied(results) then Code.Unverified else Code.PartialClosure;
      }
    }

    /** Whether a retained plan may take effect now, or the first guard that refuses it. */
    method MayApply(plan: ReconstructionPlan, now: U64) returns (code: Code)
      requires Configured() && Inputs(View()) && topology.Some?
      ensures code == Code.Ok <==> Applicable(View(), plan, now)
      ensures code ==
                if !Validates(View(), plan, now) then Code.Invalid
                else if !plan.closureComplete && !policy.allowRestoreWhenClosureTruncated then Code.PartialClosure
                else if !plan.feasibility.NothingToRestore? && !plan.feasibility.ProvenFeasible? then Code.Indeterminate
                else Code.Ok
    {
      var inputs := PlanInputs(
        topology.value, candidates, Adjudicator(evidence, failures, policy.assessment, now), authority.fences.Keys,
        limits, policy.assessment, policy.planning, epoch, boot, plan.id);
      assert inputs == MakeInputs(View(), plan.id, now);
      var validator := new Validator.Validator(inputs);
      var report := validator.Validate(plan);
      if !report.valid {
        return Code.Invalid;
      }
      if !plan.closureComplete && !policy.allowRestoreWhenClosureTruncated {
        return Code.PartialClosure;
      }
      if !plan.feasibility.NothingToRestore? && !plan.feasibility.ProvenFeasible? {
        return Code.Indeterminate;
      }
      code := Code.Ok;
    }

    method EstablishAuthority(dependent: DependentRef, bound: set<SwitchKey>, now: U64) returns (code: Code)
      requires Configured()
      modifies authority
      ensures code ==
                if stopped then Code.Closed
                else Authority.GrantOutcome(old(authority.View()), limits.maxAuthorityGrants, dependent, bound,
                                            epoch, boot, policy.grantTtl)
      ensures View() ==
                if stopped then old(View())
                else old(View()).(registry := TryGrant(old(View()), old(authority.View()), dependent, bound, now))
    {
      if stopped {
        return Code.Closed;
      }
      var id;
      code, id := authority.GrantAuthority(dependent, bound, epoch, boot, now, policy.grantTtl);
    }

    method WithdrawAuthority(dependent: DependentRef, cause: Authority.RevocationCause)
      returns (code: Code, count: nat)
      requires Authority.Sound(authority.View())
      modifies authority
      ensures code == if stopped then Code.Closed else Code.Ok
      ensures stopped ==> authority.View() == old(authority.View()) && count == 0
      ensures !stopped ==>
                && authority.View()
                   == Authority.Sweeping(old(authority.View()), Authority.DependentSweep(dependent, cause))
                && count == |Authority.Hit(old(authority.View()).grants, Authority.DependentSweep(dependent, cause))|
    {
      if stopped {
        return Code.Closed, 0;
      }
      count := authority.RevokeDependent(dependent, cause);
      code := Code.Ok;
    }

    /** The first shutdown leaves its record behind and refuses every later call. */
    method Shutdown()
      modifies this`stopped, this`journal
      ensures View() == Guarded(old(View()), ShuttingDown(old(View()))).state
      ensures journal == old(journal) + Guarded(old(View()), ShuttingDown(old(View()))).entries
    {
      if !stopped {
        stopped := true;
        journal := journal + [ShutdownClean];
      }
    }

    /** The live fields that granting reads are those of the starting state. */
    ghost predicate Grants(start: State)
      reads this, authority
    {
      Configured() && boot == start.boot && epoch == start.epoch && policy == start.policy && limits == start.limits
    }

    /** A declared dependent is granted under the current identity, if the registry admits it. */
    method GrantOne(dependent: DependentRef, bound: set<SwitchKey>, now: U64, ghost start: State)
      requires Grants(start)
      modifies authority
      ensures Grants(start) && authority.View() == TryGrant(start, old(authority.View()), dependent, bound, now)
    {
      var _, _ := authority.GrantAuthority(dependent, bound, epoch, boot, now, policy.grantTtl);
    }

    /** Every path is declared to forward over its hops. */
    method GrantPaths(paths: seq<PathDescriptor>, now: U64, ghost start: State)
      requires Grants(start) && authority.View() == start.registry
      modifies authority
      ensures Grants(start) && authority.View() == GrantingPaths(start, paths, |paths|, now)
    {
      for n := 0 to |paths|
        invariant Grants(start) && authority.View() == GrantingPaths(start, paths, n, now)
      {
        GrantOne(DependentRef(Path, paths[n].id), Elements(paths[n].hops), now, start);
      }
    }

    /** Every link is declared to forward over its two ends. */
    method GrantLinks(links: seq<LinkDescriptor>, now: U64, ghost start: State)
      requires Grants(start)
      modifies authority
      ensures authority.View() == GrantingLinks(start, old(authority.View()), links, |links|, now)
    {
      for n := 0 to |links|
        invariant Grants(start) && authority.View() == GrantingLinks(start, old(authority.View()), links, n, now)
      {
        GrantOne(DependentRef(Link, links[n].id), {links[n].a, links[n].b}, now, start);
      }
    }

    method GrantDeclared(paths: seq<PathDescriptor>, links: seq<LinkDescriptor>, now: U64, ghost start: State)
      requires Grants(start) && authority.View() == start.registry
      modifies authority
      ensures authority.View() == Granting(start, paths, links, now)
    {
      GrantPaths(paths, now, start);
      GrantLinks(links, now, start);
    }

    /** Installing a topology establishes authority for every path and link it declares. */
    method InstallTopology(t: TopologySnapshot, paths: seq<PathDescriptor>, links: seq<LinkDescriptor>, now: U64)
      returns (code: Code)
      requires Configured() && Topology.Valid(t) && Tabled(t, paths, links)
      modifies this`topology, this`journal, authority
      ensures code == if stopped then Code.Closed else if t.switches == map[] then Code.Invalid else Code.Ok
      ensures View() == Guarded(old(View()), Installing(old(View()), t, paths, links, now)).state
      ensures journal == old(journal) + Guarded(old(View()), Installing(old(View()), t, paths, links, now)).entries
    {
      if stopped {
        return Code.Closed;
      }
      code := DeclareTopology(t, paths, links, now);
    }

    method DeclareTopology(t: TopologySnapshot, paths: seq<PathDescriptor>, links: seq<LinkDescriptor>, now: U64)
      returns (code: Code)
      requires Configured() && Topology.Valid(t) && Tabled(t, paths, links)
      modifies this`topology, this`journal, authority
      ensures code == if t.switches == map[] then Code.Invalid else Code.Ok
      ensures View() == Installing(old(View()), t, paths, links, now).state
      ensures journal == old(journal) + Installing(old(View()), t, paths, links, now).entries
    {
      ghost var s := View();
      InstallingMeans(s, t, paths, links, now);
      if t.switches == map[] {
        return Code.Invalid;
      }
      ReplaceTopology(t);
      GrantDeclared(paths, links, now, s);
      code := Code.Ok;
    }

    method ReplaceTopology(t: TopologySnapshot)
      modifies this`topology, this`journal
      ensures View() == old(View()).(topology := Some(t)) && journal == old(journal) + [TopologyInstalled]
    {
      journal := journal + [TopologyInstalled];
      topology := Some(t);
    }

    /** Marks the recorded steps of the named dependent, whatever plan applied them. */
    method MarkSteps(restores: seq<RestoreStep>, dependent: DependentRef, ack: AckState) returns (matched: bool)
      modifies this`steps
      ensures steps == Marked(old(steps), restores, |restores|, dependent, ack)
      ensures matched <==> Matches(old(steps), restores, |restores|, dependent)
    {
      matched := false;
      for n := 0 to |restores|
        invariant steps == Marked(old(steps), restores, n, dependent, ack) && steps.Keys == old(steps).Keys
        invariant matched <==> Matches(old(steps), restores, n, dependent)
      {
        var key := StepKey(restores[n].dependent, restores[n].replacement);
        if restores[n].dependent == dependent && key in steps {
          steps := steps[key := ack];
          matched := true;
        }
      }
    }

    /** An effect report: the refusals in order, then the recorded steps it reaches. */
    method RecordEffectVerification(r: EvidenceRecord, admission: Code) returns (code: Code)
      modifies this`evidence, this`steps
      ensures code == VerifyCode(old(View()), r, admission)
      ensures View() == if stopped then old(View()) else Verifying(old(View()), r, admission == Code.Ok)
    {
      if !(r.kind.EffectVerification? || r.kind.EffectFailure?) {
        return Code.Invalid;
      }
      if stopped {
        return Code.Closed;
      }
      if r.id >= RESERVED_ID_BASE {
        return Code.Invalid;
      }
      if admission != Code.Ok {
        return admission;
      }
      evidence := Admitted(evidence, r);
      if r.effectPlan !in plans {
        return Code.NotFound;
      }
      var matched := MarkSteps(plans[r.effectPlan].restores, r.effectDependent,
                               if r.kind.EffectVerification? then AckVerified else AckFailed);
      code := if matched then Code.Ok else Code.NotFound;
    }

    /** The last recorded step of a dependent in map order. */
    method FindLastStep(dependent: DependentRef) returns (found: bool, key: StepKey)
      ensures found ==> LastStep(steps, dependent, key)
      ensures !found ==> forall k :: k in steps ==> k.dependent != dependent
    {
      found, key := false, StepKey(dependent, SwitchKey(0, 0));
      var remaining := steps.Keys;
      while remaining != {}
        invariant remaining <= steps.Keys
        invariant found ==> key in steps && key.dependent == dependent
        invariant forall k :: k in steps && k !in remaining && k.dependent == dependent ==>
                    found && !KeyLess(key.replacement, k.replacement)
        decreases |remaining|
      {
        var k :| k in remaining;
        remaining := remaining - {k};
        if k.dependent == dependent && (!found || KeyLess(key.replacement, k.replacement)) {
          found, key := true, k;
        }
      }
    }

    method FindHazard(bound: set<SwitchKey>, now: U64) returns (blocked: bool)
      ensures blocked <==> exists key :: key in bound && Hazard(View(), key, now)
    {
      var remaining := bound;
      while remaining != {}
        invariant remaining <= bound
        invariant forall key :: key in bound && key !in remaining ==> !Hazard(View(), key, now)
        decreases |remaining|
      {
        var key :| key in remaining;
        remaining := remaining - {key};
        var a := AssessCurrent(key, now);
        if key in authority.fences || a.fenceRequired {
          assert Hazard(View(), key, now);
          return true;
        }
      }
      blocked := false;
    }

    /** The decision to restore service for one dependent. */
    method EvaluateRestore(dependent: DependentRef, now: U64) returns (mayRestore: bool, outcome: Code)
      requires Authority.Sound(authority.View())
      ensures mayRestore <==> dependent.Valid() && Permits(View(), dependent, now)
      ensures !dependent.Valid() ==> outcome == Code.Invalid
      ensures dependent.Valid() && Blocked(View(), dependent, now) ==> outcome == Code.Fenced
      ensures dependent.Valid() && !Blocked(View(), dependent, now) &&
              !Authority.HasActive(authority.View(), dependent, now) ==>
                outcome == Authority.Denial(authority.grants, Authority.Ids(authority.View(), dependent), now)
      ensures dependent.Valid() && !Blocked(View(), dependent, now) &&
              Authority.HasActive(authority.View(), dependent, now) ==>
                && (forall key :: LastStep(steps, dependent, key) ==> outcome == StepOutcome(steps[key]))
                && ((forall key :: key in steps ==> key.dependent != dependent) ==> outcome == Code.Unverified)
    {
      if !dependent.Valid() {
        return false, Code.Invalid;
      }
      var q := authority.Query(dependent, now);
      var blocked := FindHazard(q.bound, now);
      BlockedMeans(View(), dependent, now, q.active, q.bound);
      if blocked {
        return false, Code.Fenced;
      }
      if !q.hasAuthority {
        return false, q.outcome;
      }
      var found, key := FindLastStep(dependent);
      if !found {
        return false, Code.Unverified;
      }
      LastStepUnique(steps, dependent, key);
      outcome := StepOutcome(steps[key]);
      mayRestore := outcome == Code.Ok || (outcome == Code.Unverified && policy.allowAcknowledgementRestore);
    }
  }

  /** The results returned are those that were journalled. */
  ghost predicate Receipt(entries: seq<Entry>, results: seq<StepResult>) {
    ApplyCompleted(results) in entries || (results == [] && entries == [])
  }

  /** What the last recorded acknowledgement says about restoring service. */
  function StepOutcome(ack: AckState): (outcome: Code) {
    match ack
    case AckFailed => Code.Denied
    case AckVerified => Code.Ok
    case _ => Code.Unverified
  }

  /** Some recorded step of the dependent is among the first n restores. */
  ghost predicate Matches(steps: StepMap, restores: seq<RestoreStep>, n: nat, dependent: DependentRef)
    requires n <= |restores|
  {
    exists i :: 0 <= i < n && restores[i].dependent == dependent &&
      StepKey(restores[i].dependent, restores[i].replacement) in steps
  }

  /** The outcome of an effect report. */
  ghost function VerifyCode(s: State, r: EvidenceRecord, admission: Code): (code: Code) {
    if !(r.kind.EffectVerification? || r.kind.EffectFailure?) then Code.Invalid
    else if s.stopped then Code.Closed
    else if r.id >= RESERVED_ID_BASE then Code.Invalid
    else if admission != Code.Ok then admission
    else if r.effectPlan in s.plans &&
              Matches(s.steps, s.plans[r.effectPlan].restores, |s.plans[r.effectPlan].restores|, r.effectDependent)
    then Code.Ok
    else Code.NotFound
  }

  /** An effect report succeeds exactly when it is taken in and reaches a recorded step of its plan. */
  lemma VerifyCodeExactly(s: State, r: EvidenceRecord, admission: Code)
    ensures VerifyCode(s, r, admission) == Code.Ok <==>
              && (r.kind.EffectVerification? || r.kind.EffectFailure?) && !s.stopped
              && r.id < RESERVED_ID_BASE && admission == Code.Ok && r.effectPlan in s.plans
              && exists key :: key in s.steps && key.dependent == r.effectDependent
                               && Names(s.plans[r.effectPlan].restores, |s.plans[r.effectPlan].restores|, key)
  {
    if r.effectPlan in s.plans {
      MatchesMeans(s.steps, s.plans[r.effectPlan].restores, r.effectDependent);
    }
  }

  lemma MatchesMeans(steps: StepMap, restores: seq<RestoreStep>, dependent: DependentRef)
    ensures Matches(steps, restores, |restores|, dependent) <==>
              exists key :: key in steps && key.dependent == dependent && Names(restores, |restores|, key)
  {
    if Matches(steps, restores, |restores|, dependent) {
      var i :| 0 <= i < |restores| && restores[i].dependent == dependent
               && StepKey(restores[i].dependent, restores[i].replacement) in steps;
      assert Names(restores, |restores|, StepKey(restores[i].dependent, restores[i].replacement));
    }
    if key :| key in steps && key.dependent == dependent && Names(restores, |restores|, key) {
      var i :| 0 <= i < |restores| && restores[i].dependent == key.dependent
               && restores[i].replacement == key.replacement;
      assert StepKey(restores[i].dependent, restores[i].replacement) == key;
    }
  }

  /** The code of a declaration: that of recording the failure, or else that of fencing it. */
  ghost function DeclareCode(s: State, d: Declaration, id: U64, admission: Code, now: U64, fencing: bool): (code: Code)
    requires s.topology.Some? ==> Topology.Valid(s.topology.value)
  {
    var failure := FailureCode(s, d, id, admission, now);
    if failure != Code.Ok || !fencing then failure
    else
      EstablishedMeans(s, d, id, admission, now);
      FencingCode(RecordingFailure(s, d, id, true, now).state, d, now)
  }

  lemma EstablishedMeans(s: State, d: Declaration, id: U64, admission: Code, now: U64)
    ensures FailureCode(s, d, id, admission, now) == Code.Ok <==>
              !s.stopped && Established(s, d, id, admission == Code.Ok, now)
    ensures RecordingFailure(s, d, id, admission == Code.Ok, now).state.topology == s.topology
  {
  }

  lemma AdjudicationMeans(s: State, seen: State, d: Declaration, id: U64, now: U64, a: SwitchAssessment)
    requires d.Valid() && s.topology.Some? && !s.stopped
    requires seen == s.(evidence := Admitted(s.evidence, Assertion(d, id))) && a == AssessNow(seen, d.subject, now)
    ensures var f := FailureOf(s, d, id, now);
            && FailureCode(s, d, id, Code.Ok, now) ==
                 (if a.outcome == Code.Conflict then Code.Conflict
                  else if a.fenceRequired then Code.Ok
                  else if a.outcome == Code.Ok then Code.Denied
                  else a.outcome)
            && RecordingFailure(s, d, id, true, now) ==
                 if a.outcome != Code.Conflict && a.fenceRequired
                 then Effect(seen.(failures := RecordFailure(s.failures, f)), [FailureCommitted(f)])
                 else Effect(seen, [])
  {
  }

  lemma InstallingMeans(s: State, t: TopologySnapshot, paths: seq<PathDescriptor>, links: seq<LinkDescriptor>,
                        now: U64)
    requires Topology.Valid(t) && Tabled(t, paths, links)
    ensures Installing(s, t, paths, links, now) ==
              if t.switches == map[] then Effect(s, [])
              else Effect(s.(topology := Some(t), registry := Granting(s, paths, links, now)), [TopologyInstalled])
  {
  }

  /** The registry once the grants on the generation are withdrawn. */
  ghost function Withdrawing(s: State, fence: Authority.FenceRecord): (r: Authority.Registry) {
    Authority.Sweeping(s.registry, Authority.FenceSweep({fence.subject}))
  }

  ghost function CommitCode(s: State, fence: Authority.FenceRecord): (code: Code) {
    if fence.subject in s.registry.fences then ScopeCode(s.registry.fences[fence.subject].scope)
    else
      var outcome := Authority.FenceOutcome(Withdrawing(s, fence), s.limits.maxFences, fence);
      if outcome == Code.Ok then ScopeCode(fence.scope) else outcome
  }

  lemma CommitCodeMeans(s: State, fence: Authority.FenceRecord)
    requires fence.reason != "" && fence.subject !in s.registry.fences
    ensures var after := CommittingFence(s, fence).state.registry.fences;
            CommitCode(s, fence) == if fence.subject in after then ScopeCode(after[fence.subject].scope)
                                    else if !fence.subject.Valid() then Code.Invalid
                                    else Code.Exhausted
  {
  }

  lemma FencedBy(s: State, d: Declaration, now: U64, fence: Authority.FenceRecord)
    requires s.topology.Some? && Topology.Valid(s.topology.value)
    requires fence == FenceOf(s, d, ClosureFrom(s.topology.value, [SwitchNode(d.subject)], ClosureBudget(s.limits)),
                              |Authority.Hit(s.registry.grants, Authority.FenceSweep({d.subject}))|, now)
    ensures FencingFailure(s, d, now) == CommittingFence(s, fence)
    ensures FencingCode(s, d, now) == CommitCode(s, fence)
  {
    if d.subject !in s.registry.fences {
      CommitCodeMeans(s, fence);
    }
  }

  lemma DeclaringSplits(s: State, d: Declaration, id: U64, admission: Code, now: U64, fencing: bool)
    requires !s.stopped && (s.topology.Some? ==> Topology.Valid(s.topology.value))
    ensures var admitted := admission == Code.Ok;
            var recorded, declared := RecordingFailure(s, d, id, admitted, now),
                DeclaringFailure(s, d, id, admitted, now, fencing);
            && recorded.state.topology == s.topology
            && (!fencing || FailureCode(s, d, id, admission, now) != Code.Ok ==> declared == recorded)
            && (fencing && FailureCode(s, d, id, admission, now) == Code.Ok ==>
                  && admitted && s.topology.Some?
                  && declared.state == FencingFailure(recorded.state, d, now).state
                  && declared.entries == recorded.entries + FencingFailure(recorded.state, d, now).entries)
  {
    EstablishedMeans(s, d, id, admission, now);
  }

  lemma Rejoin(journal: seq<Entry>, first: seq<Entry>, second: seq<Entry>)
    ensures (journal + first) + second == journal + (first + second)
  {
  }

  lemma BlockedMeans(s: State, dependent: DependentRef, now: U64, active: seq<nat>, bound: set<SwitchKey>)
    requires forall id :: id in active <==>
               id in s.registry.grants && s.registry.grants[id].dependent == dependent &&
                 s.registry.grants[id].ActiveAt(now)
    requires forall k :: k in bound <==>
               exists id :: id in active && id in s.registry.grants && k in s.registry.grants[id].bound
    ensures Blocked(s, dependent, now) <==> exists key :: key in bound && Hazard(s, key, now)
  {
    forall key
      ensures key in bound <==> BoundNow(s, dependent, now, key)
    {
    }
  }

  lemma LastStepUnique(steps: StepMap, dependent: DependentRef, key: StepKey)
    requires LastStep(steps, dependent, key)
    ensures forall other :: LastStep(steps, dependent, other) ==> other == key
  {
    KeyOrder();
  }
}
