/**
 The coordinator as a state machine (src/runtime/coordinator.cpp, src/runtime/failover.cpp): what
 each call appends to the journal and what it makes of the live state, and what reopening rebuilds.

 The result of admitting a record to the evidence store is a parameter of the calls that do it.
 Event and decision logs, sessions and plan states are left out.
 */
module Runtime {
  import opened Identity
  import opened Outcome
  import opened Canonical
  import opened Limits
  import opened Topology
  import opened Closure
  import opened Evidence
  import opened EvidenceStore
  import opened Candidates
  import opened Plan
  import Validator
  import Authority

  // ---- State ----

  datatype AckState = UnknownAck | AckApplied | AckVerified | AckFailed | AckUnverified

  datatype StepKey = StepKey(dependent: DependentRef, replacement: SwitchKey)

  datatype StepResult = StepResult(key: StepKey, ack: AckState)

  type StepMap = map<StepKey, AckState>

  datatype RuntimePolicy = RuntimePolicy(
    assessment: AssessmentPolicy,
    planning: PlanningPolicy,
    requireVerifiedEffect: bool,
    allowAcknowledgementRestore: bool,
    allowRestoreWhenClosureTruncated: bool,
    fenceOnRestart: bool,
    grantTtl: U64)
  {
    predicate Valid() {
      && grantTtl != 0
      && 0 < planning.maxCandidatesPerDependent <= HARD_MAX_ELEMENTS
      && !(allowAcknowledgementRestore && requireVerifiedEffect)
    }
  }

  /** What the journal keeps, as far as replay reads it. */
  datatype Entry =
    | StreamHeader(boot: nat, epoch: nat)
    | EpochAdvance(epochNow: nat)
    | TopologyInstalled
    | PolicyInstalled
    | FailureCommitted(failure: FailureRecord)
    | FenceCommitted(fence: Authority.FenceRecord)
    | GrantMinted(id: nat, grant: Authority.Grant)
    | PlanCommitted(plan: ReconstructionPlan)
    | ApplyCompleted(results: seq<StepResult>)
    | ShutdownClean

  datatype State = State(
    boot: nat,
    epoch: nat,
    failures: map<SwitchKey, FailureRecord>,
    registry: Authority.Registry,
    evidence: Buckets,
    steps: StepMap,
    plans: map<U64, ReconstructionPlan>,
    topology: Option<TopologySnapshot>,
    candidates: seq<ReconstructionCandidate>,
    policy: RuntimePolicy,
    limits: Limits,
    stopped: bool)

  datatype Effect = Effect(state: State, entries: seq<Entry>)

  function Lookup(failures: map<SwitchKey, FailureRecord>, key: SwitchKey): (found: Option<FailureRecord>) {
    if key in failures then Some(failures[key]) else None
  }

  function AssessNow(s: State, key: SwitchKey, now: U64): (a: SwitchAssessment) {
    Assess(key, Bucket(s.evidence, key), Lookup(s.failures, key), now, s.policy.assessment)
  }

  /** The adjudication that planning consults, over the evidence and failures of one moment. */
  function Adjudicator(evidence: Buckets, failures: map<SwitchKey, FailureRecord>, policy: AssessmentPolicy, now: U64)
    : (assess: SwitchKey -> SwitchAssessment)
  {
    (key: SwitchKey) => Assess(key, Bucket(evidence, key), Lookup(failures, key), now, policy)
  }

  function MakeInputs(s: State, planId: U64, now: U64): (inputs: PlanInputs)
    requires s.topology.Some?
  {
    PlanInputs(
      s.topology.value, s.candidates, Adjudicator(s.evidence, s.failures, s.policy.assessment, now),
        s.registry.fences.Keys,
      s.limits, s.policy.assessment, s.policy.planning, s.epoch, s.boot, planId)
  }

  // ---- The failure table ----

  /** The newest failure of a generation is kept. */
  function RecordFailure(failures: map<SwitchKey, FailureRecord>, f: FailureRecord): (next: map<SwitchKey,
                                                                                      FailureRecord>) {
    if !f.subject.Valid() || f.observedAt == 0 then failures
    else if f.subject in failures && failures[f.subject].observedAt > f.observedAt then failures
    else failures[f.subject := f]
  }

  // ---- Calls ----

  datatype Declaration = Declaration(subject: SwitchKey, source: EvidenceSource, observedAt: U64, validFor: U64,
                                     reason: string) {
    predicate Valid() {
      && subject.Valid() && !source.UnknownSource? && TrustOf(source).Authoritative?
      && observedAt != 0 && validFor != 0 && |reason| <= MAX_MESSAGE_BYTES
    }
  }

  datatype Call =
    | AdmitEvidence(record: EvidenceRecord)
    | Establish(dependent: DependentRef, bound: set<SwitchKey>)
    | Withdraw(dependent: DependentRef, cause: Authority.RevocationCause)
    | InstallTopology(snapshot: TopologySnapshot, paths: seq<PathDescriptor>, links: seq<LinkDescriptor>)
    | InstallCandidates(table: seq<ReconstructionCandidate>)
    | InstallPolicy(policy: RuntimePolicy)
    | DeclareFailure(declaration: Declaration, fencing: bool)
    | RetainPlan(plan: ReconstructionPlan, evicted: set<U64>)
    | ApplyPlan(planId: U64)
    | VerifyEffect(verification: EvidenceRecord)
    | Shutdown

  /** The snapshot's path and link tables, in ascending order of identity. */
  ghost predicate Tabled(t: TopologySnapshot, paths: seq<PathDescriptor>, links: seq<LinkDescriptor>) {
    && PathTable(t, paths) && LinkTable(t, links)
    && (forall i, j :: 0 <= i < j < |paths| ==> paths[i].id < paths[j].id)
    && (forall i, j :: 0 <= i < j < |links| ==> links[i].id < links[j].id)
  }

  /** A topology that is well formed, not empty, and listed by its own tables. */
  ghost predicate Installable(t: TopologySnapshot, paths: seq<PathDescriptor>, links: seq<LinkDescriptor>) {
    Topology.Valid(t) && t.switches != map[] && Tabled(t, paths, links)
  }

  function TryGrant(s: State, r: Authority.Registry, dependent: DependentRef, bound: set<SwitchKey>,
                    now: U64): (next: Authority.Registry) {
    Authority.TryGrant(r, s.limits.maxAuthorityGrants, dependent, bound, s.epoch, s.boot, now, s.policy.grantTtl)
  }

  /** Every path is granted over its hops. */
  function GrantingPaths(s: State, paths: seq<PathDescriptor>, n: nat, now: U64): (next: Authority.Registry)
    requires n <= |paths|
  {
    if n == 0 then s.registry
    else TryGrant(s, GrantingPaths(s, paths, n - 1, now), DependentRef(Path, paths[n - 1].id),
                  Elements(paths[n - 1].hops), now)
  }

  /** Every link is granted over its two ends. */
  function GrantingLinks(s: State, r: Authority.Registry, links: seq<LinkDescriptor>, n: nat,
                         now: U64): (next: Authority.Registry)
    requires n <= |links|
  {
    if n == 0 then r
    else TryGrant(s, GrantingLinks(s, r, links, n - 1, now), DependentRef(Link, links[n - 1].id),
                  {links[n - 1].a, links[n - 1].b}, now)
  }

  /** Paths first, then links. */
  function Granting(s: State, paths: seq<PathDescriptor>, links: seq<LinkDescriptor>,
                    now: U64): (next: Authority.Registry) {
    GrantingLinks(s, GrantingPaths(s, paths, |paths|, now), links, |links|, now)
  }

  /** A declared topology is also the statement that its paths and links are forwarding. */
  ghost function Installing(s: State, t: TopologySnapshot, paths: seq<PathDescriptor>, links: seq<LinkDescriptor>,
                            now: U64): (e: Effect) {
    if !Installable(t, paths, links) then Effect(s, [])
    else Effect(s.(topology := Some(t), registry := Granting(s, paths, links, now)), [TopologyInstalled])
  }

  function Admitted(evidence: Buckets, r: EvidenceRecord): (next: Buckets) {
    evidence[r.subject := Retain(Bucket(evidence, r.subject), r, PER_SUBJECT_RETENTION)]
  }

  // ---- Declaring a failure ----

  function Assertion(d: Declaration, id: U64): (r: EvidenceRecord) {
    EvidenceRecord(id, SwitchFailureDeclaration, d.source, d.subject, d.observedAt, d.validFor, Failed, UnknownAdmin, 0,
                   DependentRef(UnknownDependent, 0), 0, d.reason)
  }

  function FailureOf(s: State, d: Declaration, id: U64, now: U64): (f: FailureRecord) {
    FailureRecord(d.subject, id, s.epoch, s.boot, d.observedAt, now, d.reason)
  }

  function DefaultReason(reason: string): (text: string) {
    if reason == "" then "switch generation established unusable" else reason
  }

  function FenceOf(s: State, d: Declaration, closure: DependencyClosure, withdrawn: nat,
                   now: U64): (f: Authority.FenceRecord) {
    Authority.FenceRecord(
      0, d.subject, s.epoch, s.boot, now,
      if closure.state.Truncated? || closure.rootsAbsent != 0 then Authority.Partial else Authority.Committed,
      |closure.members|, withdrawn, closure.omittedFrontier, DefaultReason(d.reason))
  }

  /** The failure is established by the evidence, the new assertion included. */
  predicate Established(s: State, d: Declaration, id: U64, admitted: bool, now: U64) {
    && d.Valid() && s.topology.Some? && admitted
    && var seen := s.(evidence := Admitted(s.evidence, Assertion(d, id)));
       AssessNow(seen, d.subject, now).outcome != Code.Conflict && AssessNow(seen, d.subject, now).fenceRequired
  }

  /** What a declaration that does not get as far as a failure record is refused with. */
  function FailureCode(s: State, d: Declaration, id: U64, admission: Code, now: U64): (code: Code) {
    if !d.subject.Valid() || d.source.UnknownSource? then Code.Invalid
    else if !TrustOf(d.source).Authoritative? then Code.Unauthorized
    else if d.observedAt == 0 || d.validFor == 0 || |d.reason| > MAX_MESSAGE_BYTES then Code.Invalid
    else if s.stopped then Code.Closed
    else if s.topology.None? then Code.Unsupported
    else if admission != Code.Ok then admission
    else
      var a := AssessNow(s.(evidence := Admitted(s.evidence, Assertion(d, id))), d.subject, now);
      if a.outcome == Code.Conflict then Code.Conflict
      else if a.fenceRequired then Code.Ok
      else if a.outcome == Code.Ok then Code.Denied
      else a.outcome
  }

  /** Recording the failure: first the journal, then the table. */
  function RecordingFailure(s: State, d: Declaration, id: U64, admitted: bool, now: U64): (e: Effect) {
    if !d.Valid() || s.topology.None? || !admitted then Effect(s, [])
    else
      var seen := s.(evidence := Admitted(s.evidence, Assertion(d, id)));
      if !Established(s, d, id, admitted, now) then Effect(seen, [])
      else
        var f := FailureOf(s, d, id, now);
        Effect(seen.(failures := RecordFailure(s.failures, f)), [FailureCommitted(f)])
  }

  /** Fencing: grants first, then the fence, then the journal. */
  function CommittingFence(s: State, fence: Authority.FenceRecord): (e: Effect) {
    var swept := Authority.Sweeping(s.registry, Authority.FenceSweep({fence.subject}));
    if Authority.FenceOutcome(swept, s.limits.maxFences, fence) != Code.Ok then Effect(s.(registry := swept), [])
    else Effect(s.(registry := Authority.Fencing(swept, fence)), [FenceCommitted(fence.(id := swept.nextFence))])
  }

  ghost function FencingFailure(s: State, d: Declaration, now: U64): (e: Effect)
    requires s.topology.Some? && Topology.Valid(s.topology.value)
  {
    var closure := ClosureFrom(s.topology.value, [SwitchNode(d.subject)], ClosureBudget(s.limits));
    var withdrawn := |Authority.Hit(s.registry.grants, Authority.FenceSweep({d.subject}))|;
    CommittingFence(s, FenceOf(s, d, closure, withdrawn, now))
  }

  function ScopeCode(scope: Authority.FenceScope): (code: Code) {
    if scope.Partial? then Code.PartialClosure else Code.Ok
  }

  /** The outcome of fencing: that of the fence already there, or of the new one. */
  ghost function FencingCode(s: State, d: Declaration, now: U64): (code: Code)
    requires s.topology.Some? && Topology.Valid(s.topology.value)
  {
    if d.subject in s.registry.fences then ScopeCode(s.registry.fences[d.subject].scope)
    else
      var after := FencingFailure(s, d, now).state.registry.fences;
      if d.subject in after then ScopeCode(after[d.subject].scope)
      else if !d.subject.Valid() then Code.Invalid
      else Code.Exhausted
  }

  ghost function DeclaringFailure(s: State, d: Declaration, id: U64, admitted: bool, now: U64,
                                  fencing: bool): (e: Effect)
    requires s.topology.Some? ==> Topology.Valid(s.topology.value)
  {
    var recorded := RecordingFailure(s, d, id, admitted, now);
    if !fencing || !Established(s, d, id, admitted, now) then recorded
    else
      var fenced := FencingFailure(recorded.state, d, now);
      Effect(fenced.state, recorded.entries + fenced.entries)
  }

  // ---- Applying a plan ----

  /** The planner stamps a plan with the identity of the process it is made for. */
  predicate Labelled(s: State, plan: ReconstructionPlan) {
    plan.id != 0 && plan.epoch == s.epoch && plan.boot == s.boot
  }

  datatype ApplyState = ApplyState(registry: Authority.Registry, steps: StepMap, results: seq<StepResult>)

  /** No fence on the generation, still in the topology, and no obligation to fence it now. */
  predicate HopUsable(s: State, fences: map<SwitchKey, Authority.FenceRecord>, hop: SwitchKey, now: U64)
    requires s.topology.Some?
  {
    hop !in fences && hop in s.topology.value.switches && !AssessNow(s, hop, now).fenceRequired
  }

  predicate HopsUsable(s: State, fences: map<SwitchKey, Authority.FenceRecord>, hops: seq<SwitchKey>, now: U64)
    requires s.topology.Some?
  {
    forall k :: 0 <= k < |hops| ==> HopUsable(s, fences, hops[k], now)
  }

  function GrantFor(s: State, r: Authority.Registry, step: RestoreStep): (code: Code) {
    Authority.GrantOutcome(r, s.limits.maxAuthorityGrants, step.dependent, Elements(step.hops), s.epoch, s.boot,
                           s.policy.grantTtl)
  }

  function StepAck(s: State, r: Authority.Registry, step: RestoreStep, now: U64): (ack: AckState)
    requires s.topology.Some?
  {
    if HopsUsable(s, r.fences, step.hops, now) && GrantFor(s, r, step) == Code.Ok then AckApplied else AckFailed
  }

  function ApplyStep(s: State, a: ApplyState, step: RestoreStep, now: U64): (next: ApplyState)
    requires s.topology.Some?
  {
    var key := StepKey(step.dependent, step.replacement);
    var ack := StepAck(s, a.registry, step, now);
    ApplyState(
      if ack.AckApplied?
      then Authority.Granted(a.registry, step.dependent, Elements(step.hops), s.epoch, s.boot, now, s.policy.grantTtl)
      else a.registry,
      a.steps[key := ack],
      a.results + [StepResult(key, ack)])
  }

  function ApplySteps(s: State, restores: seq<RestoreStep>, n: nat, now: U64): (a: ApplyState)
    requires s.topology.Some? && n <= |restores|
    ensures |a.results| == n
  {
    if n == 0 then ApplyState(s.registry, s.steps, [])
    else ApplyStep(s, ApplySteps(s, restores, n - 1, now), restores[n - 1], now)
  }

  ghost predicate Inputs(s: State) {
    && (s.topology.Some? ==> Topology.Valid(s.topology.value))
    && Table(s.candidates)
  }

  /** The retained plan validates against the current inputs. */
  ghost predicate Validates(s: State, plan: ReconstructionPlan, now: U64)
    requires s.topology.Some? && Inputs(s)
  {
    Validator.ValidPlan(MakeInputs(s, plan.id, now), plan)
  }

  /** A plan that may take effect: valid now, with its closure complete or waived, and a proven verdict. */
  ghost predicate Applicable(s: State, plan: ReconstructionPlan, now: U64)
    requires s.topology.Some? && Inputs(s)
  {
    && Validates(s, plan, now)
    && (plan.closureComplete || s.policy.allowRestoreWhenClosureTruncated)
    && (plan.feasibility.NothingToRestore? || plan.feasibility.ProvenFeasible?)
  }

  /** The write-ahead record, the steps, the receipt, and the final plan record. */
  function ApplyEffect(s: State, plan: ReconstructionPlan, now: U64): (e: Effect)
    requires s.topology.Some?
  {
    if plan.feasibility.NothingToRestore? then Effect(s, [ApplyCompleted([])])
    else
      var a := ApplySteps(s, plan.restores, |plan.restores|, now);
      Effect(s.(registry := a.registry, steps := a.steps),
             [PlanCommitted(plan), ApplyCompleted(a.results), PlanCommitted(plan)])
  }

  ghost function ApplyingPlan(s: State, planId: U64, now: U64): (e: Effect)
    requires Inputs(s)
  {
    if s.topology.None? || planId !in s.plans then Effect(s, []) else ApplyingRetained(s, s.plans[planId], now)
  }

  ghost function ApplyingRetained(s: State, plan: ReconstructionPlan, now: U64): (e: Effect)
    requires s.topology.Some? && Inputs(s)
  {
    if Applicable(s, plan, now) then ApplyEffect(s, plan, now) else Effect(s, [])
  }

  /** The outcome of an application: its refusals in order, or whether every step took effect. */
  ghost function ApplyCode(s: State, planId: U64, now: U64): (code: Code)
    requires Inputs(s)
  {
    if s.stopped then Code.Closed
    else if s.topology.None? then Code.Unsupported
    else if planId !in s.plans then Code.NotFound
    else RetainedCode(s, s.plans[planId], now)
  }

  ghost function RetainedCode(s: State, plan: ReconstructionPlan, now: U64): (code: Code)
    requires s.topology.Some? && Inputs(s)
  {
    if !Validates(s, plan, now) then Code.Invalid
    else if !plan.closureComplete && !s.policy.allowRestoreWhenClosureTruncated then Code.PartialClosure
    else if plan.feasibility.NothingToRestore? then Code.Ok
    else if !plan.feasibility.ProvenFeasible? then Code.Indeterminate
    else if AllApplied(ApplySteps(s, plan.restores, |plan.restores|, now).results) then Code.Unverified
    else Code.PartialClosure
  }

  predicate AllApplied(results: seq<StepResult>) {
    forall i :: 0 <= i < |results| ==> results[i].ack.AckApplied?
  }

  // ---- Verifying an effect ----

  /** One of the first n steps is for this dependent with this replacement. */
  predicate Names(restores: seq<RestoreStep>, n: nat, key: StepKey)
    requires n <= |restores|
  {
    exists i :: 0 <= i < n && restores[i].dependent == key.dependent && restores[i].replacement == key.replacement
  }

  function Marked(steps: StepMap, restores: seq<RestoreStep>, n: nat, dependent: DependentRef,
                  ack: AckState): (next: StepMap)
    requires n <= |restores|
  {
    if n == 0 then steps
    else
      var before := Marked(steps, restores, n - 1, dependent, ack);
      var key := StepKey(restores[n - 1].dependent, restores[n - 1].replacement);
      if restores[n - 1].dependent == dependent && key in before then before[key := ack] else before
  }

  const RESERVED_ID_BASE: U64 := 0x8000_0000_0000_0000

  function Verifying(s: State, r: EvidenceRecord, admitted: bool): (next: State) {
    if !(r.kind.EffectVerification? || r.kind.EffectFailure?) || r.id >= RESERVED_ID_BASE || !admitted then s
    else
      var seen := s.(evidence := Admitted(s.evidence, r));
      if r.effectPlan !in s.plans then seen
      else
        var restores := s.plans[r.effectPlan].restores;
        var ack := if r.kind.EffectVerification? then AckVerified else AckFailed;
        seen.(steps := Marked(s.steps, restores, |restores|, r.effectDependent, ack))
  }

  // ---- Every call ----

  /** What the environment decides during a call: the time, the minted identity, the admission. */
  datatype Circumstance = Circumstance(now: U64, evidenceId: U64, admitted: bool)

  /** After a shutdown every call is refused and nothing changes any more. */
  function Guarded(s: State, e: Effect): (guarded: Effect) {
    if s.stopped then Effect(s, []) else e
  }

  function ShuttingDown(s: State): (e: Effect) {
    Effect(s.(stopped := true), [ShutdownClean])
  }

  ghost function Perform(s: State, call: Call, c: Circumstance): (e: Effect)
    requires Inputs(s)
  {
    Guarded(s, Acting(s, call, c))
  }

  /** What a call does to a running coordinator. */
  ghost function Acting(s: State, call: Call, c: Circumstance): (e: Effect)
    requires Inputs(s)
  {
    match call
    case AdmitEvidence(r) =>
      Effect(if r.id < RESERVED_ID_BASE && c.admitted then s.(evidence := Admitted(s.evidence, r)) else s, [])
    case Establish(dependent, bound) => Effect(s.(registry := TryGrant(s, s.registry, dependent, bound, c.now)), [])
    case Withdraw(dependent, cause) =>
      Effect(s.(registry := Authority.Sweeping(s.registry, Authority.DependentSweep(dependent, cause))), [])
    case InstallTopology(t, paths, links) => Installing(s, t, paths, links, c.now)
    case InstallCandidates(table) => Effect(if Table(table) then s.(candidates := table) else s, [])
    case InstallPolicy(policy) =>
      if !policy.Valid() then Effect(s, []) else Effect(s.(policy := policy), [PolicyInstalled])
    case DeclareFailure(d, fencing) => DeclaringFailure(s, d, c.evidenceId, c.admitted, c.now, fencing)
    case RetainPlan(plan, evicted) =>
      Effect(if Labelled(s, plan) then s.(plans := (s.plans - evicted)[plan.id := plan]) else s, [])
    case ApplyPlan(planId) => ApplyingPlan(s, planId, c.now)
    case VerifyEffect(r) => Effect(Verifying(s, r, c.admitted), [])
    case Shutdown => ShuttingDown(s)
  }

  // ---- Reopening ----

  datatype Recovery = Recovery(
    failures: map<SwitchKey, FailureRecord>,
    registry: Authority.Registry,
    steps: StepMap,
    plans: map<U64, ReconstructionPlan>,
    boot: nat,
    epoch: nat)

  function MergeResults(steps: StepMap, results: seq<StepResult>, n: nat): (next: StepMap)
    requires n <= |results|
  {
    if n == 0 then steps else MergeResults(steps, results, n - 1)[results[n - 1].key := results[n - 1].ack]
  }

  /** What one replayed record adds. */
  function ReplayOne(r: Recovery, e: Entry): (next: Recovery) {
    match e
    case StreamHeader(boot, epoch) => r.(boot := boot, epoch := epoch)
    case FailureCommitted(f) => r.(failures := RecordFailure(r.failures, f))
    case FenceCommitted(f) => r.(registry := Authority.RestoringFence(r.registry, f))
    case GrantMinted(id, g) => if id == 0 || !g.dependent.Valid() then r
      else r.(registry := Authority.RestoringGrant(r.registry, id, g))
    case PlanCommitted(plan) => r.(plans := r.plans[plan.id := plan])
    case ApplyCompleted(results) => r.(steps := MergeResults(r.steps, results, |results|))
    case _ => r
  }

  const NOTHING := Recovery(map[], Authority.EMPTY, map[], map[], 0, 0)

  function ReplayFrom(r: Recovery, entries: seq<Entry>): (next: Recovery) {
    if entries == [] then r else ReplayOne(ReplayFrom(r, entries[..|entries| - 1]), entries[|entries| - 1])
  }

  function Replay(journal: seq<Entry>): (r: Recovery) {
    ReplayFrom(NOTHING, journal)
  }

  /** What a process brings to an opening. */
  datatype Config = Config(policy: RuntimePolicy, limits: Limits, bootOrdinal: nat) {
    predicate Valid() {
      limits.Valid() && policy.Valid()
    }
  }

  function NextBoot(r: Recovery, config: Config): (boot: nat) {
    if r.boot != 0 then r.boot + 1 else if config.bootOrdinal == 0 then 1 else config.bootOrdinal
  }

  function NextEpoch(r: Recovery): (epoch: nat) {
    if r.boot != 0 then r.epoch + 1 else 1
  }

  /** Persistence is not liveness: whatever was granted before is stale. */
  function Invalidated(r: Authority.Registry, fenceOnRestart: bool): (next: Authority.Registry) {
    var stale := Authority.Sweeping(r, Authority.RestartSweep);
    if fenceOnRestart then Authority.Sweeping(stale, Authority.WithdrawSweep(Authority.Restart)) else stale
  }

  /** A new incarnation: lineage, recorded steps and committed plans are kept; no evidence or definition survives. */
  function Starting(r: Recovery, config: Config): (s: State) {
    State(
      NextBoot(r, config), NextEpoch(r), r.failures, Invalidated(r.registry, config.policy.fenceOnRestart),
      map[], r.steps, r.plans, None, [], config.policy, config.limits, false)
  }

  function Heading(r: Recovery, config: Config): (entries: seq<Entry>) {
    [StreamHeader(NextBoot(r, config), NextEpoch(r))] + if NextEpoch(r) > 1 then [EpochAdvance(NextEpoch(r))] else []
  }

  function Reopened(journal: seq<Entry>, config: Config): (s: State) {
    Starting(Replay(journal), config)
  }

  function OpeningEntries(journal: seq<Entry>, config: Config): (entries: seq<Entry>) {
    Heading(Replay(journal), config)
  }
}
