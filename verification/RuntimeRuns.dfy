/**
 What every run of the coordinator keeps, through any sequence of calls, crashes in the middle of a
 call or of an opening, and restarts.
 */
module RuntimeRuns {
  import opened Identity
  import opened Outcome
  import opened Canonical
  import opened Topology
  import opened Closure
  import opened Evidence
  import opened EvidenceStore
  import opened Candidates
  import opened Plan
  import opened Runtime
  import Authority

  // ---- Replay ----

  lemma {:induction false} ReplayAppend(r: Recovery, a: seq<Entry>, b: seq<Entry>)
    ensures ReplayFrom(r, a + b) == ReplayFrom(ReplayFrom(r, a), b)
  {
    if b == [] {
      assert a + b == a;
    } else {
      var n := |b| - 1;
      assert (a + b)[..|a + b| - 1] == a + b[..n];
      ReplayAppend(r, a, b[..n]);
    }
  }

  lemma ReplayNothing(r: Recovery)
    ensures ReplayFrom(r, []) == r
  {
  }

  lemma ReplaySingle(r: Recovery, e: Entry)
    ensures ReplayFrom(r, [e]) == ReplayOne(r, e)
  {
    assert [e][..0] == [];
    ReplayNothing(r);
  }

  lemma ReplayPair(r: Recovery, e: Entry, f: Entry)
    ensures ReplayFrom(r, [e, f]) == ReplayOne(ReplayOne(r, e), f)
  {
    assert [e, f] == [e] + [f];
    ReplayAppend(r, [e], [f]);
    ReplaySingle(r, e);
    ReplaySingle(ReplayOne(r, e), f);
  }

  // ---- What the journal holds ----

  predicate Acknowledges(results: seq<StepResult>) {
    forall i :: 0 <= i < |results| ==> results[i].ack.AckApplied? || results[i].ack.AckFailed?
  }

  /** The coordinator journals no grant, and only acknowledgements of steps. */
  predicate Written(e: Entry) {
    !e.GrantMinted? && (e.ApplyCompleted? ==> Acknowledges(e.results))
  }

  ghost predicate JournalSound(journal: seq<Entry>) {
    forall i :: 0 <= i < |journal| ==> Written(journal[i])
  }

  /** The recovered registry holds fences only. */
  ghost predicate FencesOnly(r: Authority.Registry) {
    && r.grants == map[] && r.index == map[]
    && forall k :: k in r.fences ==> r.fences[k].subject == k && r.fences[k].id < r.nextFence
  }

  ghost predicate StepsAcknowledged(steps: StepMap) {
    forall k :: k in steps ==> steps[k].AckApplied? || steps[k].AckFailed?
  }

  lemma {:induction false} MergeAcknowledged(steps: StepMap, results: seq<StepResult>, n: nat)
    requires n <= |results| && Acknowledges(results) && StepsAcknowledged(steps)
    ensures StepsAcknowledged(MergeResults(steps, results, n))
  {
    if n > 0 {
      MergeAcknowledged(steps, results, n - 1);
    }
  }

  lemma ReplayOneSound(r: Recovery, e: Entry)
    requires FencesOnly(r.registry) && StepsAcknowledged(r.steps) && Written(e)
    ensures FencesOnly(ReplayOne(r, e).registry) && StepsAcknowledged(ReplayOne(r, e).steps)
  {
    if e.ApplyCompleted? {
      MergeAcknowledged(r.steps, e.results, |e.results|);
    }
  }

  lemma {:induction false} ReplaySound(r: Recovery, entries: seq<Entry>)
    requires FencesOnly(r.registry) && StepsAcknowledged(r.steps) && JournalSound(entries)
    ensures FencesOnly(ReplayFrom(r, entries).registry) && StepsAcknowledged(ReplayFrom(r, entries).steps)
  {
    if entries != [] {
      var n := |entries| - 1;
      ReplaySound(r, entries[..n]);
      ReplayOneSound(ReplayFrom(r, entries[..n]), entries[n]);
    }
  }

  /** Every replayed plan was committed to the journal. */
  lemma {:induction false} ReplayedPlans(journal: seq<Entry>, id: U64)
    requires id in Replay(journal).plans
    ensures PlanCommitted(Replay(journal).plans[id]) in journal && Replay(journal).plans[id].id == id
  {
    if journal != [] {
      var before, last := journal[..|journal| - 1], journal[|journal| - 1];
      assert journal == before + [last];
      if !(last.PlanCommitted? && last.plan.id == id) {
        ReplayedPlans(before, id);
      }
    }
  }

  // ---- Incarnations ----

  /** Later headers carry larger epochs and boot ordinals; the last one is what replay reports. */
  ghost predicate HeadersOrdered(journal: seq<Entry>) {
    && (Replay(journal).boot == 0 ==> Replay(journal).epoch == 0)
    && (forall i, j :: 0 <= i < j < |journal| && journal[i].StreamHeader? && journal[j].StreamHeader? ==>
          journal[i].boot < journal[j].boot && journal[i].epoch < journal[j].epoch)
    && (forall i :: 0 <= i < |journal| && journal[i].StreamHeader? ==>
          0 < journal[i].boot <= Replay(journal).boot && 0 < journal[i].epoch <= Replay(journal).epoch)
  }

  /** A plan of this process or an earlier one. */
  predicate DatedBy(plan: ReconstructionPlan, boot: nat, epoch: nat) {
    plan.boot <= boot && plan.epoch <= epoch
  }

  ghost predicate PlansDated(plans: map<U64, ReconstructionPlan>, boot: nat, epoch: nat) {
    forall id :: id in plans ==> plans[id].id == id && DatedBy(plans[id], boot, epoch)
  }

  ghost predicate EntriesDated(entries: seq<Entry>, boot: nat, epoch: nat) {
    forall i :: 0 <= i < |entries| && entries[i].PlanCommitted? ==> DatedBy(entries[i].plan, boot, epoch)
  }

  /** No committed plan is dated later than the last header. */
  ghost predicate JournalDated(journal: seq<Entry>) {
    EntriesDated(journal, Replay(journal).boot, Replay(journal).epoch)
  }

  lemma DatedKept(journal: seq<Entry>, entries: seq<Entry>)
    requires JournalDated(journal) && NoHeader(entries) &&
             EntriesDated(entries, Replay(journal).boot, Replay(journal).epoch)
    ensures JournalDated(journal + entries)
  {
    ReplayAppend(NOTHING, journal, entries);
    ReplayNoHeader(Replay(journal), entries);
  }

  lemma ReplayedDated(journal: seq<Entry>)
    requires JournalDated(journal)
    ensures PlansDated(Replay(journal).plans, Replay(journal).boot, Replay(journal).epoch)
  {
    forall id | id in Replay(journal).plans
      ensures Replay(journal).plans[id].id == id &&
              DatedBy(Replay(journal).plans[id], Replay(journal).boot, Replay(journal).epoch)
    {
      ReplayedPlans(journal, id);
      var i :| 0 <= i < |journal| && journal[i] == PlanCommitted(Replay(journal).plans[id]);
    }
  }

  predicate NoHeader(entries: seq<Entry>) {
    forall i :: 0 <= i < |entries| ==> !entries[i].StreamHeader?
  }

  lemma {:induction false} ReplayNoHeader(r: Recovery, entries: seq<Entry>)
    requires NoHeader(entries)
    ensures ReplayFrom(r, entries).boot == r.boot && ReplayFrom(r, entries).epoch == r.epoch
  {
    if entries != [] {
      ReplayNoHeader(r, entries[..|entries| - 1]);
    }
  }

  lemma HeadersKept(journal: seq<Entry>, entries: seq<Entry>)
    requires HeadersOrdered(journal) && NoHeader(entries)
    ensures HeadersOrdered(journal + entries)
  {
    ReplayAppend(NOTHING, journal, entries);
    ReplayNoHeader(Replay(journal), entries);
    forall i | 0 <= i < |journal + entries| && (journal + entries)[i].StreamHeader?
      ensures i < |journal|
    {
    }
  }

  lemma HeaderAdded(journal: seq<Entry>, boot: nat, epoch: nat)
    requires HeadersOrdered(journal) && boot > Replay(journal).boot && epoch > Replay(journal).epoch
    ensures HeadersOrdered(journal + [StreamHeader(boot, epoch)])
    ensures JournalDated(journal) ==> JournalDated(journal + [StreamHeader(boot, epoch)])
    ensures Replay(journal + [StreamHeader(boot, epoch)]).boot == boot &&
            Replay(journal + [StreamHeader(boot, epoch)]).epoch == epoch
  {
    ReplayAppend(NOTHING, journal, [StreamHeader(boot, epoch)]);
    ReplaySingle(Replay(journal), StreamHeader(boot, epoch));
  }

  // ---- The live state against the journal ----

  /** Replaying the journal gives the failure table, the fences and the identity of the live state. */
  ghost predicate Agrees(r: Recovery, s: State) {
    r.failures == s.failures && r.registry.fences == s.registry.fences && r.boot == s.boot && r.epoch == s.epoch
  }

  /** An identity and a policy under which grants are possible. */
  predicate Identified(s: State) {
    s.epoch != 0 && s.boot != 0 && s.policy.Valid()
  }

  /** What every state of a run is: definitions that hold, a sound registry, plans not from the future. */
  ghost predicate Steady(s: State) {
    Inputs(s) && Identified(s) && Authority.Sound(s.registry) && PlansDated(s.plans, s.boot, s.epoch)
  }

  ghost predicate Lawful(journal: seq<Entry>) {
    JournalSound(journal) && HeadersOrdered(journal) && JournalDated(journal)
  }

  ghost predicate Live(s: State, journal: seq<Entry>) {
    && Steady(s)
    && Agrees(Replay(journal), s)
    && Lawful(journal)
  }

  /** What a call must do for every run to keep the invariant. */
  ghost predicate Keeps(s: State, e: Effect) {
    && Steady(e.state)
    && e.state.boot == s.boot && e.state.epoch == s.epoch
    && (forall k :: k in s.registry.fences ==>
          k in e.state.registry.fences && e.state.registry.fences[k] == s.registry.fences[k])
    && JournalSound(e.entries) && NoHeader(e.entries) && EntriesDated(e.entries, s.boot, s.epoch)
    && forall r: Recovery :: Agrees(r, s) ==> Agrees(ReplayFrom(r, e.entries), e.state)
  }

  /** Sound, with the fences there were. */
  ghost predicate SoundWith(r: Authority.Registry, fences: map<SwitchKey, Authority.FenceRecord>) {
    Authority.Sound(r) && r.fences == fences
  }

  lemma GrantStepSound(s: State, r: Authority.Registry, dependent: DependentRef, bound: set<SwitchKey>, now: U64)
    requires SoundWith(r, s.registry.fences)
    ensures SoundWith(TryGrant(s, r, dependent, bound, now), s.registry.fences)
  {
    Authority.TryGrantSound(r, s.limits.maxAuthorityGrants, dependent, bound, s.epoch, s.boot, now, s.policy.grantTtl);
  }

  lemma {:induction false} GrantingPathsSound(s: State, paths: seq<PathDescriptor>, n: nat, now: U64)
    requires Authority.Sound(s.registry) && n <= |paths|
    ensures SoundWith(GrantingPaths(s, paths, n, now), s.registry.fences)
  {
    if n > 0 {
      GrantingPathsSound(s, paths, n - 1, now);
      GrantStepSound(s, GrantingPaths(s, paths, n - 1, now), DependentRef(Path, paths[n - 1].id),
                     Elements(paths[n - 1].hops), now);
    }
  }

  lemma {:induction false} GrantingLinksSound(s: State, r: Authority.Registry, links: seq<LinkDescriptor>, n: nat,
                                              now: U64)
    requires SoundWith(r, s.registry.fences) && n <= |links|
    ensures SoundWith(GrantingLinks(s, r, links, n, now), s.registry.fences)
  {
    if n > 0 {
      GrantingLinksSound(s, r, links, n - 1, now);
      GrantStepSound(s, GrantingLinks(s, r, links, n - 1, now), DependentRef(Link, links[n - 1].id),
                     {links[n - 1].a, links[n - 1].b}, now);
    }
  }

  /** An effect that journals nothing that replay reads. */
  lemma QuietKeeps(s: State, e: Effect)
    requires Steady(e.state)
    requires e.state.boot == s.boot && e.state.epoch == s.epoch
    requires e.state.failures == s.failures && e.state.registry.fences == s.registry.fences
    requires e.entries == [] || (|e.entries| == 1 &&
                                 (e.entries[0].TopologyInstalled? || e.entries[0].PolicyInstalled? ||
                                  e.entries[0].ShutdownClean?))
    ensures Keeps(s, e)
  {
    forall r: Recovery | Agrees(r, s)
      ensures Agrees(ReplayFrom(r, e.entries), e.state)
    {
      if e.entries == [] {
        ReplayNothing(r);
      } else {
        assert e.entries == [e.entries[0]];
        ReplaySingle(r, e.entries[0]);
      }
    }
  }

  // ---- Failures and fences ----

  lemma RecordingKeeps(s: State, d: Declaration, id: U64, admitted: bool, now: U64)
    requires Steady(s)
    ensures Keeps(s, RecordingFailure(s, d, id, admitted, now))
  {
    var e := RecordingFailure(s, d, id, admitted, now);
    if Established(s, d, id, admitted, now) {
      var entry := FailureCommitted(FailureOf(s, d, id, now));
      assert e.entries == [entry];
      forall r: Recovery | Agrees(r, s)
        ensures Agrees(ReplayFrom(r, e.entries), e.state)
      {
        ReplaySingle(r, entry);
      }
    } else {
      QuietKeeps(s, e);
    }
  }

  lemma FencingRegistry(r: Authority.Registry, f: Authority.FenceRecord)
    requires Authority.Sound(r) && f.subject !in r.fences
    ensures var swept := Authority.Sweeping(r, Authority.FenceSweep({f.subject}));
            Authority.Sound(swept) && swept.fences == r.fences && Authority.Sound(Authority.Fencing(swept, f))
  {
    var swept := Authority.Sweeping(r, Authority.FenceSweep({f.subject}));
    Authority.SweepingSound(r, Authority.FenceSweep({f.subject}));
    Authority.FenceSweepClears(r, f.subject);
    Authority.FencingSound(swept, f);
  }

  lemma FencedKeeps(s: State, swept: Authority.Registry, fence: Authority.FenceRecord)
    requires Inputs(s) && Identified(s) && PlansDated(s.plans, s.boot, s.epoch)
    requires fence.subject.Valid() && fence.subject !in s.registry.fences
    requires swept.fences == s.registry.fences && Authority.Sound(Authority.Fencing(swept, fence))
    ensures Keeps(s, Effect(s.(registry := Authority.Fencing(swept, fence)),
                            [FenceCommitted(fence.(id := swept.nextFence))]))
  {
    var entry := FenceCommitted(fence.(id := swept.nextFence));
    var after := s.(registry := Authority.Fencing(swept, fence));
    forall r: Recovery | Agrees(r, s)
      ensures Agrees(ReplayFrom(r, [entry]), after)
    {
      ReplaySingle(r, entry);
    }
  }

  lemma CommittingKeeps(s: State, fence: Authority.FenceRecord)
    requires Steady(s)
    ensures Keeps(s, CommittingFence(s, fence))
  {
    var sweep := Authority.FenceSweep({fence.subject});
    var swept := Authority.Sweeping(s.registry, sweep);
    Authority.SweepingSound(s.registry, sweep);
    if Authority.FenceOutcome(swept, s.limits.maxFences, fence) != Code.Ok {
      QuietKeeps(s, Effect(s.(registry := swept), []));
    } else {
      FencingRegistry(s.registry, fence);
      FencedKeeps(s, swept, fence);
    }
  }

  lemma KeepsTrans(s: State, a: Effect, b: Effect)
    requires Keeps(s, a) && Keeps(a.state, b)
    ensures Keeps(s, Effect(b.state, a.entries + b.entries))
  {
    forall r: Recovery | Agrees(r, s)
      ensures Agrees(ReplayFrom(r, a.entries + b.entries), b.state)
    {
      ReplayAppend(r, a.entries, b.entries);
    }
  }

  lemma DeclaringKeeps(s: State, d: Declaration, id: U64, admitted: bool, now: U64, fencing: bool)
    requires Steady(s)
    ensures Keeps(s, DeclaringFailure(s, d, id, admitted, now, fencing))
  {
    var recorded := RecordingFailure(s, d, id, admitted, now);
    RecordingKeeps(s, d, id, admitted, now);
    if fencing && Established(s, d, id, admitted, now) {
      var fenced := FencingFailure(recorded.state, d, now);
      FencingIsCommitting(recorded.state, d, now);
      KeepsTrans(s, recorded, fenced);
    }
  }

  lemma FencingIsCommitting(s: State, d: Declaration, now: U64)
    requires Steady(s) && s.topology.Some?
    ensures Keeps(s, FencingFailure(s, d, now))
  {
    var closure := ClosureFrom(s.topology.value, [SwitchNode(d.subject)], ClosureBudget(s.limits));
    var withdrawn := |Authority.Hit(s.registry.grants, Authority.FenceSweep({d.subject}))|;
    CommittingKeeps(s, FenceOf(s, d, closure, withdrawn, now));
  }

  // ---- Applying and verifying ----

  lemma {:induction false} ApplyKeeps(s: State, restores: seq<RestoreStep>, n: nat, now: U64)
    requires s.topology.Some? && Authority.Sound(s.registry) && n <= |restores|
    ensures var a := ApplySteps(s, restores, n, now);
            && Authority.Sound(a.registry) && a.registry.fences == s.registry.fences && Acknowledges(a.results)
  {
    if n > 0 {
      ApplyKeeps(s, restores, n - 1, now);
      ApplyStepKeeps(s, ApplySteps(s, restores, n - 1, now), restores[n - 1], now);
    }
  }

  lemma ApplyStepKeeps(s: State, before: ApplyState, step: RestoreStep, now: U64)
    requires s.topology.Some? && Authority.Sound(before.registry) && Acknowledges(before.results)
    ensures var a := ApplyStep(s, before, step, now);
            && Authority.Sound(a.registry) && a.registry.fences == before.registry.fences && Acknowledges(a.results)
  {
    if StepAck(s, before.registry, step, now).AckApplied? {
      Authority.GrantedSound(before.registry, step.dependent, Elements(step.hops), s.epoch, s.boot, now,
                             s.policy.grantTtl);
    }
  }

  lemma ReplayApplied(r: Recovery, plan: ReconstructionPlan, results: seq<StepResult>, s: State)
    requires Agrees(r, s)
    ensures Agrees(ReplayFrom(r, [ApplyCompleted(results)]), s)
    ensures Agrees(ReplayFrom(r, [PlanCommitted(plan), ApplyCompleted(results), PlanCommitted(plan)]), s)
  {
    ReplaySingle(r, ApplyCompleted(results));
    ReplayTriple(r, PlanCommitted(plan), ApplyCompleted(results), PlanCommitted(plan));
  }

  lemma ReplayTriple(r: Recovery, e: Entry, f: Entry, g: Entry)
    ensures ReplayFrom(r, [e, f, g]) == ReplayOne(ReplayOne(ReplayOne(r, e), f), g)
  {
    assert [e, f, g] == [e, f] + [g];
    ReplayAppend(r, [e, f], [g]);
    ReplayPair(r, e, f);
    ReplaySingle(ReplayOne(ReplayOne(r, e), f), g);
  }

  lemma ApplyEffectKeeps(s: State, plan: ReconstructionPlan, now: U64)
    requires Steady(s) && s.topology.Some?
    requires DatedBy(plan, s.boot, s.epoch)
    ensures Keeps(s, ApplyEffect(s, plan, now))
  {
    var e := ApplyEffect(s, plan, now);
    ApplyKeeps(s, plan.restores, |plan.restores|, now);
    var results := if plan.feasibility.NothingToRestore? then []
        else ApplySteps(s, plan.restores, |plan.restores|, now).results;
    forall r: Recovery | Agrees(r, s)
      ensures Agrees(ReplayFrom(r, e.entries), e.state)
    {
      ReplayApplied(r, plan, results, s);
    }
  }

  lemma ApplyingKeeps(s: State, planId: U64, now: U64)
    requires Steady(s)
    ensures Keeps(s, ApplyingPlan(s, planId, now))
  {
    UnchangedKeeps(s);
    if s.topology.Some? && planId in s.plans {
      ApplyEffectKeeps(s, s.plans[planId], now);
    }
  }

  lemma VerifyingKeeps(s: State, r: EvidenceRecord, admitted: bool)
    requires Steady(s)
    ensures Keeps(s, Effect(Verifying(s, r, admitted), []))
  {
    var after := Verifying(s, r, admitted);
    ObservationsKeep(s, after.evidence, after.steps);
    VerifyingFrame(s, r, admitted);
  }

  lemma ObservationsKeep(s: State, evidence: Buckets, steps: StepMap)
    requires Steady(s)
    ensures Keeps(s, Effect(s.(evidence := evidence, steps := steps), []))
  {
    QuietKeeps(s, Effect(s.(evidence := evidence, steps := steps), []));
  }

  lemma VerifyingFrame(s: State, r: EvidenceRecord, admitted: bool)
    ensures var after := Verifying(s, r, admitted); after == s.(evidence := after.evidence, steps := after.steps)
  {
  }

  // ---- Every call ----

  lemma EstablishKeeps(s: State, dependent: DependentRef, bound: set<SwitchKey>, now: U64)
    requires Steady(s)
    ensures Keeps(s, Effect(s.(registry := TryGrant(s, s.registry, dependent, bound, now)), []))
  {
    Authority.TryGrantSound(s.registry, s.limits.maxAuthorityGrants, dependent, bound, s.epoch, s.boot, now,
                            s.policy.grantTtl);
    QuietKeeps(s, Effect(s.(registry := TryGrant(s, s.registry, dependent, bound, now)), []));
  }

  lemma WithdrawKeeps(s: State, sweep: Authority.Sweep)
    requires Steady(s)
    ensures Keeps(s, Effect(s.(registry := Authority.Sweeping(s.registry, sweep)), []))
  {
    Authority.SweepingSound(s.registry, sweep);
    QuietKeeps(s, Effect(s.(registry := Authority.Sweeping(s.registry, sweep)), []));
  }

  lemma InstallKeeps(s: State, t: TopologySnapshot, paths: seq<PathDescriptor>, links: seq<LinkDescriptor>, now: U64)
    requires Steady(s) && Topology.Valid(t)
    ensures Keeps(s, Effect(s.(topology := Some(t), registry := Granting(s, paths, links, now)), [TopologyInstalled]))
  {
    GrantingPathsSound(s, paths, |paths|, now);
    GrantingLinksSound(s, GrantingPaths(s, paths, |paths|, now), links, |links|, now);
    QuietKeeps(s, Effect(s.(topology := Some(t), registry := Granting(s, paths, links, now)), [TopologyInstalled]));
  }

  lemma RetainKeeps(s: State, plan: ReconstructionPlan, evicted: set<U64>)
    requires Steady(s) && Labelled(s, plan)
    ensures Keeps(s, Effect(s.(plans := (s.plans - evicted)[plan.id := plan]), []))
  {
    QuietKeeps(s, Effect(s.(plans := (s.plans - evicted)[plan.id := plan]), []));
  }

  /** Calls that touch neither grants nor fences. */
  lemma DefinitionsKeep(s: State, evidence: Buckets, table: seq<ReconstructionCandidate>, policy: RuntimePolicy)
    requires Steady(s) && Table(table) && policy.Valid()
    ensures Keeps(s, Effect(s.(evidence := evidence), []))
    ensures Keeps(s, Effect(s.(candidates := table), []))
    ensures Keeps(s, Effect(s.(policy := policy), [PolicyInstalled]))
    ensures Keeps(s, ShuttingDown(s))
  {
    QuietKeeps(s, Effect(s.(evidence := evidence), []));
    QuietKeeps(s, Effect(s.(candidates := table), []));
    QuietKeeps(s, Effect(s.(policy := policy), [PolicyInstalled]));
    QuietKeeps(s, ShuttingDown(s));
  }

  lemma UnchangedKeeps(s: State)
    requires Steady(s)
    ensures Keeps(s, Effect(s, []))
  {
    QuietKeeps(s, Effect(s, []));
  }

  lemma PerformKeeps(s: State, call: Call, c: Circumstance)
    requires Steady(s)
    ensures Keeps(s, Perform(s, call, c))
  {
    UnchangedKeeps(s);
    if !s.stopped {
      ActingKeeps(s, call, c);
    }
  }

  lemma ActingKeeps(s: State, call: Call, c: Circumstance)
    requires Steady(s)
    ensures Keeps(s, Acting(s, call, c))
  {
    UnchangedKeeps(s);
    match call
    case AdmitEvidence(r) => DefinitionsKeep(s, Admitted(s.evidence, r), s.candidates, s.policy);
    case Establish(dependent, bound) => EstablishKeeps(s, dependent, bound, c.now);
    case Withdraw(dependent, cause) => WithdrawKeeps(s, Authority.DependentSweep(dependent, cause));
    case InstallTopology(t, paths, links) =>
      if Installable(t, paths, links) {
        InstallKeeps(s, t, paths, links, c.now);
      }
    case InstallCandidates(table) =>
      if Table(table) {
        DefinitionsKeep(s, s.evidence, table, s.policy);
      }
    case InstallPolicy(policy) =>
      if policy.Valid() {
        DefinitionsKeep(s, s.evidence, s.candidates, policy);
      }
    case DeclareFailure(d, fencing) => DeclaringKeeps(s, d, c.evidenceId, c.admitted, c.now, fencing);
    case RetainPlan(plan, evicted) =>
      if Labelled(s, plan) {
        RetainKeeps(s, plan, evicted);
      }
    case ApplyPlan(planId) => ApplyingKeeps(s, planId, c.now);
    case VerifyEffect(r) => VerifyingKeeps(s, r, c.admitted);
    case Shutdown => DefinitionsKeep(s, s.evidence, s.candidates, s.policy);
  }

  // ---- What single calls achieve ----

  function RecordAll(failures: map<SwitchKey, FailureRecord>, records: seq<FailureRecord>): (next: map<SwitchKey,
                                                                                             FailureRecord>) {
    if records == [] then failures
       else RecordFailure(RecordAll(failures, records[..|records| - 1]), records[|records| - 1])
  }

  predicate Recordable(f: FailureRecord) {
    f.subject.Valid() && f.observedAt != 0
  }

  /** Whatever the order of arrival, the table holds the newest recorded failure of each generation. */
  lemma {:induction false} NewestFailure(records: seq<FailureRecord>, key: SwitchKey)
    ensures var table := RecordAll(map[], records);
            && (key in table ==> table[key] in records && table[key].subject == key && Recordable(table[key]))
            && forall f :: f in records && f.subject == key && Recordable(f) ==>
                key in table && f.observedAt <= table[key].observedAt
  {
    if records != [] {
      var n := |records| - 1;
      NewestFailure(records[..n], key);
      assert records == records[..n] + [records[n]];
    }
  }

  /** A declared failure leaves the generation recorded, fenced and without any Active grant. */
  lemma DeclaredIsFenced(s: State, d: Declaration, id: U64, admitted: bool, now: U64)
    requires Inputs(s) && Authority.Sound(s.registry) && Established(s, d, id, admitted, now)
    requires |s.registry.fences| < s.limits.maxFences || d.subject in s.registry.fences
    ensures var after := DeclaringFailure(s, d, id, admitted, now, true).state;
            && d.subject in after.failures && after.failures[d.subject].observedAt >= d.observedAt
            && d.subject in after.registry.fences && Authority.Cleared(after.registry, d.subject)
  {
    var recorded := RecordingFailure(s, d, id, admitted, now).state;
    var closure := ClosureFrom(s.topology.value, [SwitchNode(d.subject)], ClosureBudget(s.limits));
    var withdrawn := |Authority.Hit(s.registry.grants, Authority.FenceSweep({d.subject}))|;
    CommittedIsFenced(recorded, FenceOf(recorded, d, closure, withdrawn, now));
  }

  lemma CommittedIsFenced(s: State, fence: Authority.FenceRecord)
    requires fence.subject.Valid() && fence.reason != ""
    requires |s.registry.fences| < s.limits.maxFences || fence.subject in s.registry.fences
    ensures var after := CommittingFence(s, fence).state;
            && fence.subject in after.registry.fences && Authority.Cleared(after.registry, fence.subject)
            && after.failures == s.failures
  {
    Authority.FenceSweepClears(s.registry, fence.subject);
  }

  /** An effect report reaches every recorded step of the dependent under the plan, and no other. */
  lemma {:induction false} MarksEvery(steps: StepMap, restores: seq<RestoreStep>, n: nat, dependent: DependentRef,
                                      ack: AckState, key: StepKey)
    requires n <= |restores| && key in steps
    ensures var marked := Marked(steps, restores, n, dependent, ack);
            && marked.Keys == steps.Keys
            && marked[key] == if key.dependent == dependent && Names(restores, n, key) then ack else steps[key]
  {
    if n > 0 {
      MarksEvery(steps, restores, n - 1, dependent, ack, key);
    }
  }
}
