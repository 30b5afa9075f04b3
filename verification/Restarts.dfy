/**
 Runs of the coordinator across process boundaries. A crash may fall between any two durable
 records of a call or of an opening; the journal keeps a whole-record prefix, as its own recovery
 guarantees.
 */
module Restarts {
  import opened Identity
  import opened Topology
  import opened Closure
  import opened Evidence
  import opened EvidenceStore
  import opened Plan
  import opened Runtime
  import opened RuntimeRuns
  import Authority

  datatype System = Up(state: State, journal: seq<Entry>) | Down(journal: seq<Entry>)

  /** `durable` is how many of the records being written survive a crash. */
  datatype Event =
    | Called(call: Call, c: Circumstance)
    | Crashed(call: Call, c: Circumstance, durable: nat)
    | Opened(config: Config, durable: nat)

  ghost predicate Invariant(sys: System) {
    match sys
    case Up(s, journal) => Live(s, journal)
    case Down(journal) => Lawful(journal)
  }

  function Survivors(entries: seq<Entry>, durable: nat): (kept: seq<Entry>)
    ensures kept <= entries
  {
    if durable < |entries| then entries[..durable] else entries
  }

  ghost function Next(sys: System, event: Event): (next: System)
    requires Invariant(sys)
  {
    match (sys, event)
    case (Up(s, journal), Called(call, c)) => Up(Perform(s, call, c).state, journal + Perform(s, call, c).entries)
    case (Up(s, journal), Crashed(call, c, durable)) => Down(journal + Survivors(Perform(s, call, c).entries, durable))
    case (Down(journal), Opened(config, durable)) =>
      var entries := OpeningEntries(journal, config);
      if !config.Valid() then sys
      else if durable < |entries| then Down(journal + entries[..durable])
      else Up(Reopened(journal, config), journal + entries)
    case (_, _) => sys
  }

  // ---- Calls and crashes ----

  lemma CallKeeps(s: State, journal: seq<Entry>, call: Call, c: Circumstance)
    requires Live(s, journal)
    ensures Live(Perform(s, call, c).state, journal + Perform(s, call, c).entries)
  {
    var e := Perform(s, call, c);
    PerformKeeps(s, call, c);
    ReplayAppend(NOTHING, journal, e.entries);
    LawfulKept(journal, e.entries);
  }

  lemma CrashKeeps(s: State, journal: seq<Entry>, call: Call, c: Circumstance, durable: nat)
    requires Live(s, journal)
    ensures Lawful(journal + Survivors(Perform(s, call, c).entries, durable))
  {
    PerformKeeps(s, call, c);
    SurvivorsKept(journal, Perform(s, call, c).entries, durable);
  }

  lemma LawfulKept(journal: seq<Entry>, entries: seq<Entry>)
    requires Lawful(journal) && JournalSound(entries) && NoHeader(entries)
    requires EntriesDated(entries, Replay(journal).boot, Replay(journal).epoch)
    ensures Lawful(journal + entries)
  {
    HeadersKept(journal, entries);
    DatedKept(journal, entries);
  }

  lemma SurvivorsKept(journal: seq<Entry>, entries: seq<Entry>, durable: nat)
    requires Lawful(journal) && JournalSound(entries) && NoHeader(entries)
    requires EntriesDated(entries, Replay(journal).boot, Replay(journal).epoch)
    ensures Lawful(journal + Survivors(entries, durable))
    ensures Replay(journal + Survivors(entries, durable)).epoch == Replay(journal).epoch
  {
    var kept := Survivors(entries, durable);
    LawfulKept(journal, kept);
    ReplayAppend(NOTHING, journal, kept);
    ReplayNoHeader(Replay(journal), kept);
  }

  // ---- Opening ----

  lemma FencesOnlySound(r: Authority.Registry, sweep: Authority.Sweep)
    requires FencesOnly(r)
    ensures Authority.Sound(r) && FencesOnly(Authority.Sweeping(r, sweep)) &&
            Authority.Sweeping(r, sweep).fences == r.fences
  {
    assert Authority.Sweeping(r, sweep).grants == map[];
  }

  lemma OpeningHeaders(journal: seq<Entry>, config: Config)
    requires HeadersOrdered(journal)
    ensures var r := Replay(journal);
            NextBoot(r, config) > r.boot && NextEpoch(r) > r.epoch
  {
  }

  lemma OpeningSound(journal: seq<Entry>, config: Config, k: nat)
    requires Lawful(journal) && k <= |OpeningEntries(journal, config)|
    ensures Lawful(journal + OpeningEntries(journal, config)[..k])
    ensures k > 0 ==>
              && Replay(journal + OpeningEntries(journal, config)[..k])
                 == Replay(journal).(boot := NextBoot(Replay(journal), config), epoch := NextEpoch(Replay(journal)))
  {
    var r := Replay(journal);
    var header := StreamHeader(NextBoot(r, config), NextEpoch(r));
    OpeningHeaders(journal, config);
    if k == 0 {
      assert journal + OpeningEntries(journal, config)[..k] == journal;
    } else {
      HeaderAdded(journal, header.boot, header.epoch);
      ReplayAppend(NOTHING, journal, [header]);
      ReplaySingle(r, header);
      if k == 1 {
        assert OpeningEntries(journal, config)[..k] == [header];
      } else {
        var advance := EpochAdvance(NextEpoch(r));
        assert OpeningEntries(journal, config)[..k] == [header] + [advance];
        assert journal + ([header] + [advance]) == (journal + [header]) + [advance];
        HeadersKept(journal + [header], [advance]);
        DatedKept(journal + [header], [advance]);
        ReplayAppend(NOTHING, journal + [header], [advance]);
        ReplaySingle(Replay(journal + [header]), advance);
      }
    }
  }

  lemma ReopenedRegistry(journal: seq<Entry>, config: Config)
    requires JournalSound(journal)
    ensures FencesOnly(Reopened(journal, config).registry) && Authority.Sound(Reopened(journal, config).registry)
    ensures Reopened(journal, config).registry.fences == Replay(journal).registry.fences
    ensures StepsAcknowledged(Reopened(journal, config).steps)
  {
    ReplaySound(NOTHING, journal);
    var r := Replay(journal).registry;
    FencesOnlySound(r, Authority.RestartSweep);
    var stale := Authority.Sweeping(r, Authority.RestartSweep);
    FencesOnlySound(stale, Authority.WithdrawSweep(Authority.Restart));
    FencesOnlySound(Authority.Sweeping(stale, Authority.WithdrawSweep(Authority.Restart)), Authority.RestartSweep);
  }

  lemma OpenKeeps(journal: seq<Entry>, config: Config)
    requires Lawful(journal) && config.Valid()
    ensures Live(Reopened(journal, config), journal + OpeningEntries(journal, config))
  {
    ReopenedRegistry(journal, config);
    ReplayedDated(journal);
    OpeningHeaders(journal, config);
    var entries := OpeningEntries(journal, config);
    OpeningSound(journal, config, |entries|);
    assert entries[..|entries|] == entries;
  }

  lemma NextKeeps(sys: System, event: Event)
    requires Invariant(sys)
    ensures Invariant(Next(sys, event))
  {
    match (sys, event)
    case (Up(s, journal), Called(call, c)) => CallKeeps(s, journal, call, c);
    case (Up(s, journal), Crashed(call, c, durable)) => CrashKeeps(s, journal, call, c, durable);
    case (Down(journal), Opened(config, durable)) =>
      if durable < |OpeningEntries(journal, config)| {
        OpeningSound(journal, config, durable);
      } else if config.Valid() {
        OpenKeeps(journal, config);
      }
    case (_, _) =>
  }

  // ---- Runs ----

  /** Any run, from an empty journal. */
  ghost function Run(events: seq<Event>): (sys: System)
    ensures Invariant(sys)
  {
    if events == [] then Down([])
    else
      var last := |events| - 1;
      NextKeeps(Run(events[..last]), events[last]);
      Next(Run(events[..last]), events[last])
  }

  /** All systems along a run. */
  ghost function Trace(events: seq<Event>): (systems: seq<System>)
    ensures |systems| == |events| + 1
  {
    if events == [] then [Run(events)] else Trace(events[..|events| - 1]) + [Run(events)]
  }

  lemma {:induction false} TraceAt(events: seq<Event>, n: nat)
    requires n <= |events|
    ensures Trace(events)[n] == Run(events[..n])
  {
    if n == |events| {
      assert events[..n] == events;
    } else {
      TraceAt(events[..|events| - 1], n);
      assert events[..|events| - 1][..n] == events[..n];
    }
  }

  lemma TraceEnds(events: seq<Event>, more: seq<Event>)
    ensures Trace(events + more)[|events|] == Run(events)
    ensures Trace(events + more)[|events + more|] == Run(events + more)
  {
    var whole := events + more;
    TraceAt(whole, |events|);
    TraceAt(whole, |whole|);
    assert whole[..|events|] == events && whole[..|whole|] == whole;
  }

  lemma RunNext(events: seq<Event>, n: nat)
    requires n < |events|
    ensures Run(events[..n + 1]) == Next(Run(events[..n]), events[n])
  {
    assert events[..n + 1][..n] == events[..n];
  }

  /** Fence safety in every reachable state: no Active grant is bound to a fenced generation. */
  lemma FenceSafety(events: seq<Event>)
    requires Run(events).Up?
    ensures Authority.FenceSafe(Run(events).state.registry)
    ensures Authority.Indexed(Run(events).state.registry)
  {
  }

  /** Within an incarnation the fence set never shrinks and no fence is rewritten. */
  lemma FencesStay(events: seq<Event>, call: Call, c: Circumstance, key: SwitchKey)
    requires Run(events).Up? && key in Run(events).state.registry.fences
    ensures var sys := Run(events + [Called(call, c)]);
            && sys.Up? && key in sys.state.registry.fences
            && sys.state.registry.fences[key] == Run(events).state.registry.fences[key]
  {
    var longer := events + [Called(call, c)];
    assert longer[..|events|] == events;
    PerformKeeps(Run(events).state, call, c);
  }

  ghost predicate Stopped(sys: System) {
    sys.Up? && sys.state.stopped
  }

  lemma StoppedNext(sys: System, event: Event)
    requires Invariant(sys) && Stopped(sys) && event.Called?
    ensures Next(sys, event) == sys
  {
    assert sys.journal + [] == sys.journal;
  }

  lemma StoppedTrace(events: seq<Event>, n: nat)
    requires n < |events| && events[n].Called? && Stopped(Trace(events)[n])
    ensures Trace(events)[n + 1] == Trace(events)[n]
  {
    TraceAt(events, n);
    TraceAt(events, n + 1);
    RunNext(events, n);
    StoppedNext(Run(events[..n]), events[n]);
  }

  ghost predicate Resting(systems: seq<System>, n: nat) {
    forall i :: n < i < |systems| && Stopped(systems[i - 1]) ==> systems[i] == systems[i - 1]
  }

  lemma TraceResting(events: seq<Event>, n: nat)
    requires forall i :: n <= i < |events| ==> events[i].Called?
    ensures Resting(Trace(events), n)
  {
    forall i | n < i < |Trace(events)| && Stopped(Trace(events)[i - 1])
      ensures Trace(events)[i] == Trace(events)[i - 1]
    {
      StoppedTrace(events, i - 1);
    }
  }

  lemma {:induction false} RestingChain(systems: seq<System>, n: nat, m: nat)
    requires n <= m < |systems| && Resting(systems, n) && Stopped(systems[n])
    ensures systems[m] == systems[n]
  {
    if n < m {
      RestingChain(systems, n, m - 1);
      assert systems[m] == systems[m - 1];
    }
  }

  /** After a shutdown nothing that is called changes anything, a second shutdown included. */
  lemma StoppedStays(events: seq<Event>, calls: seq<Event>)
    requires Stopped(Run(events)) && forall i :: 0 <= i < |calls| ==> calls[i].Called?
    ensures Run(events + calls) == Run(events)
  {
    TraceEnds(events, calls);
    TraceResting(events + calls, |events|);
    RestingChain(Trace(events + calls), |events|, |events + calls|);
  }

  // ---- What a restart rebuilds ----

  /** No authority survives a restart, even if the journal held grants. */
  lemma NothingActive(journal: seq<Entry>, config: Config, id: nat)
    requires id in Reopened(journal, config).registry.grants
    ensures !Reopened(journal, config).registry.grants[id].state.Active?
  {
    var r := Replay(journal).registry;
    var stale := Authority.Sweeping(r, Authority.RestartSweep);
    Authority.SweptKeeps(Authority.RestartSweep, r.grants[id]);
    Authority.SweptKeeps(Authority.WithdrawSweep(Authority.Restart), stale.grants[id]);
  }

  /** Every durably failed generation is unusable and must be fenced, whatever the time. */
  lemma FailedStaysFailed(journal: seq<Entry>, config: Config, key: SwitchKey, now: U64)
    requires key in Replay(journal).failures
    ensures AssessNow(Reopened(journal, config), key, now).fenceRequired &&
            !AssessNow(Reopened(journal, config), key, now).usable
  {
    var s := Reopened(journal, config);
    if key.Valid() {
      DurableFailureFences(key, Bucket(s.evidence, key), s.failures[key], now, s.policy.assessment);
    }
  }

  // ---- A failure across a run ----

  /** A failure of the generation, observed then or later, is on record. */
  ghost predicate OnRecord(failures: map<SwitchKey, FailureRecord>, key: SwitchKey, since: U64) {
    key in failures && failures[key].observedAt >= since
  }

  lemma {:induction false} ReplayKeepsFailure(r: Recovery, entries: seq<Entry>, key: SwitchKey, since: U64)
    requires OnRecord(r.failures, key, since)
    ensures OnRecord(ReplayFrom(r, entries).failures, key, since)
  {
    if entries != [] {
      ReplayKeepsFailure(r, entries[..|entries| - 1], key, since);
    }
  }

  lemma AppendKeepsFailure(journal: seq<Entry>, longer: seq<Entry>, key: SwitchKey, since: U64)
    requires journal <= longer && OnRecord(Replay(journal).failures, key, since)
    ensures OnRecord(Replay(longer).failures, key, since)
  {
    var more := longer[|journal|..];
    assert longer == journal + more;
    ReplayAppend(NOTHING, journal, more);
    ReplayKeepsFailure(Replay(journal), more, key, since);
  }

  lemma JournalGrows(sys: System, event: Event)
    requires Invariant(sys)
    ensures sys.journal <= Next(sys, event).journal
  {
  }

  lemma JournalTrace(events: seq<Event>, n: nat)
    requires n < |events|
    ensures Trace(events)[n].journal <= Trace(events)[n + 1].journal
  {
    TraceAt(events, n);
    TraceAt(events, n + 1);
    RunNext(events, n);
    JournalGrows(Run(events[..n]), events[n]);
  }

  ghost predicate Growing(systems: seq<System>) {
    forall i :: 0 < i < |systems| ==> systems[i - 1].journal <= systems[i].journal
  }

  lemma TraceGrowing(events: seq<Event>)
    ensures Growing(Trace(events))
  {
    forall i | 0 < i < |Trace(events)|
      ensures Trace(events)[i - 1].journal <= Trace(events)[i].journal
    {
      JournalTrace(events, i - 1);
    }
  }

  lemma {:induction false} GrowingChain(systems: seq<System>, n: nat, m: nat)
    requires n <= m < |systems| && Growing(systems)
    ensures systems[n].journal <= systems[m].journal
  {
    if n < m {
      GrowingChain(systems, n, m - 1);
      assert systems[m - 1].journal <= systems[m].journal;
    }
  }

  /** The journal is append-only over any continuation of a run. */
  lemma JournalKept(events: seq<Event>, more: seq<Event>)
    ensures Run(events).journal <= Run(events + more).journal
  {
    TraceEnds(events, more);
    TraceGrowing(events + more);
    GrowingChain(Trace(events + more), |events|, |events + more|);
  }

  /**
   Once a failure is durable, the generation stays unusable and must be fenced in every later
   state of the run, through any calls, crashes and restarts, until a record is held that lifts
   that failure.
   */
  lemma FailureHolds(events: seq<Event>, more: seq<Event>, key: SwitchKey, now: U64)
    requires key in Replay(Run(events).journal).failures && Run(events + more).Up?
    ensures var since := Replay(Run(events).journal).failures[key].observedAt;
            var s := Run(events + more).state;
            && OnRecord(s.failures, key, since)
            && ((forall r :: r in Bucket(s.evidence, key) ==> !Lifts(r, since, now, s.policy.assessment)) ==>
                  AssessNow(s, key, now).fenceRequired && !AssessNow(s, key, now).usable)
  {
    var since := Replay(Run(events).journal).failures[key].observedAt;
    JournalKept(events, more);
    AppendKeepsFailure(Run(events).journal, Run(events + more).journal, key, since);
    var s := Run(events + more).state;
    if forall r :: r in Bucket(s.evidence, key) ==> !Lifts(r, since, now, s.policy.assessment) {
      HeldFailure(s, key, since, now);
    }
  }

  lemma HeldFailure(s: State, key: SwitchKey, since: U64, now: U64)
    requires OnRecord(s.failures, key, since)
    requires forall r :: r in Bucket(s.evidence, key) ==> !Lifts(r, since, now, s.policy.assessment)
    ensures AssessNow(s, key, now).fenceRequired && !AssessNow(s, key, now).usable
  {
    if key.Valid() {
      DurableFailureFences(key, Bucket(s.evidence, key), s.failures[key], now, s.policy.assessment);
    }
  }

  /** Each incarnation that opens has a larger epoch and boot ordinal than all before it. */
  lemma NewIncarnation(events: seq<Event>, config: Config, durable: nat, i: nat)
    requires Run(events).Down? && i < |Run(events).journal| && Run(events).journal[i].StreamHeader?
    requires Run(events + [Opened(config, durable)]).Up?
    ensures Run(events + [Opened(config, durable)]).state.boot > Run(events).journal[i].boot
    ensures Run(events + [Opened(config, durable)]).state.epoch > Run(events).journal[i].epoch
  {
    var longer := events + [Opened(config, durable)];
    assert longer[..|events|] == events;
    OpeningHeaders(Run(events).journal, config);
  }

  // ---- A crash in the middle of a call ----

  /** Records that carry neither a failure nor a fence. */
  predicate Bland(entries: seq<Entry>) {
    forall i :: 0 <= i < |entries| ==>
        !entries[i].FailureCommitted? && !entries[i].FenceCommitted? && !entries[i].GrantMinted?
  }

  lemma {:induction false} BlandReplay(r: Recovery, entries: seq<Entry>)
    requires Bland(entries)
    ensures ReplayFrom(r, entries).failures == r.failures && ReplayFrom(r, entries).registry == r.registry
  {
    if entries != [] {
      BlandReplay(r, entries[..|entries| - 1]);
    }
  }

  lemma ApplyBland(s: State, plan: ReconstructionPlan, now: U64)
    requires s.topology.Some?
    ensures Bland(ApplyEffect(s, plan, now).entries)
  {
  }

  lemma OtherCallsBland(s: State, call: Call, c: Circumstance)
    requires Inputs(s) && !call.DeclareFailure?
    ensures Bland(Acting(s, call, c).entries)
  {
    if call.ApplyPlan? {
      if s.topology.Some? && call.planId in s.plans {
        ApplyBland(s, s.plans[call.planId], c.now);
      }
    } else {
      assert |Acting(s, call, c).entries| <= 1;
    }
  }

  /** What survives is what was there, or with the failure, or with the failure and its fence. */
  ghost predicate BetweenCalls(r: Recovery, before: State, after: State) {
    || (r.failures == before.failures && r.registry.fences == before.registry.fences)
    || (r.failures == after.failures && r.registry.fences == before.registry.fences)
    || (r.failures == after.failures && r.registry.fences == after.registry.fences)
  }

  lemma OnePart(r: Recovery, s: State, a: Effect, durable: nat)
    requires Agrees(r, s) && Keeps(s, a) && |a.entries| <= 1
    ensures BetweenCalls(ReplayFrom(r, Survivors(a.entries, durable)), s, a.state)
  {
    ReplayNothing(r);
    assert Survivors(a.entries, durable) == [] || Survivors(a.entries, durable) == a.entries;
  }

  lemma TwoParts(r: Recovery, s: State, a: Effect, b: Effect, durable: nat)
    requires Agrees(r, s) && Keeps(s, a) && Keeps(a.state, b) && |a.entries| == 1 && |b.entries| <= 1
    requires a.state.registry.fences == s.registry.fences && b.state.failures == a.state.failures
    ensures BetweenCalls(ReplayFrom(r, Survivors(a.entries + b.entries, durable)), s, b.state)
  {
    ReplayNothing(r);
    KeepsTrans(s, a, b);
    var kept := Survivors(a.entries + b.entries, durable);
    assert kept == [] || kept == a.entries || kept == a.entries + b.entries;
  }

  lemma CommittingParts(s: State, fence: Authority.FenceRecord)
    ensures |CommittingFence(s, fence).entries| <= 1 && CommittingFence(s, fence).state.failures == s.failures
  {
  }

  lemma FencingParts(s: State, d: Declaration, now: U64)
    requires Inputs(s) && s.topology.Some?
    ensures |FencingFailure(s, d, now).entries| <= 1 && FencingFailure(s, d, now).state.failures == s.failures
  {
    var closure := ClosureFrom(s.topology.value, [SwitchNode(d.subject)], ClosureBudget(s.limits));
    var withdrawn := |Authority.Hit(s.registry.grants, Authority.FenceSweep({d.subject}))|;
    CommittingParts(s, FenceOf(s, d, closure, withdrawn, now));
  }

  lemma DeclaredBetween(s: State, d: Declaration, id: U64, admitted: bool, now: U64, fencing: bool, r: Recovery,
                        durable: nat)
    requires Steady(s) && Agrees(r, s)
    ensures var e := DeclaringFailure(s, d, id, admitted, now, fencing);
            BetweenCalls(ReplayFrom(r, Survivors(e.entries, durable)), s, e.state)
  {
    var recorded := RecordingFailure(s, d, id, admitted, now);
    RecordingKeeps(s, d, id, admitted, now);
    if fencing && Established(s, d, id, admitted, now) {
      FencingIsCommitting(recorded.state, d, now);
      FencingParts(recorded.state, d, now);
      TwoParts(r, s, recorded, FencingFailure(recorded.state, d, now), durable);
    } else {
      OnePart(r, s, recorded, durable);
    }
  }

  /**
   Reopening after a crash at any point of a call rebuilds the failure table and the fences of the
   last completed call, plus at most what the call in flight had already made durable.
   */
  lemma CrashRecovers(s: State, journal: seq<Entry>, call: Call, c: Circumstance, durable: nat, config: Config)
    requires Live(s, journal)
    ensures var after := Perform(s, call, c).state;
            var reopened := Reopened(journal + Survivors(Perform(s, call, c).entries, durable), config);
            BetweenCalls(Recovery(reopened.failures, reopened.registry, map[], map[], 0, 0), s, after)
  {
    var kept := Survivors(Perform(s, call, c).entries, durable);
    CrashKeeps(s, journal, call, c, durable);
    ReopenedRegistry(journal + kept, config);
    ReplayAppend(NOTHING, journal, kept);
    if s.stopped {
      BlandReplay(Replay(journal), kept);
    } else if call.DeclareFailure? {
      DeclaredBetween(s, call.declaration, c.evidenceId, c.admitted, c.now, call.fencing, Replay(journal), durable);
    } else {
      OtherCallsBland(s, call, c);
      BlandReplay(Replay(journal), kept);
    }
  }

  /** A call that completed is never lost, whatever happens to the next one. */
  lemma CompletedSurvives(s: State, journal: seq<Entry>, config: Config)
    requires Live(s, journal)
    ensures Reopened(journal, config).failures == s.failures
    ensures Reopened(journal, config).registry.fences == s.registry.fences
  {
    ReopenedRegistry(journal, config);
  }

  // ---- Plans across restarts ----

  /** The epoch of the last incarnation that left a header. */
  ghost function Era(sys: System): (epoch: nat) {
    Replay(sys.journal).epoch
  }

  lemma EraStep(sys: System, event: Event)
    requires Invariant(sys) && Invariant(Next(sys, event))
    ensures Era(Next(sys, event)) >= Era(sys)
    ensures sys.Down? && Next(sys, event).Up? ==> Era(Next(sys, event)) > Era(sys)
  {
    match (sys, event)
    case (Up(s, journal), Called(call, c)) => EraCall(s, journal, call, c);
    case (Up(s, journal), Crashed(call, c, durable)) => EraCrash(s, journal, call, c, durable);
    case (Down(journal), Opened(config, durable)) => EraOpen(journal, config, durable);
    case (_, _) =>
  }

  lemma EraCall(s: State, journal: seq<Entry>, call: Call, c: Circumstance)
    requires Live(s, journal)
    ensures Replay(journal + Perform(s, call, c).entries).epoch == Replay(journal).epoch
  {
    PerformKeeps(s, call, c);
    ReplayAppend(NOTHING, journal, Perform(s, call, c).entries);
    ReplayNoHeader(Replay(journal), Perform(s, call, c).entries);
  }

  lemma EraCrash(s: State, journal: seq<Entry>, call: Call, c: Circumstance, durable: nat)
    requires Live(s, journal)
    ensures Replay(journal + Survivors(Perform(s, call, c).entries, durable)).epoch == Replay(journal).epoch
  {
    PerformKeeps(s, call, c);
    SurvivorsKept(journal, Perform(s, call, c).entries, durable);
  }

  lemma EraOpen(journal: seq<Entry>, config: Config, durable: nat)
    requires Lawful(journal)
    ensures Era(Next(Down(journal), Opened(config, durable))) >= Replay(journal).epoch
    ensures Next(Down(journal), Opened(config, durable)).Up? ==>
              Era(Next(Down(journal), Opened(config, durable))) > Replay(journal).epoch
  {
    var entries := OpeningEntries(journal, config);
    OpeningHeaders(journal, config);
    OpeningSound(journal, config, if durable < |entries| then durable else |entries|);
    assert journal + [] == journal && entries[..|entries|] == entries;
  }

  /** Epochs do not go back, and an opening in between makes them larger. */
  ghost predicate Later(a: System, b: System) {
    Era(b) >= Era(a) && (a.Down? && b.Up? ==> Era(b) > Era(a))
  }

  lemma LaterTrace(events: seq<Event>, n: nat)
    requires n < |events|
    ensures Later(Trace(events)[n], Trace(events)[n + 1])
  {
    TraceAt(events, n);
    TraceAt(events, n + 1);
    RunNext(events, n);
    EraStep(Run(events[..n]), events[n]);
  }

  ghost predicate Dating(systems: seq<System>) {
    forall i :: 0 < i < |systems| ==> Later(systems[i - 1], systems[i])
  }

  lemma TraceDating(events: seq<Event>)
    ensures Dating(Trace(events))
  {
    forall i | 0 < i < |Trace(events)|
      ensures Later(Trace(events)[i - 1], Trace(events)[i])
    {
      LaterTrace(events, i - 1);
    }
  }

  lemma {:induction false} DatingChain(systems: seq<System>, n: nat, m: nat)
    requires n <= m < |systems| && Dating(systems)
    ensures Later(systems[n], systems[m])
  {
    if n < m {
      DatingChain(systems, n, m - 1);
      assert Later(systems[m - 1], systems[m]);
    }
  }

  lemma EraGrows(events: seq<Event>, more: seq<Event>)
    ensures Later(Run(events), Run(events + more))
  {
    TraceEnds(events, more);
    TraceDating(events + more);
    DatingChain(Trace(events + more), |events|, |events + more|);
  }

  /** Plans are replayed, but one that was committed before a restart is never applied again. */
  lemma CommittedNeverApplies(events: seq<Event>, more: seq<Event>, plan: ReconstructionPlan, now: U64)
    requires Run(events).Down? && PlanCommitted(plan) in Run(events).journal
    requires Run(events + more).Up? && Run(events + more).state.topology.Some?
    ensures !Applicable(Run(events + more).state, plan, now)
  {
    EraGrows(events, more);
    var i :| 0 <= i < |Run(events).journal| && Run(events).journal[i] == PlanCommitted(plan);
    assert DatedBy(plan, Replay(Run(events).journal).boot, Era(Run(events)));
    OnlyCurrent(Run(events + more).state, plan, now);
  }

  lemma OnlyCurrent(s: State, plan: ReconstructionPlan, now: U64)
    requires Inputs(s) && s.topology.Some?
    ensures Applicable(s, plan, now) ==> plan.epoch == s.epoch && plan.boot == s.boot
  {
  }

  /**
   Write-ahead: as soon as anything of an application is durable, so is its plan; the recorded
   steps appear with the receipt, all at once, and until then recovery shows none of them.
   */
  lemma ApplyWriteAhead(s: State, journal: seq<Entry>, planId: U64, now: U64, durable: nat, config: Config)
    requires Live(s, journal) && s.topology.Some? && planId in s.plans
    requires Applicable(s, s.plans[planId], now) && s.plans[planId].feasibility.ProvenFeasible?
    ensures var plan := s.plans[planId];
            var results := ApplySteps(s, plan.restores, |plan.restores|, now).results;
            var reopened := Reopened(journal + Survivors(ApplyingPlan(s, planId, now).entries, durable), config);
            && reopened.plans == (if durable == 0 then Replay(journal).plans else Replay(journal).plans[planId := plan])
            && reopened.steps
               == (if durable < 2 then Replay(journal).steps
                   else MergeResults(Replay(journal).steps, results, |results|))
  {
    var plan := s.plans[planId];
    var results := ApplySteps(s, plan.restores, |plan.restores|, now).results;
    var kept := Survivors(ApplyingPlan(s, planId, now).entries, durable);
    ReplayAppend(NOTHING, journal, kept);
    WriteAhead(Replay(journal), plan, results, durable);
  }

  lemma WriteAhead(r: Recovery, plan: ReconstructionPlan, results: seq<StepResult>, durable: nat)
    ensures var entries := [PlanCommitted(plan), ApplyCompleted(results), PlanCommitted(plan)];
            var after := ReplayFrom(r, Survivors(entries, durable));
            && after.plans == (if durable == 0 then r.plans else r.plans[plan.id := plan])
            && after.steps == (if durable < 2 then r.steps else MergeResults(r.steps, results, |results|))
  {
    SurvivorsReplay(r, PlanCommitted(plan), ApplyCompleted(results), PlanCommitted(plan), durable);
  }

  lemma SurvivorsReplay(r: Recovery, e: Entry, f: Entry, g: Entry, durable: nat)
    ensures ReplayFrom(r, Survivors([e, f, g], durable))
         == if durable == 0 then r
            else if durable == 1 then ReplayOne(r, e)
            else if durable == 2 then ReplayOne(ReplayOne(r, e), f)
            else ReplayOne(ReplayOne(ReplayOne(r, e), f), g)
  {
    var kept := Survivors([e, f, g], durable);
    if durable == 0 {
      assert kept == [];
      ReplayNothing(r);
    } else if durable == 1 {
      assert kept == [e];
      ReplaySingle(r, e);
    } else if durable == 2 {
      assert kept == [e, f];
      ReplayPair(r, e, f);
    } else {
      ReplayTriple(r, e, f, g);
    }
  }
}
