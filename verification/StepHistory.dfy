/**
 The recorded steps over whole runs (src/runtime/failover.cpp:500-636, src/runtime/coordinator.cpp:184-196)
 and what they mean for restoring service: which event decided the state a step is in.
 */
module StepHistory {
  import opened Identity
  import opened Evidence
  import opened Plan
  import opened Runtime
  import opened RuntimeRuns
  import opened Restarts
  import opened Restoration
  import Authority

  ghost predicate HasAck(steps: StepMap, key: StepKey, ack: AckState) {
    key in steps && steps[key] == ack
  }

  // ---- Receipts in the journal ----

  /** Result j is the last of the first n that names the step. */
  ghost predicate LastResult(results: seq<StepResult>, n: nat, key: StepKey, j: nat) {
    && j < n <= |results| && results[j].key == key
    && forall k :: j < k < n ==> results[k].key != key
  }

  /** The last of the first n results that names the step says so. */
  ghost predicate LastWord(results: seq<StepResult>, n: nat, key: StepKey, ack: AckState) {
    exists j: nat :: LastResult(results, n, key, j) && results[j].ack == ack
  }

  ghost predicate Unnamed(results: seq<StepResult>, n: nat, key: StepKey)
    requires n <= |results|
  {
    forall j :: 0 <= j < n ==> results[j].key != key
  }

  ghost predicate Mentions(entry: Entry, key: StepKey) {
    entry.ApplyCompleted? && !Unnamed(entry.results, |entry.results|, key)
  }

  ghost predicate Concludes(entry: Entry, key: StepKey, ack: AckState) {
    entry.ApplyCompleted? && LastWord(entry.results, |entry.results|, key, ack)
  }

  /** The last receipt of the journal that names the step says so. */
  ghost predicate LastReceipt(journal: seq<Entry>, key: StepKey, ack: AckState) {
    exists i :: 0 <= i < |journal| && Concludes(journal[i], key, ack) && Unmentioned(journal, i + 1, key)
  }

  ghost predicate Unmentioned(journal: seq<Entry>, from: nat, key: StepKey) {
    forall k :: from <= k < |journal| ==> !Mentions(journal[k], key)
  }

  lemma WordNext(results: seq<StepResult>, n: nat, key: StepKey, ack: AckState)
    requires n < |results|
    ensures LastWord(results, n + 1, key, ack) <==>
              if results[n].key == key then results[n].ack == ack else LastWord(results, n, key, ack)
  {
    if results[n].key == key {
      assert LastResult(results, n + 1, key, n);
    } else {
      forall j: nat
        ensures LastResult(results, n + 1, key, j) <==> LastResult(results, n, key, j)
      {
      }
    }
  }

  lemma {:induction false} MergeMeans(steps: StepMap, results: seq<StepResult>, n: nat, key: StepKey, ack: AckState)
    requires n <= |results|
    ensures HasAck(MergeResults(steps, results, n), key, ack) <==>
              LastWord(results, n, key, ack) || (HasAck(steps, key, ack) && Unnamed(results, n, key))
  {
    if n > 0 {
      MergeMeans(steps, results, n - 1, key, ack);
      WordNext(results, n - 1, key, ack);
    }
  }

  lemma ReceiptNext(before: seq<Entry>, last: Entry, key: StepKey, ack: AckState)
    ensures LastReceipt(before + [last], key, ack) <==>
              Concludes(last, key, ack) || (LastReceipt(before, key, ack) && !Mentions(last, key))
  {
    var journal := before + [last];
    forall i | 0 <= i < |before|
      ensures Concludes(journal[i], key, ack) == Concludes(before[i], key, ack)
      ensures Unmentioned(journal, i + 1, key) <==> Unmentioned(before, i + 1, key) && !Mentions(last, key)
    {
      UnmentionedNext(before, last, i + 1, key);
    }
    assert journal[|before|] == last && Unmentioned(journal, |before| + 1, key);
  }

  lemma UnmentionedNext(before: seq<Entry>, last: Entry, from: nat, key: StepKey)
    requires from <= |before|
    ensures Unmentioned(before + [last], from, key) <==> Unmentioned(before, from, key) && !Mentions(last, key)
  {
    var journal := before + [last];
    assert journal[|before|] == last && forall k :: 0 <= k < |before| ==> journal[k] == before[k];
  }

  /** What replay records of a step is what its last receipt says. */
  lemma {:induction false} ReplayedStep(journal: seq<Entry>, key: StepKey, ack: AckState)
    ensures HasAck(Replay(journal).steps, key, ack) <==> LastReceipt(journal, key, ack)
  {
    if journal != [] {
      var before, last := journal[..|journal| - 1], journal[|journal| - 1];
      assert journal == before + [last];
      ReplayedStep(before, key, ack);
      ReceiptNext(before, last, key, ack);
      if last.ApplyCompleted? {
        MergeMeans(Replay(before).steps, last.results, |last.results|, key, ack);
      }
    }
  }

  // ---- What one event says about a step ----

  predicate For(step: RestoreStep, key: StepKey) {
    step.dependent == key.dependent && step.replacement == key.replacement
  }

  /** Step i is the last of the first n for this dependent and replacement. */
  ghost predicate LastFor(restores: seq<RestoreStep>, n: nat, key: StepKey, i: nat) {
    && i < n <= |restores| && For(restores[i], key)
    && forall k :: i < k < n ==> !For(restores[k], key)
  }

  /** An accepted report on the recorded step says whether it took effect. */
  ghost predicate ReportSets(s: State, event: Event, key: StepKey, ack: AckState) {
    && Reports(s, event, key) && key in s.steps
    && ack == if event.call.verification.kind.EffectVerification? then AckVerified else AckFailed
  }

  /** An application in effect: the step was applied exactly when there was room for its grant. */
  ghost predicate ApplySets(s: State, event: Event, key: StepKey, ack: AckState)
    requires Inputs(s)
  {
    && Reapplies(s, event, key)
    && exists i: nat :: LastFor(s.plans[event.call.planId].restores, |s.plans[event.call.planId].restores|, key, i)
                        && ack == if i < Room(s) then AckApplied else AckFailed
  }

  /** The event decides the state of the step: a report, an application, or a restart and its receipts. */
  ghost predicate Sets(sys: System, event: Event, key: StepKey, ack: AckState)
    requires Invariant(sys)
  {
    match sys
    case Up(s, _) => ReportSets(s, event, key, ack) || ApplySets(s, event, key, ack)
    case Down(journal) => event.Opened? && Next(sys, event).Up? && LastReceipt(journal, key, ack)
  }

  /** The event reaches the step at all. */
  ghost predicate Touches(sys: System, event: Event, key: StepKey)
    requires Invariant(sys)
  {
    match sys
    case Up(s, _) => (Reports(s, event, key) && key in s.steps) || Reapplies(s, event, key)
    case Down(_) => Next(sys, event).Up?
  }

  lemma {:induction false} NamesLast(restores: seq<RestoreStep>, n: nat, key: StepKey) returns (i: nat)
    requires n <= |restores| && Names(restores, n, key)
    ensures LastFor(restores, n, key, i)
  {
    if For(restores[n - 1], key) {
      i := n - 1;
    } else {
      i := NamesLast(restores, n - 1, key);
    }
  }

  /** The recorded acknowledgement is that of the last step for the key. */
  lemma {:induction false} AppliedLast(s: State, restores: seq<RestoreStep>, n: nat, now: U64, key: StepKey, i: nat)
    requires s.topology.Some? && n <= |restores| && LastFor(restores, n, key, i)
    ensures var a := ApplySteps(s, restores, n, now);
            HasAck(a.steps, key, a.results[i].ack)
  {
    if i < n - 1 {
      AppliedLast(s, restores, n - 1, now, key, i);
    }
  }

  lemma LastForUnique(restores: seq<RestoreStep>, n: nat, key: StepKey, i: nat, j: nat)
    requires LastFor(restores, n, key, i) && LastFor(restores, n, key, j)
    ensures i == j
  {
  }

  lemma PlanSets(s: State, plan: ReconstructionPlan, now: U64, key: StepKey, i: nat)
    requires Steady(s) && s.topology.Some? && Applicable(s, plan, now) && !plan.feasibility.NothingToRestore?
    requires LastFor(plan.restores, |plan.restores|, key, i)
    ensures HasAck(ApplyEffect(s, plan, now).state.steps, key, if i < Room(s) then AckApplied else AckFailed)
  {
    AppliedLast(s, plan.restores, |plan.restores|, now, key, i);
    PlanAccounting(s, plan, now);
  }

  lemma PlanSpares(s: State, plan: ReconstructionPlan, now: U64, key: StepKey, ack: AckState)
    requires s.topology.Some?
    requires plan.feasibility.NothingToRestore? || !Names(plan.restores, |plan.restores|, key)
    ensures HasAck(ApplyEffect(s, plan, now).state.steps, key, ack) <==> HasAck(s.steps, key, ack)
  {
    AppliedSteps(s, plan.restores, |plan.restores|, now, key);
  }

  lemma ApplySetsExactly(s: State, event: Event, key: StepKey, ack: AckState)
    requires Steady(s) && !s.stopped && event.Called? && event.call.ApplyPlan?
    ensures HasAck(ApplyingPlan(s, event.call.planId, event.c.now).state.steps, key, ack) <==>
              ApplySets(s, event, key, ack) || (HasAck(s.steps, key, ack) && !Reapplies(s, event, key))
  {
    var planId, now := event.call.planId, event.c.now;
    if s.topology.Some? && planId in s.plans && Applicable(s, s.plans[planId], now) {
      ApplicableApplies(s, planId, now);
      RetainedSets(s, event, s.plans[planId], key, ack);
    }
  }

  lemma RetainedSets(s: State, event: Event, plan: ReconstructionPlan, key: StepKey, ack: AckState)
    requires Steady(s) && !s.stopped && event.Called? && event.call.ApplyPlan? && s.topology.Some?
    requires event.call.planId in s.plans && plan == s.plans[event.call.planId] && Applicable(s, plan, event.c.now)
    ensures HasAck(ApplyEffect(s, plan, event.c.now).state.steps, key, ack) <==>
              ApplySets(s, event, key, ack) || (HasAck(s.steps, key, ack) && !Reapplies(s, event, key))
  {
    if plan.feasibility.NothingToRestore? || !Names(plan.restores, |plan.restores|, key) {
      PlanSpares(s, plan, event.c.now, key, ack);
    } else {
      var i := NamesLast(plan.restores, |plan.restores|, key);
      PlanSets(s, plan, event.c.now, key, i);
      OnlyOne(s, event, key, ack, plan.restores, i);
    }
  }

  lemma OnlyOne(s: State, event: Event, key: StepKey, ack: AckState, restores: seq<RestoreStep>, i: nat)
    requires Inputs(s) && Reapplies(s, event, key) && restores == s.plans[event.call.planId].restores
    requires LastFor(restores, |restores|, key, i)
    ensures ApplySets(s, event, key, ack) <==> ack == if i < Room(s) then AckApplied else AckFailed
  {
    forall j: nat | LastFor(restores, |restores|, key, j)
      ensures j == i
    {
      LastForUnique(restores, |restores|, key, i, j);
    }
  }

  lemma ReportSetsExactly(s: State, event: Event, key: StepKey, ack: AckState)
    requires !s.stopped && event.Called? && event.call.VerifyEffect?
    ensures HasAck(Verifying(s, event.call.verification, event.c.admitted).steps, key, ack) <==>
              ReportSets(s, event, key, ack) || (HasAck(s.steps, key, ack) && !Reports(s, event, key))
  {
    var r := event.call.verification;
    if r.effectPlan in s.plans {
      var restores := s.plans[r.effectPlan].restores;
      var mark := if r.kind.EffectVerification? then AckVerified else AckFailed;
      MarkedKeys(s.steps, restores, |restores|, r.effectDependent, mark);
      if key in s.steps {
        MarksEvery(s.steps, restores, |restores|, r.effectDependent, mark, key);
      }
    }
  }

  /** What a call does to the recorded steps, by the kind of call. */
  lemma ActingSteps(s: State, call: Call, c: Circumstance)
    requires Inputs(s)
    ensures Acting(s, call, c).state.steps
         == match call
            case ApplyPlan(planId) => ApplyingPlan(s, planId, c.now).state.steps
            case VerifyEffect(r) => Verifying(s, r, c.admitted).steps
            case _ => s.steps
  {
    match call
    case DeclareFailure(d, fencing) => DeclaringSteps(s, d, c.evidenceId, c.admitted, c.now, fencing);
    case ApplyPlan(_) =>
    case VerifyEffect(_) =>
    case _ => OtherCallsSteps(s, call, c);
  }

  lemma ActingSets(s: State, event: Event, key: StepKey, ack: AckState)
    requires Steady(s) && !s.stopped && event.Called?
    ensures HasAck(Acting(s, event.call, event.c).state.steps, key, ack) <==>
              || ReportSets(s, event, key, ack) || ApplySets(s, event, key, ack)
              || (HasAck(s.steps, key, ack) && !Reports(s, event, key) && !Reapplies(s, event, key))
  {
    ActingSteps(s, event.call, event.c);
    if event.call.ApplyPlan? {
      ApplySetsExactly(s, event, key, ack);
    } else if event.call.VerifyEffect? {
      ReportSetsExactly(s, event, key, ack);
    }
  }

  lemma CallSets(s: State, event: Event, key: StepKey, ack: AckState)
    requires Steady(s) && event.Called?
    ensures HasAck(Perform(s, event.call, event.c).state.steps, key, ack) <==>
              || ReportSets(s, event, key, ack) || ApplySets(s, event, key, ack)
              || (HasAck(s.steps, key, ack) && !Reports(s, event, key) && !Reapplies(s, event, key))
  {
    if !s.stopped {
      ActingSets(s, event, key, ack);
    }
  }

  lemma EventSets(sys: System, event: Event, key: StepKey, ack: AckState)
    requires Invariant(sys) && Next(sys, event).Up?
    ensures HasAck(Next(sys, event).state.steps, key, ack) <==>
              || Sets(sys, event, key, ack)
              || (sys.Up? && HasAck(sys.state.steps, key, ack) && !Touches(sys, event, key))
  {
    match (sys, event)
    case (Up(s, journal), Called(call, c)) => CallSets(s, event, key, ack);
    case (Down(journal), Opened(config, durable)) => ReplayedStep(journal, key, ack);
    case (_, _) =>
  }

  // ---- Over a run ----

  ghost predicate SetAt(events: seq<Event>, i: nat, key: StepKey, ack: AckState)
    requires i < |events|
  {
    Sets(Run(events[..i]), events[i], key, ack)
  }

  ghost predicate TouchedAt(events: seq<Event>, j: nat, key: StepKey)
    requires j < |events|
  {
    Touches(Run(events[..j]), events[j], key)
  }

  ghost predicate UntouchedFrom(events: seq<Event>, n: nat, key: StepKey) {
    forall j :: n <= j < |events| ==> !TouchedAt(events, j, key)
  }

  /** The last event of the run that reached the step left it in this state. */
  ghost predicate LastSet(events: seq<Event>, key: StepKey, ack: AckState) {
    exists i :: 0 <= i < |events| && SetAt(events, i, key, ack) && UntouchedFrom(events, i + 1, key)
  }

  lemma SameAt(events: seq<Event>, last: Event, j: nat, key: StepKey, ack: AckState)
    requires j < |events|
    ensures SetAt(events + [last], j, key, ack) == SetAt(events, j, key, ack)
    ensures TouchedAt(events + [last], j, key) == TouchedAt(events, j, key)
  {
    assert (events + [last])[..j] == events[..j];
  }

  lemma UntouchedNext(events: seq<Event>, last: Event, n: nat, key: StepKey, ack: AckState)
    requires n <= |events|
    ensures UntouchedFrom(events + [last], n, key) <==>
              UntouchedFrom(events, n, key) && !TouchedAt(events + [last], |events|, key)
  {
    forall j | n <= j < |events|
      ensures TouchedAt(events + [last], j, key) == TouchedAt(events, j, key)
    {
      SameAt(events, last, j, key, ack);
    }
  }

  lemma LastSetNext(events: seq<Event>, last: Event, key: StepKey, ack: AckState)
    ensures LastSet(events + [last], key, ack) <==>
              || SetAt(events + [last], |events|, key, ack)
              || (LastSet(events, key, ack) && !TouchedAt(events + [last], |events|, key))
  {
    var longer := events + [last];
    forall i | 0 <= i < |events|
      ensures SetAt(longer, i, key, ack) == SetAt(events, i, key, ack)
      ensures UntouchedFrom(longer, i + 1, key) <==>
                UntouchedFrom(events, i + 1, key) && !TouchedAt(longer, |events|, key)
    {
      SameAt(events, last, i, key, ack);
      UntouchedNext(events, last, i + 1, key, ack);
    }
    assert UntouchedFrom(longer, |events| + 1, key);
  }

  /**
   The state of a recorded step is exactly what the last event that reached it said: an accepted
   report, an application in effect, or the receipts that a restart replayed.
   */
  lemma {:induction false} StepExactly(events: seq<Event>, key: StepKey, ack: AckState)
    requires Run(events).Up?
    ensures HasAck(Run(events).state.steps, key, ack) <==> LastSet(events, key, ack)
  {
    var before, last := events[..|events| - 1], events[|events| - 1];
    assert events == before + [last];
    if Run(before).Up? {
      StepExactly(before, key, ack);
    }
    EventSets(Run(before), last, key, ack);
    LastSetNext(before, last, key, ack);
  }

  /**
   Service is restored exactly for a dependent that holds authority over generations none of which
   is fenced or must be, and whose last recorded step was last reported to have taken effect; or,
   where the policy lets acknowledgement suffice, was not last reported or found to have failed.
   */
  lemma RestoreGate(events: seq<Event>, dependent: DependentRef, now: U64)
    requires Run(events).Up?
    ensures var s := Run(events).state;
            Permits(s, dependent, now) <==>
              && !Blocked(s, dependent, now) && Authority.HasActive(s.registry, dependent, now)
              && exists key :: LastStep(s.steps, dependent, key)
                               && (LastSet(events, key, AckVerified) ||
                                   (s.policy.allowAcknowledgementRestore && !LastSet(events, key, AckFailed)))
  {
    var s := Run(events).state;
    forall key, ack
      ensures HasAck(s.steps, key, ack) <==> LastSet(events, key, ack)
    {
      StepExactly(events, key, ack);
    }
    GateMeans(s, dependent, now);
  }

  lemma GateMeans(s: State, dependent: DependentRef, now: U64)
    ensures Permits(s, dependent, now) <==>
              && !Blocked(s, dependent, now) && Authority.HasActive(s.registry, dependent, now)
              && exists key :: LastStep(s.steps, dependent, key)
                               && (HasAck(s.steps, key, AckVerified) ||
                                   (s.policy.allowAcknowledgementRestore && !HasAck(s.steps, key, AckFailed)))
  {
  }

  // ---- Verification ----

  lemma NoVerifiedReceipt(journal: seq<Entry>, key: StepKey)
    requires JournalSound(journal)
    ensures !LastReceipt(journal, key, AckVerified)
  {
    forall i | 0 <= i < |journal|
      ensures !Concludes(journal[i], key, AckVerified)
    {
      assert Written(journal[i]);
    }
  }

  ghost predicate VerifiedBy(sys: System, event: Event, key: StepKey) {
    sys.Up? && ReportSets(sys.state, event, key, AckVerified)
  }

  lemma VerifiedMeans(sys: System, event: Event, key: StepKey)
    requires Invariant(sys)
    ensures Sets(sys, event, key, AckVerified) <==> VerifiedBy(sys, event, key)
  {
    if sys.Down? {
      NoVerifiedReceipt(sys.journal, key);
    }
  }

  /**
   A recorded step counts as verified exactly when a report the runtime accepted said so in this
   incarnation and nothing has reached the step since: no restart, no application in effect, no
   accepted failure report. Nothing that a restart replays verifies a step.
   */
  lemma VerifiedExactly(events: seq<Event>, key: StepKey)
    requires Run(events).Up?
    ensures HasAck(Run(events).state.steps, key, AckVerified) <==>
              exists i :: 0 <= i < |events| && VerifiedBy(Run(events[..i]), events[i], key)
                          && UntouchedFrom(events, i + 1, key)
  {
    StepExactly(events, key, AckVerified);
    forall i | 0 <= i < |events|
      ensures SetAt(events, i, key, AckVerified) <==> VerifiedBy(Run(events[..i]), events[i], key)
    {
      VerifiedMeans(Run(events[..i]), events[i], key);
    }
  }
}
