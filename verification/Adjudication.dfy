/**
 The adjudication of a generation in terms of the records themselves (assess_switch,
 src/model/evidence.cpp:375-662): exactly when it is usable, exactly when it must be fenced, and
 exactly which outcome is reported.
 */
module Adjudication {
  import opened Identity
  import opened Outcome
  import opened Evidence

  // ---- What a record says ----

  predicate Authoritative(r: EvidenceRecord) {
    r.source in {SimulatedFixture, TopologyService, FabricManager, OperatorPolicy}
  }

  predicate Advisory(r: EvidenceRecord) {
    r.source in {TelemetryCollector, SwitchAgent}
  }

  /** Observed at some time, and within its window now. */
  predicate InForce(r: EvidenceRecord, now: U64) {
    0 < r.observedAt <= now <= r.observedAt + r.validFor <= U64_MAX
  }

  /** A declared failure, or a health state that is one. */
  predicate ReportsFailure(r: EvidenceRecord) {
    || r.kind.SwitchFailureDeclaration?
    || (r.kind.SwitchHealth? && r.health in {Failed, Unreachable, Suspect})
  }

  predicate ReportsHealth(r: EvidenceRecord) {
    r.kind.SwitchHealth? && r.health in {Healthy, Degraded}
  }

  predicate Says(r: EvidenceRecord, signal: Signal) {
    match signal
    case FailureAsserted => Authoritative(r) && ReportsFailure(r)
    case RecoveryDeclared => Authoritative(r) && r.kind.SwitchRecoveryDeclaration?
    case AdminUnavailable => Authoritative(r) && r.kind.AdminStateDeclaration? && r.admin in {Disabled, Maintenance}
    case AdminEnabled => Authoritative(r) && r.kind.AdminStateDeclaration? && r.admin == Enabled
    case AdvisoryBad => Advisory(r) && ReportsFailure(r)
    case AdvisoryGood => Advisory(r) && (ReportsHealth(r) || r.kind.SwitchRecoveryDeclaration?)
    case AuthoritativeGood => Authoritative(r) && ReportsHealth(r)
    case RecoveringSeen => (Authoritative(r) || Advisory(r)) && r.kind.SwitchHealth? && r.health == Recovering
    case OtherEvidence => false
  }

  /** One of the records, in force, that says so. */
  ghost predicate Held(r: EvidenceRecord, signal: Signal, records: seq<EvidenceRecord>, now: U64) {
    r in records && InForce(r, now) && Says(r, signal)
  }

  ghost predicate Any(signal: Signal, records: seq<EvidenceRecord>, now: U64) {
    exists r :: Held(r, signal, records, now)
  }

  // ---- What the records say together ----

  /** A recovery later than every failure. */
  ghost predicate Recovered(records: seq<EvidenceRecord>, now: U64) {
    exists r :: Held(r, RecoveryDeclared, records, now) &&
      forall f :: Held(f, FailureAsserted, records, now) ==> f.observedAt < r.observedAt
  }

  /** A failure that no recovery is later than, nor as late. */
  ghost predicate Failing(records: seq<EvidenceRecord>, now: U64) {
    exists f :: Held(f, FailureAsserted, records, now) &&
      forall r :: Held(r, RecoveryDeclared, records, now) ==> r.observedAt < f.observedAt
  }

  /** The last failure and the last recovery were observed at the same instant. */
  ghost predicate Contradicted(records: seq<EvidenceRecord>, now: U64) {
    Any(FailureAsserted, records, now) && !Recovered(records, now) && !Failing(records, now)
  }

  /** A declaration that takes the generation out of service, and no enabling after it. */
  ghost predicate Unavailable(records: seq<EvidenceRecord>, now: U64) {
    exists d :: Held(d, AdminUnavailable, records, now) &&
      forall e :: Held(e, AdminEnabled, records, now) ==> e.observedAt <= d.observedAt
  }

  /** The committed failure has not been lifted. */
  ghost predicate InEffect(records: seq<EvidenceRecord>, durable: Option<FailureRecord>, now: U64,
                           policy: AssessmentPolicy) {
    && durable.Some?
    && !(policy.allowSameGenerationRecovery &&
         exists r :: (Held(r, RecoveryDeclared, records, now) || Held(r, AdminEnabled, records, now))
                     && r.observedAt > durable.value.observedAt)
  }

  /** Neither a failure nor a recovery is on record. */
  ghost predicate Silent(records: seq<EvidenceRecord>, now: U64) {
    !Any(FailureAsserted, records, now) && !Any(RecoveryDeclared, records, now)
  }

  /** An advisory failure that the policy takes for a failure. */
  ghost predicate Distrusted(records: seq<EvidenceRecord>, now: U64, policy: AssessmentPolicy) {
    Any(AdvisoryBad, records, now) && !policy.requireAuthoritativeFailureEvidence
  }

  /** Known to be healthy: not distrusted, not taken out of service, and affirmed by an authority. */
  ghost predicate Affirmed(records: seq<EvidenceRecord>, now: U64, policy: AssessmentPolicy) {
    !Distrusted(records, now, policy) && !Unavailable(records, now) && Any(AuthoritativeGood, records, now)
  }

  /** Nothing is known on authority. */
  ghost predicate Unknown(records: seq<EvidenceRecord>, now: U64, policy: AssessmentPolicy) {
    && Silent(records, now) && !Distrusted(records, now, policy)
    && !Unavailable(records, now) && !Any(AuthoritativeGood, records, now)
  }

  // ---- From the records to the times ----

  lemma SaysMeans(r: EvidenceRecord, signal: Signal, now: U64, policy: AssessmentPolicy)
    requires signal != OtherEvidence
    ensures InForce(r, now) && Says(r, signal) <==>
              Considered(r, now, policy) && SignalOf(r) == signal && r.observedAt != 0
  {
    FreshMeans(r, now);
  }

  /** The time is that of some record that says so, and none is later; zero if there is none. */
  ghost predicate Dated(time: U64, signal: Signal, records: seq<EvidenceRecord>, now: U64) {
    && (time != 0 <==> Any(signal, records, now))
    && (time != 0 ==> exists r :: Held(r, signal, records, now) && r.observedAt == time)
    && (forall r :: Held(r, signal, records, now) ==> r.observedAt <= time)
  }

  lemma LatestDated(signal: Signal, records: seq<EvidenceRecord>, now: U64, policy: AssessmentPolicy)
    requires signal != OtherEvidence
    ensures Dated(Latest(records, signal, now, policy), signal, records, now)
  {
    LatestWitness(records, signal, now, policy);
    forall r
      ensures Held(r, signal, records, now) <==>
                r in records && Considered(r, now, policy) && SignalOf(r) == signal && r.observedAt != 0
    {
      SaysMeans(r, signal, now, policy);
    }
  }

  lemma RecoveredMeans(records: seq<EvidenceRecord>, now: U64, failure: U64, recovery: U64)
    requires Dated(failure, FailureAsserted, records, now) && Dated(recovery, RecoveryDeclared, records, now)
    ensures Recovered(records, now) <==> recovery > failure
    ensures Failing(records, now) <==> failure > recovery
    ensures Contradicted(records, now) <==> failure == recovery != 0
    ensures Silent(records, now) <==> failure == recovery == 0
  {
    if recovery > failure {
      var r :| Held(r, RecoveryDeclared, records, now) && r.observedAt == recovery;
      assert forall f :: Held(f, FailureAsserted, records, now) ==> f.observedAt < r.observedAt;
    }
    if failure > recovery {
      var f :| Held(f, FailureAsserted, records, now) && f.observedAt == failure;
      assert forall r :: Held(r, RecoveryDeclared, records, now) ==> r.observedAt < f.observedAt;
    }
  }

  lemma UnavailableMeans(records: seq<EvidenceRecord>, now: U64, unavailable: U64, enabled: U64)
    requires Dated(unavailable, AdminUnavailable, records, now) && Dated(enabled, AdminEnabled, records, now)
    ensures Unavailable(records, now) <==> unavailable >= enabled && unavailable != 0
  {
    if unavailable >= enabled && unavailable != 0 {
      var d :| Held(d, AdminUnavailable, records, now) && d.observedAt == unavailable;
      assert forall e :: Held(e, AdminEnabled, records, now) ==> e.observedAt <= d.observedAt;
    }
  }

  lemma InEffectMeans(records: seq<EvidenceRecord>, durable: Option<FailureRecord>, now: U64,
                      policy: AssessmentPolicy, recovery: U64, enabled: U64)
    requires Dated(recovery, RecoveryDeclared, records, now) && Dated(enabled, AdminEnabled, records, now)
    ensures InEffect(records, durable, now, policy) <==>
              durable.Some? &&
              !(policy.allowSameGenerationRecovery && Later(recovery, enabled) > durable.value.observedAt)
  {
    if durable.Some? && Later(recovery, enabled) > durable.value.observedAt {
      var signal := if recovery > durable.value.observedAt then RecoveryDeclared else AdminEnabled;
      var r :| Held(r, signal, records, now) && r.observedAt > durable.value.observedAt;
    }
  }

  /** What the summary of the records stands for. */
  ghost predicate Summarises(t: Times, records: seq<EvidenceRecord>, durable: Option<FailureRecord>, now: U64,
                             policy: AssessmentPolicy) {
    && (DurableActive(t, durable, policy) <==> InEffect(records, durable, now, policy))
    && (Recovered(records, now) <==> t.recovery > t.failure)
    && (Failing(records, now) <==> t.failure > t.recovery)
    && (Contradicted(records, now) <==> t.failure == t.recovery != 0)
    && (Silent(records, now) <==> t.failure == t.recovery == 0)
    && (Unavailable(records, now) <==> t.unavailable >= t.enabled && t.unavailable != 0)
    && (Any(AdvisoryBad, records, now) <==> t.advisoryBad != 0)
    && (Any(AdvisoryGood, records, now) <==> t.advisoryGood != 0)
    && (Any(AuthoritativeGood, records, now) <==> t.good != 0)
    && (Any(AdminEnabled, records, now) <==> t.enabled != 0)
    && (Any(RecoveringSeen, records, now) <==> t.recovering != 0)
  }

  lemma TimesSummarise(records: seq<EvidenceRecord>, durable: Option<FailureRecord>, now: U64,
                       policy: AssessmentPolicy)
    ensures Summarises(TimesOf(records, now, policy), records, durable, now, policy)
  {
    var t := TimesOf(records, now, policy);
    LatestDated(FailureAsserted, records, now, policy);
    LatestDated(RecoveryDeclared, records, now, policy);
    LatestDated(AdminUnavailable, records, now, policy);
    LatestDated(AdminEnabled, records, now, policy);
    LatestDated(AdvisoryBad, records, now, policy);
    LatestDated(AdvisoryGood, records, now, policy);
    LatestDated(AuthoritativeGood, records, now, policy);
    LatestDated(RecoveringSeen, records, now, policy);
    RecoveredMeans(records, now, t.failure, t.recovery);
    UnavailableMeans(records, now, t.unavailable, t.enabled);
    InEffectMeans(records, durable, now, policy, t.recovery, t.enabled);
  }

  // ---- The verdict ----

  /**
   A generation is usable exactly when no committed failure is in effect, and it recovered after
   every failure, or nothing speaks against it and an authority affirms its health.
   */
  lemma UsableExactly(subject: SwitchKey, records: seq<EvidenceRecord>, durable: Option<FailureRecord>, now: U64,
                      policy: AssessmentPolicy)
    ensures Assess(subject, records, durable, now, policy).usable <==>
              && subject.Valid() && !InEffect(records, durable, now, policy)
              && (Recovered(records, now) || (Silent(records, now) && Affirmed(records, now, policy)))
  {
    TimesSummarise(records, durable, now, policy);
  }

  /**
   A generation must be fenced exactly when a failure is committed and in effect, or an authority
   reports one that it did not recover from, or the policy says so for contradicting reports, for
   advisory failures, or where nothing is known.
   */
  lemma FencedExactly(subject: SwitchKey, records: seq<EvidenceRecord>, durable: Option<FailureRecord>, now: U64,
                      policy: AssessmentPolicy)
    ensures Assess(subject, records, durable, now, policy).fenceRequired <==>
              || !subject.Valid()
              || InEffect(records, durable, now, policy)
              || Failing(records, now)
              || (Contradicted(records, now) && policy.fenceOnAuthoritativeConflict)
              || (Silent(records, now) && Distrusted(records, now, policy))
              || (Unknown(records, now, policy) && policy.fenceOnMissingHealth)
  {
    TimesSummarise(records, durable, now, policy);
  }

  /** A record of a known source that is neither too far ahead nor in force. */
  predicate Expired(r: EvidenceRecord, now: U64, policy: AssessmentPolicy) {
    && (Authoritative(r) || Advisory(r))
    && r.observedAt <= now + policy.futureSkewTolerance
    && !(r.observedAt <= now <= r.observedAt + r.validFor <= U64_MAX)
  }

  lemma OutdatedMeans(records: seq<EvidenceRecord>, now: U64, policy: AssessmentPolicy)
    ensures AnyOutdated(records, now, policy) <==> exists r :: r in records && Expired(r, now, policy)
  {
    forall r: EvidenceRecord
      ensures Outdated(r, now, policy) <==> Expired(r, now, policy)
    {
      FreshMeans(r, now);
    }
    if AnyOutdated(records, now, policy) {
      var i :| 0 <= i < |records| && Outdated(records[i], now, policy);
      assert records[i] in records && Expired(records[i], now, policy);
    }
  }

  /** The outcome code: which of these situations the records are in. */
  lemma OutcomeExactly(subject: SwitchKey, records: seq<EvidenceRecord>, durable: Option<FailureRecord>, now: U64,
                       policy: AssessmentPolicy)
    ensures Assess(subject, records, durable, now, policy).outcome
         == if !subject.Valid() then Code.Invalid
            else if InEffect(records, durable, now, policy) then Code.Ok
            else if Contradicted(records, now) then Code.Conflict
            else if !Unknown(records, now, policy) then Code.Ok
            else if Any(AdvisoryBad, records, now) || Any(AdvisoryGood, records, now) then Code.Unknown
            else if exists r :: r in records && Expired(r, now, policy) then Code.Stale
            else Code.Unknown
  {
    TimesSummarise(records, durable, now, policy);
    OutdatedMeans(records, now, policy);
  }

  /** The health that is reported beside it. */
  lemma HealthExactly(subject: SwitchKey, records: seq<EvidenceRecord>, durable: Option<FailureRecord>, now: U64,
                      policy: AssessmentPolicy)
    requires subject.Valid()
    ensures var health := Assess(subject, records, durable, now, policy).health;
            var open := !InEffect(records, durable, now, policy) && Silent(records, now);
            && (health == Failed <==> InEffect(records, durable, now, policy) || Failing(records, now))
            && (health == Unreachable <==>
                  open && Any(AdvisoryBad, records, now) &&
                  (Distrusted(records, now, policy) || Unknown(records, now, policy)))
            && (health == Healthy <==>
                  || (!InEffect(records, durable, now, policy) && Recovered(records, now))
                  || (open && Affirmed(records, now, policy))
                  || (open && Unknown(records, now, policy) && !Any(AdvisoryBad, records, now)
                      && Any(AdvisoryGood, records, now)))
  {
    TimesSummarise(records, durable, now, policy);
  }
}
