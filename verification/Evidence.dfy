/**
 Evidence about switch generations and its fail-closed adjudication (assess_switch,
 src/model/evidence.cpp). Identifier lists and rationale strings are left out.
 */
module Evidence {
  import opened Identity
  import opened Outcome

  datatype EvidenceSource =
    | UnknownSource
    | SimulatedFixture
    | TelemetryCollector
    | SwitchAgent
    | TopologyService
    | FabricManager
    | OperatorPolicy

  datatype TrustLevel = Untrusted | Advisory | Authoritative

  datatype EvidenceKind =
    | UnknownKind
    | SwitchHealth
    | SwitchFailureDeclaration
    | SwitchRecoveryDeclaration
    | CapabilityDeclaration
    | AdminStateDeclaration
    | EffectVerification
    | EffectFailure

  datatype Health = UnknownHealth | Healthy | Degraded | Unreachable | Suspect | Failed | Recovering

  datatype Admin = UnknownAdmin | Enabled | Disabled | Maintenance

  datatype EvidenceRecord = EvidenceRecord(
    id: U64,
    kind: EvidenceKind,
    source: EvidenceSource,
    subject: SwitchKey,
    observedAt: U64,
    validFor: U64,
    health: Health,
    admin: Admin,
    capabilities: U32,
    effectDependent: DependentRef,
    effectPlan: U64,
    detail: string)

  /** A committed failure of one generation. */
  datatype FailureRecord = FailureRecord(subject: SwitchKey, evidence: U64, epoch: nat, boot: nat, observedAt: U64,
                                         recordedAt: U64, reason: string)

  datatype Option<T> = None | Some(value: T)

  datatype AssessmentPolicy = AssessmentPolicy(
    fenceOnAuthoritativeConflict: bool,
    fenceOnMissingHealth: bool,
    allowSameGenerationRecovery: bool,
    requireAuthoritativeFailureEvidence: bool,
    futureSkewTolerance: U64)

  datatype SwitchAssessment = SwitchAssessment(outcome: Code, health: Health, usable: bool, fenceRequired: bool)

  function TrustOf(source: EvidenceSource): (trust: TrustLevel) {
    match source
    case UnknownSource => Untrusted
    case SimulatedFixture => Authoritative
    case TelemetryCollector => Advisory
    case SwitchAgent => Advisory
    case TopologyService => Authoritative
    case FabricManager => Authoritative
    case OperatorPolicy => Authoritative
  }

  // ---- Freshness ----

  /** The expiry time is a wrapping 64-bit sum. */
  function ExpiresAt(r: EvidenceRecord): (time: U64) {
    (r.observedAt + r.validFor) % 0x1_0000_0000_0000_0000
  }

  predicate FreshAt(r: EvidenceRecord, now: U64) {
    r.observedAt <= now && ExpiresAt(r) >= r.observedAt && now <= ExpiresAt(r)
  }

  /** A record counts only within its validity window, and never when that window overflows. */
  lemma FreshMeans(r: EvidenceRecord, now: U64)
    ensures FreshAt(r, now) <==> r.observedAt <= now <= r.observedAt + r.validFor <= U64_MAX
  {
    var sum := r.observedAt + r.validFor;
    if sum <= U64_MAX {
      assert sum % 0x1_0000_0000_0000_0000 == sum;
    } else {
      assert sum % 0x1_0000_0000_0000_0000 == sum - 0x1_0000_0000_0000_0000;
    }
  }

  // ---- What one record says ----

  datatype Signal =
    | FailureAsserted
    | RecoveryDeclared
    | AdminUnavailable
    | AdminEnabled
    | AdvisoryBad
    | AdvisoryGood
    | AuthoritativeGood
    | RecoveringSeen
    | OtherEvidence

  predicate FailureHealth(health: Health) {
    health.Failed? || health.Unreachable? || health.Suspect?
  }

  predicate PositiveHealth(health: Health) {
    health.Healthy? || health.Degraded?
  }

  function SignalOf(r: EvidenceRecord): (signal: Signal) {
    var authoritative := TrustOf(r.source).Authoritative?;
    match r.kind
    case SwitchFailureDeclaration => if authoritative then FailureAsserted else AdvisoryBad
    case SwitchHealth =>
      if r.health.Recovering? then RecoveringSeen
      else if PositiveHealth(r.health) then if authoritative then AuthoritativeGood else AdvisoryGood
      else if FailureHealth(r.health) then if authoritative then FailureAsserted else AdvisoryBad
      else OtherEvidence
    case SwitchRecoveryDeclaration => if authoritative then RecoveryDeclared else AdvisoryGood
    case AdminStateDeclaration =>
      if !authoritative then OtherEvidence
      else if r.admin.Disabled? || r.admin.Maintenance? then AdminUnavailable
      else if r.admin.Enabled? then AdminEnabled
      else OtherEvidence
    case _ => OtherEvidence
  }

  predicate TooFarAhead(r: EvidenceRecord, now: U64, policy: AssessmentPolicy) {
    r.observedAt > now && r.observedAt - now > policy.futureSkewTolerance
  }

  predicate Considered(r: EvidenceRecord, now: U64, policy: AssessmentPolicy) {
    !TrustOf(r.source).Untrusted? && !TooFarAhead(r, now, policy) && FreshAt(r, now)
  }

  predicate Outdated(r: EvidenceRecord, now: U64, policy: AssessmentPolicy) {
    !TrustOf(r.source).Untrusted? && !TooFarAhead(r, now, policy) && !FreshAt(r, now)
  }

  // ---- The latest record of each kind ----

  function Later(a: U64, b: U64): (time: U64) {
    if a < b then b else a
  }

  function Latest(records: seq<EvidenceRecord>, signal: Signal, now: U64, policy: AssessmentPolicy): (time: U64) {
    if records == [] then 0
    else
      var last := records[|records| - 1];
      var before := Latest(records[..|records| - 1], signal, now, policy);
      if Considered(last, now, policy) && SignalOf(last) == signal then Later(before, last.observedAt) else before
  }

  predicate AnyOutdated(records: seq<EvidenceRecord>, now: U64, policy: AssessmentPolicy) {
    exists i :: 0 <= i < |records| && Outdated(records[i], now, policy)
  }

  datatype Times = Times(
    failure: U64, recovery: U64, unavailable: U64, enabled: U64,
    advisoryBad: U64, advisoryGood: U64, good: U64, recovering: U64, stale: bool)

  function TimesOf(records: seq<EvidenceRecord>, now: U64, policy: AssessmentPolicy): (times: Times) {
    Times(
      Latest(records, FailureAsserted, now, policy),
      Latest(records, RecoveryDeclared, now, policy),
      Latest(records, AdminUnavailable, now, policy),
      Latest(records, AdminEnabled, now, policy),
      Latest(records, AdvisoryBad, now, policy),
      Latest(records, AdvisoryGood, now, policy),
      Latest(records, AuthoritativeGood, now, policy),
      Latest(records, RecoveringSeen, now, policy),
      AnyOutdated(records, now, policy))
  }

  function Note(t: Times, signal: Signal, at: U64): (next: Times) {
    match signal
    case FailureAsserted => t.(failure := Later(t.failure, at))
    case RecoveryDeclared => t.(recovery := Later(t.recovery, at))
    case AdminUnavailable => t.(unavailable := Later(t.unavailable, at))
    case AdminEnabled => t.(enabled := Later(t.enabled, at))
    case AdvisoryBad => t.(advisoryBad := Later(t.advisoryBad, at))
    case AdvisoryGood => t.(advisoryGood := Later(t.advisoryGood, at))
    case AuthoritativeGood => t.(good := Later(t.good, at))
    case RecoveringSeen => t.(recovering := Later(t.recovering, at))
    case OtherEvidence => t
  }

  /** What one more record adds. */
  function Observe(t: Times, r: EvidenceRecord, now: U64, policy: AssessmentPolicy): (next: Times) {
    if Considered(r, now, policy) then Note(t, SignalOf(r), r.observedAt)
    else if Outdated(r, now, policy) then t.(stale := true)
    else t
  }

  lemma LatestNext(records: seq<EvidenceRecord>, n: nat, signal: Signal, now: U64, policy: AssessmentPolicy)
    requires n < |records|
    ensures Latest(records[..n + 1], signal, now, policy)
         == if Considered(records[n], now, policy) && SignalOf(records[n]) == signal
            then Later(Latest(records[..n], signal, now, policy), records[n].observedAt)
            else Latest(records[..n], signal, now, policy)
  {
    assert records[..n + 1][..n] == records[..n];
  }

  lemma TimesNext(records: seq<EvidenceRecord>, n: nat, now: U64, policy: AssessmentPolicy)
    requires n < |records|
    ensures TimesOf(records[..n + 1], now, policy) ==
            Observe(TimesOf(records[..n], now, policy), records[n], now, policy)
  {
    LatestNext(records, n, FailureAsserted, now, policy);
    LatestNext(records, n, RecoveryDeclared, now, policy);
    LatestNext(records, n, AdminUnavailable, now, policy);
    LatestNext(records, n, AdminEnabled, now, policy);
    LatestNext(records, n, AdvisoryBad, now, policy);
    LatestNext(records, n, AdvisoryGood, now, policy);
    LatestNext(records, n, AuthoritativeGood, now, policy);
    LatestNext(records, n, RecoveringSeen, now, policy);
    assert AnyOutdated(records[..n + 1], now, policy) <==>
             AnyOutdated(records[..n], now, policy) || Outdated(records[n], now, policy) by {
      assert forall i :: 0 <= i < n ==> records[..n + 1][i] == records[..n][i];
      assert records[..n + 1][n] == records[n];
      if AnyOutdated(records[..n], now, policy) {
        var i :| 0 <= i < n && Outdated(records[..n][i], now, policy);
        assert Outdated(records[..n + 1][i], now, policy);
      }
    }
  }

  /** The loop over a subject's records, keeping one running maximum per kind of signal. */
  method Gather(records: seq<EvidenceRecord>, now: U64, policy: AssessmentPolicy) returns (times: Times)
    ensures times == TimesOf(records, now, policy)
  {
    times := Times(0, 0, 0, 0, 0, 0, 0, 0, false);
    for index := 0 to |records|
      invariant times == TimesOf(records[..index], now, policy)
    {
      var r := records[index];
      TimesNext(records, index, now, policy);
      if TrustOf(r.source).Untrusted? {
        continue;
      }
      if TooFarAhead(r, now, policy) {
        continue;
      }
      if !FreshAt(r, now) {
        times := times.(stale := true);
        continue;
      }
      times := Note(times, SignalOf(r), r.observedAt);
    }
    assert records[..|records|] == records;
  }

  // ---- Adjudication ----

  /** A durable failure stays active until a strictly later authoritative recovery or enabling. */
  predicate DurableActive(t: Times, durable: Option<FailureRecord>, policy: AssessmentPolicy) {
    && durable.Some?
    && !(policy.allowSameGenerationRecovery && Later(t.recovery, t.enabled) > durable.value.observedAt)
  }

  function Conclude(t: Times, durable: Option<FailureRecord>, policy: AssessmentPolicy): (a: SwitchAssessment) {
    if DurableActive(t, durable, policy) then
      SwitchAssessment(Code.Ok, Failed, false, true)
    else if t.failure != 0 && t.recovery != 0 && t.failure == t.recovery then
      SwitchAssessment(Code.Conflict, UnknownHealth, false, policy.fenceOnAuthoritativeConflict)
    else if t.recovery != 0 && t.recovery > t.failure then
      SwitchAssessment(Code.Ok, Healthy, true, false)
    else if t.failure != 0 then
      SwitchAssessment(Code.Ok, Failed, false, true)
    else if t.advisoryBad != 0 && !policy.requireAuthoritativeFailureEvidence then
      SwitchAssessment(Code.Ok, Unreachable, false, true)
    else if t.unavailable >= t.enabled && t.unavailable != 0 then
      SwitchAssessment(Code.Ok, UnknownHealth, false, false)
    else if t.good != 0 then
      SwitchAssessment(Code.Ok, Healthy, true, false)
    else if t.advisoryBad != 0 then
      SwitchAssessment(Code.Unknown, Unreachable, false, policy.fenceOnMissingHealth)
    else if t.advisoryGood != 0 then
      SwitchAssessment(Code.Unknown, Healthy, false, policy.fenceOnMissingHealth)
    else if t.stale then
      SwitchAssessment(Code.Stale, UnknownHealth, false, policy.fenceOnMissingHealth)
    else
      SwitchAssessment(Code.Unknown, if t.enabled == 0 && t.recovering != 0 then Recovering else UnknownHealth,
                       false, policy.fenceOnMissingHealth)
  }

  function Assess(subject: SwitchKey, records: seq<EvidenceRecord>, durable: Option<FailureRecord>, now: U64,
                  policy: AssessmentPolicy)
    : (a: SwitchAssessment)
  {
    if !subject.Valid() then SwitchAssessment(Code.Invalid, UnknownHealth, false, true)
    else Conclude(TimesOf(records, now, policy), durable, policy)
  }

  method AssessSwitch(subject: SwitchKey, records: seq<EvidenceRecord>, durable: Option<FailureRecord>, now: U64,
                      policy: AssessmentPolicy)
    returns (a: SwitchAssessment)
    ensures a == Assess(subject, records, durable, now, policy)
  {
    if !subject.Valid() {
      return SwitchAssessment(Code.Invalid, UnknownHealth, false, true);
    }
    var times := Gather(records, now, policy);
    a := Conclude(times, durable, policy);
  }

  // ---- Fail-closed ----

  lemma {:induction false} LatestWitness(records: seq<EvidenceRecord>, signal: Signal, now: U64,
                                         policy: AssessmentPolicy)
    ensures Latest(records, signal, now, policy) != 0 ==>
              exists r :: r in records && Considered(r, now, policy) && SignalOf(r) == signal
                          && r.observedAt == Latest(records, signal, now, policy)
    ensures forall r :: r in records && Considered(r, now, policy) && SignalOf(r) == signal
                        ==> r.observedAt <= Latest(records, signal, now, policy)
  {
    if records != [] {
      var n := |records| - 1;
      LatestWitness(records[..n], signal, now, policy);
      assert records == records[..n] + [records[n]];
      var before := Latest(records[..n], signal, now, policy);
      var time := Latest(records, signal, now, policy);
      if time != 0 {
        if time == before {
          var r :| r in records[..n] && Considered(r, now, policy) && SignalOf(r) == signal && r.observedAt == before;
          assert r in records;
        } else {
          assert records[n] in records;
        }
      }
    }
  }

  /** The records that can make a generation usable. */
  predicate Affirms(r: EvidenceRecord) {
    && TrustOf(r.source).Authoritative?
    && (r.kind.SwitchRecoveryDeclaration? || (r.kind.SwitchHealth? && PositiveHealth(r.health)))
  }

  /**
   Silence is never health: a generation is usable only on a fresh authoritative recovery or
   positive health record, and never together with an obligation to fence it.
   */
  lemma UsableIsAffirmed(subject: SwitchKey, records: seq<EvidenceRecord>, durable: Option<FailureRecord>, now: U64,
                         policy: AssessmentPolicy)
    requires Assess(subject, records, durable, now, policy).usable
    ensures !Assess(subject, records, durable, now, policy).fenceRequired
    ensures exists r :: r in records && Affirms(r) && r.observedAt <= now <= r.observedAt + r.validFor
  {
    LatestWitness(records, RecoveryDeclared, now, policy);
    LatestWitness(records, AuthoritativeGood, now, policy);
    var t := TimesOf(records, now, policy);
    if t.recovery != 0 {
      var r :| r in records && Considered(r, now, policy) && SignalOf(r) == RecoveryDeclared;
      FreshMeans(r, now);
      assert Affirms(r);
    } else {
      var r :| r in records && Considered(r, now, policy) && SignalOf(r) == AuthoritativeGood;
      FreshMeans(r, now);
      assert Affirms(r);
    }
  }

  /** An authoritative, in-window lifecycle record that lifts a failure observed at the given time. */
  predicate Lifts(r: EvidenceRecord, failedAt: U64, now: U64, policy: AssessmentPolicy) {
    && policy.allowSameGenerationRecovery
    && TrustOf(r.source).Authoritative? && FreshAt(r, now) && r.observedAt > failedAt
    && (r.kind.SwitchRecoveryDeclaration? || (r.kind.AdminStateDeclaration? && r.admin.Enabled?))
  }

  /**
   A durable failure is in force exactly until something lifts it: while nothing does, the
   generation is unusable and must be fenced, whatever else the evidence says.
   */
  lemma DurableFailureFences(subject: SwitchKey, records: seq<EvidenceRecord>, failure: FailureRecord, now: U64,
                             policy: AssessmentPolicy)
    requires subject.Valid()
    ensures var a := Assess(subject, records, Some(failure), now, policy);
            var lifted := exists r :: r in records && Lifts(r, failure.observedAt, now, policy);
            && (!lifted ==> a.fenceRequired && !a.usable)
            && (lifted ==> a == Assess(subject, records, None, now, policy))
  {
    LatestWitness(records, RecoveryDeclared, now, policy);
    LatestWitness(records, AdminEnabled, now, policy);
    var t := TimesOf(records, now, policy);
    if Later(t.recovery, t.enabled) > failure.observedAt && policy.allowSameGenerationRecovery {
      var signal := if t.recovery > failure.observedAt then RecoveryDeclared else AdminEnabled;
      var r :| r in records && Considered(r, now, policy) && SignalOf(r) == signal
               && r.observedAt == Latest(records, signal, now, policy);
      assert Lifts(r, failure.observedAt, now, policy);
    }
    forall r | r in records && Lifts(r, failure.observedAt, now, policy)
      ensures Later(t.recovery, t.enabled) > failure.observedAt
    {
      assert Considered(r, now, policy);
      assert SignalOf(r) == RecoveryDeclared || SignalOf(r) == AdminEnabled;
    }
  }

  /** The records that can oblige a fence on their own authority. */
  predicate Condemns(r: EvidenceRecord) {
    && TrustOf(r.source).Authoritative?
    && (r.kind.SwitchFailureDeclaration? || (r.kind.SwitchHealth? && FailureHealth(r.health)))
  }

  /**
   Advisory observation never fences by itself: unless the policy accepts it, or fences on missing
   health, a fence obligation rests on a durable failure or an authoritative failure record.
   */
  lemma FencingIsGrounded(subject: SwitchKey, records: seq<EvidenceRecord>, durable: Option<FailureRecord>, now: U64,
                          policy: AssessmentPolicy)
    requires subject.Valid() && policy.requireAuthoritativeFailureEvidence && !policy.fenceOnMissingHealth
    requires Assess(subject, records, durable, now, policy).fenceRequired
    ensures durable.Some? || exists r :: r in records && Condemns(r) && r.observedAt <= now <= r.observedAt + r.validFor
  {
    LatestWitness(records, FailureAsserted, now, policy);
    var t := TimesOf(records, now, policy);
    if durable.None? {
      var r :| r in records && Considered(r, now, policy) && SignalOf(r) == FailureAsserted;
      FreshMeans(r, now);
      assert Condemns(r);
    }
  }

  /** An authoritative failure that no recovery postdates makes the generation unusable. */
  lemma FailurePrevails(subject: SwitchKey, records: seq<EvidenceRecord>, durable: Option<FailureRecord>, now: U64,
                        policy: AssessmentPolicy,
                        r: EvidenceRecord)
    requires subject.Valid() && r in records && Condemns(r) && Considered(r, now, policy) && r.observedAt != 0
    requires forall other :: other in records && Considered(other, now, policy) ==>
               SignalOf(other) == RecoveryDeclared ==> other.observedAt <= r.observedAt
    ensures !Assess(subject, records, durable, now, policy).usable
    ensures policy.fenceOnAuthoritativeConflict ==> Assess(subject, records, durable, now, policy).fenceRequired
  {
    LatestWitness(records, FailureAsserted, now, policy);
    LatestWitness(records, RecoveryDeclared, now, policy);
    assert SignalOf(r) == FailureAsserted;
  }
}
