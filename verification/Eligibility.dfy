/**
 Eligibility of the supplied alternatives for one demand (evaluate_demand,
 src/plan/planning_core.cpp:89-270).
 */
module Eligibility {
  import opened Identity
  import opened Outcome
  import opened Canonical
  import opened Evidence
  import opened Candidates
  import opened Plan

  // ---- Admissibility ----

  predicate HasAll(have: nat, need: nat)
    decreases need
  {
    need == 0 || ((need % 2 == 1 ==> have % 2 == 1) && HasAll(have / 2, need / 2))
  }

  /** Bit k of a mask. */
  predicate BitSet(mask: nat, k: nat)
    decreases k
  {
    if k == 0 then mask % 2 == 1 else BitSet(mask / 2, k - 1)
  }

  lemma {:induction false} NoBits(k: nat)
    ensures !BitSet(0, k)
    decreases k
  {
    if k > 0 {
      NoBits(k - 1);
    }
  }

  ghost predicate BitsWithin(have: nat, need: nat) {
    forall k: nat :: BitSet(need, k) ==> BitSet(have, k)
  }

  /** Bits above the lowest are those of the half. */
  lemma BitsHalf(have: nat, need: nat)
    ensures BitsWithin(have, need) <==> (need % 2 == 1 ==> have % 2 == 1) && BitsWithin(have / 2, need / 2)
  {
    if BitsWithin(have, need) {
      forall k: nat | BitSet(need / 2, k)
        ensures BitSet(have / 2, k)
      {
        var next := k + 1;
        assert BitSet(need, next);
      }
      var low: nat :| low == 0;
      assert BitSet(need, low) ==> BitSet(have, low);
    }
    if (need % 2 == 1 ==> have % 2 == 1) && BitsWithin(have / 2, need / 2) {
      forall k: nat | BitSet(need, k)
        ensures BitSet(have, k)
      {
        assert k > 0 ==> BitSet(need / 2, k - 1);
      }
    }
  }

  /** A mask covers another exactly when it has every bit of it. */
  lemma {:induction false} HasAllMeans(have: nat, need: nat)
    ensures HasAll(have, need) <==> BitsWithin(have, need)
    decreases need
  {
    if need == 0 {
      forall k: nat
        ensures !BitSet(need, k)
      {
        NoBits(k);
      }
    } else {
      HasAllMeans(have / 2, need / 2);
      BitsHalf(have, need);
    }
  }

  /** The capabilities a dependent needs: those of its path descriptor. */
  function Required(inputs: PlanInputs, dependent: DependentRef): (mask: U64) {
    if dependent.kind.Path? && dependent.id in inputs.topology.paths
    then inputs.topology.paths[dependent.id].requiredCapabilities
    else 0
  }

  predicate Separated(inputs: PlanInputs, failed: SwitchKey, hop: SwitchKey) {
    && failed in inputs.topology.switches && hop in inputs.topology.switches
    && inputs.topology.switches[failed].failureDomain != 0
    && inputs.topology.switches[hop].failureDomain != 0
    && inputs.topology.switches[failed].failureDomain != inputs.topology.switches[hop].failureDomain
  }

  /** A generation that may carry the dependent. */
  predicate HopAdmissible(inputs: PlanInputs, demand: Demand, c: ReconstructionCandidate, hop: SwitchKey) {
    && hop != demand.failed
    && hop in inputs.topology.switches
    && hop !in inputs.fenced
    && inputs.assess(hop).outcome != Code.Conflict
    && !inputs.assess(hop).fenceRequired
    && (inputs.planning.requireCapabilitySuperset ==>
          && HasAll(inputs.topology.switches[hop].capabilities, Required(inputs, demand.dependent))
          && HasAll(c.capabilities, Required(inputs, demand.dependent)))
    && (!inputs.planning.allowReplacementInSameFailureDomain ==> Separated(inputs, demand.failed, hop))
    && inputs.topology.switches[hop].capacityScore > 0
  }

  predicate OriginAccepted(inputs: PlanInputs, c: ReconstructionCandidate) {
    inputs.planning.requireAuthoritativeCandidateEvidence ==> TrustOf(c.source).Authoritative?
  }

  /** What makes an alternative usable for a demand, independently of the order of the checks. */
  ghost predicate Admissible(inputs: PlanInputs, demand: Demand, c: ReconstructionCandidate) {
    && c.coversFailed == demand.failed
    && OriginAccepted(inputs, c)
    && forall hop :: hop in c.hops ==> HopAdmissible(inputs, demand, c, hop)
  }

  // ---- The checks, in the order they are made ----

  datatype Rejection = Rejection(outcome: Code, reason: UnresolvedReason)

  predicate KnownIdentity(inputs: PlanInputs, id: U64) {
    id != 0 && exists k :: k in inputs.topology.switches.Keys && k.id == id && k.generation >= 1
  }

  function HopProblem(inputs: PlanInputs, demand: Demand, c: ReconstructionCandidate,
                      hop: SwitchKey): (problem: Option<Rejection>) {
    var required := Required(inputs, demand.dependent);
    if hop == demand.failed then Some(Rejection(Code.Fenced, BehindFence))
    else if hop !in inputs.topology.switches then
      if KnownIdentity(inputs, hop.id) then Some(Rejection(Code.Stale, CandidateGenerationStale))
      else Some(Rejection(Code.NotFound, HopNotInTopology))
    else
      var descriptor := inputs.topology.switches[hop];
      if hop in inputs.fenced then Some(Rejection(Code.Fenced, BehindFence))
      else if inputs.assess(hop).outcome == Code.Conflict then Some(Rejection(Code.Conflict, ContradictoryEvidence))
      else if inputs.assess(hop).fenceRequired then Some(Rejection(Code.Fenced, BehindFence))
      else if inputs.planning.requireCapabilitySuperset && !HasAll(descriptor.capabilities, required) then
        Some(Rejection(Code.Unsupported, CapabilityInsufficient))
      else if inputs.planning.requireCapabilitySuperset && !HasAll(c.capabilities, required) then
        Some(Rejection(Code.Unsupported, CapabilityInsufficient))
      else if !inputs.planning.allowReplacementInSameFailureDomain && !Separated(inputs, demand.failed, hop) then
        Some(Rejection(Code.Denied, FailureDomainConflict))
      else if descriptor.capacityScore == 0 then Some(Rejection(Code.Exhausted, CapacityExhausted))
      else None
  }

  function FirstProblem(inputs: PlanInputs, demand: Demand, c: ReconstructionCandidate,
                        k: nat): (problem: Option<Rejection>)
    requires k <= |c.hops|
    decreases |c.hops| - k
  {
    if k == |c.hops| then None
    else if HopProblem(inputs, demand, c, c.hops[k]).Some? then HopProblem(inputs, demand, c, c.hops[k])
    else FirstProblem(inputs, demand, c, k + 1)
  }

  /** Why an alternative is refused, or None. */
  function Problem(inputs: PlanInputs, demand: Demand, c: ReconstructionCandidate): (problem: Option<Rejection>) {
    if c.coversFailed != demand.failed then
      if c.coversFailed.id == demand.failed.id then Some(Rejection(Code.Stale, CandidateGenerationStale))
      else Some(Rejection(Code.NotFound, NoCandidateSupplied))
    else if !OriginAccepted(inputs, c) then Some(Rejection(Code.Unauthorized, NonAuthoritativeOrigin))
    else FirstProblem(inputs, demand, c, 0)
  }

  lemma {:induction false} FirstProblemMeans(inputs: PlanInputs, demand: Demand, c: ReconstructionCandidate, k: nat)
    requires k <= |c.hops|
    ensures FirstProblem(inputs, demand, c, k).None? <==>
              forall j :: k <= j < |c.hops| ==> HopAdmissible(inputs, demand, c, c.hops[j])
    ensures FirstProblem(inputs, demand, c, k).Some? ==> ProvenNegative(FirstProblem(inputs, demand, c, k).value.reason)
    decreases |c.hops| - k
  {
    if k < |c.hops| {
      FirstProblemMeans(inputs, demand, c, k + 1);
    }
  }

  /** The checks refuse exactly the inadmissible alternatives, each with a proven reason. */
  lemma ProblemMeans(inputs: PlanInputs, demand: Demand, c: ReconstructionCandidate)
    ensures Problem(inputs, demand, c).None? <==> Admissible(inputs, demand, c)
    ensures Problem(inputs, demand, c).Some? ==> ProvenNegative(Problem(inputs, demand, c).value.reason)
  {
    FirstProblemMeans(inputs, demand, c, 0);
    if FirstProblem(inputs, demand, c, 0).Some? {
      var j :| 0 <= j < |c.hops| && !HopAdmissible(inputs, demand, c, c.hops[j]);
      assert c.hops[j] in c.hops;
    }
  }

  // ---- Capacity keys ----

  /** The distinct generations of a hop list, in order of first occurrence. */
  function DistinctHops(hops: seq<SwitchKey>): (keys: seq<SwitchKey>)
    ensures forall k :: k in keys <==> k in hops
  {
    if hops == [] then []
    else
      var n := |hops| - 1;
      assert hops == hops[..n] + [hops[n]];
      var before := DistinctHops(hops[..n]);
      if hops[n] in before then before else before + [hops[n]]
  }

  lemma {:induction false} DistinctHopsUnique(hops: seq<SwitchKey>)
    ensures forall i, j :: 0 <= i < j < |DistinctHops(hops)| ==> DistinctHops(hops)[i] != DistinctHops(hops)[j]
    ensures |DistinctHops(hops)| <= |hops|
  {
    if hops != [] {
      DistinctHopsUnique(hops[..|hops| - 1]);
    }
  }

  /** The loop over the hops of one alternative. */
  method CheckHops(inputs: PlanInputs, demand: Demand, c: ReconstructionCandidate)
    returns (problem: Option<Rejection>, keys: seq<SwitchKey>)
    ensures problem == FirstProblem(inputs, demand, c, 0)
    ensures problem.None? ==> keys == DistinctHops(c.hops)
  {
    keys := [];
    for k := 0 to |c.hops|
      invariant FirstProblem(inputs, demand, c, k) == FirstProblem(inputs, demand, c, 0)
      invariant keys == DistinctHops(c.hops[..k])
    {
      problem := HopProblem(inputs, demand, c, c.hops[k]);
      if problem.Some? {
        return;
      }
      assert c.hops[..k + 1][..k] == c.hops[..k];
      if c.hops[k] !in keys {
        keys := keys + [c.hops[k]];
      }
    }
    assert c.hops[..|c.hops|] == c.hops;
    problem := None;
  }

  // ---- One demand ----

  datatype CandidateUse = CandidateUse(candidate: ReconstructionCandidate, capacityKeys: seq<SwitchKey>)

  datatype DemandOptions = DemandOptions(
    demand: Demand,
    eligible: seq<CandidateUse>,
    reports: seq<Option<Rejection>>,
    enumerationComplete: bool,
    blockingReason: UnresolvedReason)

  function Reports(inputs: PlanInputs, demand: Demand, supplied: seq<ReconstructionCandidate>,
                   n: nat): (reports: seq<Option<Rejection>>)
    requires n <= |supplied|
  {
    seq(n, i requires 0 <= i < n => Problem(inputs, demand, supplied[i]))
  }

  function Eligible(inputs: PlanInputs, demand: Demand, supplied: seq<ReconstructionCandidate>,
                    n: nat): (eligible: seq<CandidateUse>)
    requires n <= |supplied|
    ensures |eligible| <= n
  {
    if n == 0 then []
    else
      Eligible(inputs, demand, supplied, n - 1)
      + if Problem(inputs, demand, supplied[n - 1]).None?
        then [CandidateUse(supplied[n - 1], DistinctHops(supplied[n - 1].hops))]
        else []
  }

  /** The first refusal, in table order. */
  function FirstRefusal(reports: seq<Option<Rejection>>, k: nat): (reason: UnresolvedReason)
    requires k <= |reports|
    decreases |reports| - k
  {
    if k == |reports| then NoCandidateSupplied
    else if reports[k].Some? then reports[k].value.reason
    else FirstRefusal(reports, k + 1)
  }

  function Examined(inputs: PlanInputs, supplied: seq<ReconstructionCandidate>): (n: nat)
    ensures n <= |supplied|
  {
    if |supplied| <= inputs.planning.maxCandidatesPerDependent then |supplied|
       else inputs.planning.maxCandidatesPerDependent
  }

  function Evaluate(inputs: PlanInputs, demand: Demand): (options: DemandOptions) {
    var supplied := OfDependent(inputs.candidates, demand.dependent);
    var n := Examined(inputs, supplied);
    var reports := Reports(inputs, demand, supplied, n);
    DemandOptions(
      demand, Eligible(inputs, demand, supplied, n), reports, n == |supplied|,
      if n < |supplied| then SearchLimitReached else FirstRefusal(reports, 0))
  }

  // ---- The order of the eligible alternatives ----

  predicate UseLess(a: CandidateUse, b: CandidateUse) {
    PlanningLess(a.candidate, b.candidate)
  }

  lemma {:induction false} EligibleMeans(inputs: PlanInputs, demand: Demand, supplied: seq<ReconstructionCandidate>,
                                         n: nat, u: CandidateUse)
    requires n <= |supplied|
    ensures u in Eligible(inputs, demand, supplied, n) <==>
              && u.candidate in supplied[..n] && Admissible(inputs, demand, u.candidate)
              && u.capacityKeys == DistinctHops(u.candidate.hops)
  {
    if n > 0 {
      EligibleMeans(inputs, demand, supplied, n - 1, u);
      ProblemMeans(inputs, demand, supplied[n - 1]);
      assert supplied[..n] == supplied[..n - 1] + [supplied[n - 1]];
    }
  }

  lemma EarlierFirst(inputs: PlanInputs, demand: Demand, supplied: seq<ReconstructionCandidate>, n: nat,
                     u: CandidateUse)
    requires Table(supplied) && n < |supplied|
    requires forall i :: 0 <= i < |supplied| ==> supplied[i].dependent == demand.dependent
    requires u in Eligible(inputs, demand, supplied, n) && Admissible(inputs, demand, supplied[n])
    ensures PlanningLess(u.candidate, supplied[n])
  {
    EligibleMeans(inputs, demand, supplied, n, u);
    var j :| 0 <= j < n && supplied[j] == u.candidate;
    CoveringOrdered(supplied, j, n);
  }

  lemma {:induction false} EligibleOrdered(inputs: PlanInputs, demand: Demand,
                                           supplied: seq<ReconstructionCandidate>, n: nat)
    requires Table(supplied) && n <= |supplied|
    requires forall i :: 0 <= i < |supplied| ==> supplied[i].dependent == demand.dependent
    ensures Sorted(Eligible(inputs, demand, supplied, n), UseLess)
  {
    if n > 0 {
      EligibleOrdered(inputs, demand, supplied, n - 1);
      var before := Eligible(inputs, demand, supplied, n - 1);
      ProblemMeans(inputs, demand, supplied[n - 1]);
      forall i | 0 <= i < |before| && Admissible(inputs, demand, supplied[n - 1])
        ensures PlanningLess(before[i].candidate, supplied[n - 1])
      {
        EarlierFirst(inputs, demand, supplied, n - 1, before[i]);
      }
    }
  }

  /** Sorting the eligible alternatives leaves them as the table has them. */
  lemma EligibleCanonical(inputs: PlanInputs, demand: Demand, supplied: seq<ReconstructionCandidate>, n: nat)
    requires Table(supplied) && n <= |supplied|
    requires forall i :: 0 <= i < |supplied| ==> supplied[i].dependent == demand.dependent
    ensures List(Eligible(inputs, demand, supplied, n), UseLess) == Eligible(inputs, demand, supplied, n)
  {
    PlanningOrder();
    EligibleOrdered(inputs, demand, supplied, n);
    var eligible := Eligible(inputs, demand, supplied, n);
    forall a, b | a in eligible && b in eligible
      ensures UseLess(a, b) || a == b || UseLess(b, a)
    {
      var i :| 0 <= i < |eligible| && eligible[i] == a;
      var j :| 0 <= j < |eligible| && eligible[j] == b;
      assert i < j ==> UseLess(eligible[i], eligible[j]);
      assert j < i ==> UseLess(eligible[j], eligible[i]);
    }
    assert StrictOrder(UseLess);
    ListUnique(eligible, eligible, UseLess);
  }

  /** The scans that pick the reported reason: the first proven refusal, else the first refusal. */
  method PickReason(reports: seq<Option<Rejection>>) returns (reason: UnresolvedReason)
    requires forall i :: 0 <= i < |reports| && reports[i].Some? ==> ProvenNegative(reports[i].value.reason)
    ensures reason == FirstRefusal(reports, 0)
  {
    reason := NoCandidateSupplied;
    for k := 0 to |reports|
      invariant reason == NoCandidateSupplied
      invariant FirstRefusal(reports, k) == FirstRefusal(reports, 0)
    {
      if reports[k].Some? && ProvenNegative(reports[k].value.reason) {
        reason := reports[k].value.reason;
        break;
      }
    }
    if reason == NoCandidateSupplied {
      for k := 0 to |reports|
        invariant reason == NoCandidateSupplied
        invariant FirstRefusal(reports, k) == FirstRefusal(reports, 0)
      {
        if reports[k].Some? {
          reason := reports[k].value.reason;
          break;
        }
      }
    }
  }

  method EvaluateDemand(inputs: PlanInputs, demand: Demand) returns (options: DemandOptions)
    requires Table(inputs.candidates)
    ensures options == Evaluate(inputs, demand)
  {
    var supplied := ForDependent(inputs.candidates, demand.dependent);
    var eligible: seq<CandidateUse>, reports: seq<Option<Rejection>> := [], [];
    var n := Examined(inputs, supplied);
    for i := 0 to n
      invariant reports == Reports(inputs, demand, supplied, i)
      invariant eligible == Eligible(inputs, demand, supplied, i)
    {
      var c := supplied[i];
      var problem, keys := None, [];
      if c.coversFailed != demand.failed {
        problem := if c.coversFailed.id == demand.failed.id then Some(Rejection(Code.Stale, CandidateGenerationStale))
                   else Some(Rejection(Code.NotFound, NoCandidateSupplied));
      } else if !OriginAccepted(inputs, c) {
        problem := Some(Rejection(Code.Unauthorized, NonAuthoritativeOrigin));
      } else {
        problem, keys := CheckHops(inputs, demand, c);
      }
      reports := reports + [problem];
      if problem.None? {
        eligible := eligible + [CandidateUse(c, keys)];
      }
    }
    OfDependentMeans(inputs.candidates, demand.dependent);
    EligibleCanonical(inputs, demand, supplied, n);
    eligible := List(eligible, UseLess);
    forall i | 0 <= i < |reports| && reports[i].Some?
      ensures ProvenNegative(reports[i].value.reason)
    {
      ProblemMeans(inputs, demand, supplied[i]);
    }
    var reason := PickReason(reports);
    if n < |supplied| {
      reason := SearchLimitReached;
    }
    options := DemandOptions(demand, eligible, reports, n == |supplied|, reason);
  }

  // ---- What an evaluation establishes ----

  /** The eligible alternatives are admissible ones of the table; all of them, if none was cut off. */
  lemma EvaluateExact(inputs: PlanInputs, demand: Demand, u: CandidateUse)
    requires Table(inputs.candidates)
    ensures var options := Evaluate(inputs, demand);
            var admissible := && u.candidate in inputs.candidates && u.candidate.dependent == demand.dependent
                              && Admissible(inputs, demand, u.candidate)
                              && u.capacityKeys == DistinctHops(u.candidate.hops);
            && (u in options.eligible ==> admissible)
            && (options.enumerationComplete && admissible ==> u in options.eligible)
  {
    var supplied := OfDependent(inputs.candidates, demand.dependent);
    OfDependentMeans(inputs.candidates, demand.dependent);
    EligibleMeans(inputs, demand, supplied, Examined(inputs, supplied), u);
    assert supplied[..|supplied|] == supplied;
  }

  /** The front alternative has the least cost, and the fewest hops at that cost. */
  lemma EvaluateFront(inputs: PlanInputs, demand: Demand, j: nat)
    requires Table(inputs.candidates) && j < |Evaluate(inputs, demand).eligible|
    ensures var front, other := Evaluate(inputs, demand).eligible[0].candidate,
            Evaluate(inputs, demand).eligible[j].candidate;
            front.cost < other.cost || (front.cost == other.cost && |front.hops| <= |other.hops|)
  {
    var supplied := OfDependent(inputs.candidates, demand.dependent);
    OfDependentMeans(inputs.candidates, demand.dependent);
    assert forall i :: 0 <= i < |supplied| ==> supplied[i] in supplied;
    EligibleOrdered(inputs, demand, supplied, Examined(inputs, supplied));
    var eligible := Evaluate(inputs, demand).eligible;
    assert j > 0 ==> UseLess(eligible[0], eligible[j]);
  }

  lemma {:induction false} FirstRefusalProven(inputs: PlanInputs, demand: Demand,
                                              supplied: seq<ReconstructionCandidate>, n: nat, k: nat)
    requires n <= |supplied| && k <= n
    ensures ProvenNegative(FirstRefusal(Reports(inputs, demand, supplied, n), k))
    decreases n - k
  {
    if k < n {
      ProblemMeans(inputs, demand, supplied[k]);
      FirstRefusalProven(inputs, demand, supplied, n, k + 1);
    }
  }

  /** The blocking reason is a proof of absence exactly when the enumeration was not cut. */
  lemma BlockingReason(inputs: PlanInputs, demand: Demand)
    ensures ProvenNegative(Evaluate(inputs, demand).blockingReason) <==> Evaluate(inputs, demand).enumerationComplete
  {
    var supplied := OfDependent(inputs.candidates, demand.dependent);
    FirstRefusalProven(inputs, demand, supplied, Examined(inputs, supplied), 0);
  }
}
