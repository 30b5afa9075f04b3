/**
 What declaring a failure comes to (record_failure_locked and declare_failure,
 src/runtime/failover.cpp:177-292), and what stands in the way of a restore (evaluate_restore,
 src/runtime/failover.cpp:642-728), in terms of the evidence, the dependency graph and the grants.
 */
module Declarations {
  import opened Identity
  import opened Outcome
  import opened Canonical
  import opened Topology
  import opened Closure
  import opened Evidence
  import opened EvidenceStore
  import opened Adjudication
  import opened Plan
  import opened Runtime
  import opened Restoration
  import Authority
  import Traversal

  // ---- When a declaration takes effect ----

  /** The declaration enters the evidence as an authority's report of a failure of its subject. */
  lemma AssertionSays(d: Declaration, id: U64)
    requires d.Valid()
    ensures var r := Assertion(d, id);
            && r.subject == d.subject && r.observedAt == d.observedAt && r.validFor == d.validFor
            && Says(r, FailureAsserted)
  {
  }

  /** The evidence about the subject once the declaration is admitted. */
  function Heard(s: State, d: Declaration, id: U64): (records: seq<EvidenceRecord>) {
    Retain(Bucket(s.evidence, d.subject), Assertion(d, id), PER_SUBJECT_RETENTION)
  }

  /**
   A declaration takes effect exactly when it is well formed and admitted, and with it on record the
   subject has failed: an earlier failure is committed and in effect, or the reports of authorities
   end in a failure, or the policy fences on what is left.
   */
  lemma EstablishedExactly(s: State, d: Declaration, id: U64, admitted: bool, now: U64)
    ensures Established(s, d, id, admitted, now) <==>
              && d.Valid() && s.topology.Some? && admitted
              && var records, policy := Heard(s, d, id), s.policy.assessment;
                 || InEffect(records, Lookup(s.failures, d.subject), now, policy)
                 || Failing(records, now)
                 || (Silent(records, now) && Distrusted(records, now, policy))
                 || (Adjudication.Unknown(records, now, policy) && policy.fenceOnMissingHealth)
  {
    var records, durable, policy := Heard(s, d, id), Lookup(s.failures, d.subject), s.policy.assessment;
    FencedExactly(d.subject, records, durable, now, policy);
    OutcomeExactly(d.subject, records, durable, now, policy);
  }

  /** A declaration that is in force, with no recovery as late on record, takes effect. */
  lemma DeclarationPrevails(s: State, d: Declaration, id: U64, now: U64)
    requires d.Valid() && s.topology.Some?
    requires d.observedAt <= now <= d.observedAt + d.validFor <= U64_MAX
    requires Assertion(d, id) in Heard(s, d, id)
    requires forall r :: r in Heard(s, d, id) && InForce(r, now) && Says(r, RecoveryDeclared) ==>
               r.observedAt < d.observedAt
    ensures Established(s, d, id, true, now)
  {
    EstablishedExactly(s, d, id, true, now);
    AssertionSays(d, id);
    assert Adjudication.Held(Assertion(d, id), FailureAsserted, Heard(s, d, id), now);
  }

  // ---- What the fence says ----

  /** The Active grants that run over the generation. */
  ghost function Resting(grants: map<nat, Authority.Grant>, key: SwitchKey): (ids: set<nat>) {
    set id | id in grants && grants[id].state.Active? && key in grants[id].bound
  }

  lemma RestingHit(grants: map<nat, Authority.Grant>, key: SwitchKey)
    ensures Authority.Hit(grants, Authority.FenceSweep({key})) == Resting(grants, key)
  {
    forall id | id in grants
      ensures grants[id].bound * {key} != {} <==> key in grants[id].bound
    {
      assert key in grants[id].bound ==> key in grants[id].bound * {key};
    }
  }

  lemma AbsentRoot(t: TopologySnapshot, root: ClosureNode, limits: Traversal.Budget)
    requires Topology.Valid(t)
    ensures ClosureFrom(t, [root], limits).rootsAbsent == if root in t.nodes then 0 else 1
  {
    ListOne(root);
    assert [root][..0] == [] && Absent(t.nodes, []) == [];
  }

  /** What the fence covers: everything the subject invalidates, or an admitted part of it. */
  ghost predicate Covered(s: State, subject: SwitchKey, fence: Authority.FenceRecord, members: seq<ClosureNode>)
    requires s.topology.Some? && Topology.Valid(s.topology.value)
  {
    var t, root := s.topology.value, SwitchNode(subject);
    && fence.closureMembers == |members| && Sorted(members, NodeLess) && root in members
    && (forall x :: x in members ==> x == root || Invalidates(t, root, x))
    && (fence.scope.Committed? ==> root in t.nodes && forall x :: Invalidates(t, root, x) ==> x in members)
    && (fence.scope.Committed? || fence.scope.Partial?)
    && (fence.scope.Partial? ==>
          root !in t.nodes || ClosureFrom(t, [root], ClosureBudget(s.limits)).state.Truncated?)
  }

  lemma ClosureCovers(s: State, d: Declaration, withdrawn: nat, now: U64, closure: DependencyClosure)
    requires Inputs(s) && s.topology.Some?
    requires closure == ClosureFrom(s.topology.value, [SwitchNode(d.subject)], ClosureBudget(s.limits))
    ensures Covered(s, d.subject, FenceOf(s, d, closure, withdrawn, now), closure.members)
  {
    var t, root := s.topology.value, SwitchNode(d.subject);
    AbsentRoot(t, root, ClosureBudget(s.limits));
    MembersSorted(t, [root], ClosureBudget(s.limits));
    forall x
      ensures x in closure.members ==> x == root || Invalidates(t, root, x)
      ensures !closure.state.Truncated? && Invalidates(t, root, x) ==> x in closure.members
      ensures x == root ==> x in closure.members
    {
      ClosureExact(t, [root], ClosureBudget(s.limits), x);
    }
  }

  /** The fence names its process and moment, gives the stated reason, and counts what it withdrew. */
  predicate Stamped(s: State, d: Declaration, fence: Authority.FenceRecord, withdrawn: nat, now: U64) {
    && fence.id == s.registry.nextFence && fence.subject == d.subject
    && fence.epoch == s.epoch && fence.boot == s.boot && fence.createdAt == now
    && fence.fencedGrants == withdrawn
    && fence.reason == if d.reason != "" then d.reason else "switch generation established unusable"
  }

  /** Exactly the Active grants over the generation are fenced off. */
  ghost predicate Fenced(before: map<nat, Authority.Grant>, after: map<nat, Authority.Grant>, key: SwitchKey) {
    && after.Keys == before.Keys
    && forall id :: id in before ==>
         after[id] == if id in Resting(before, key)
                      then before[id].(state := Authority.FencedOff, cause := Authority.Fence)
                      else before[id]
  }

  lemma SweepFences(r: Authority.Registry, key: SwitchKey)
    ensures Fenced(r.grants, Authority.Sweeping(r, Authority.FenceSweep({key})).grants, key)
  {
    RestingHit(r.grants, key);
    forall id | id in r.grants
      ensures id in Resting(r.grants, key) <==> Authority.Hits(Authority.FenceSweep({key}), r.grants[id])
    {
      assert id in Resting(r.grants, key) <==> id in Authority.Hit(r.grants, Authority.FenceSweep({key}));
    }
  }

  /**
   Fencing a generation that is not fenced yet: the grants over it and no others are withdrawn, one
   fence is added that says what it covers, and that fence is journalled.
   */
  lemma FenceDescribes(s: State, d: Declaration, now: U64) returns (members: seq<ClosureNode>)
    requires Inputs(s) && s.topology.Some? && d.subject.Valid()
    requires d.subject !in s.registry.fences && |s.registry.fences| < s.limits.maxFences
    ensures var e := FencingFailure(s, d, now);
            && d.subject in e.state.registry.fences
            && var fence := e.state.registry.fences[d.subject];
               && Stamped(s, d, fence, |Resting(s.registry.grants, d.subject)|, now)
               && Covered(s, d.subject, fence, members)
               && e.state.registry.fences == s.registry.fences[d.subject := fence]
               && e.entries == [FenceCommitted(fence)]
    ensures Fenced(s.registry.grants, FencingFailure(s, d, now).state.registry.grants, d.subject)
  {
    var closure := ClosureFrom(s.topology.value, [SwitchNode(d.subject)], ClosureBudget(s.limits));
    var withdrawn := |Authority.Hit(s.registry.grants, Authority.FenceSweep({d.subject}))|;
    members := closure.members;
    ClosureCovers(s, d, withdrawn, now, closure);
    RestingHit(s.registry.grants, d.subject);
    SweepFences(s.registry, d.subject);
  }

  /** The code of fencing says whether the generation is fenced afterwards, and how completely. */
  lemma FencingCodeExactly(s: State, d: Declaration, now: U64)
    requires Inputs(s) && s.topology.Some?
    ensures var code, fences := FencingCode(s, d, now), FencingFailure(s, d, now).state.registry.fences;
            && (code == Code.Ok <==> d.subject in fences && !fences[d.subject].scope.Partial?)
            && (code == Code.PartialClosure <==> d.subject in fences && fences[d.subject].scope.Partial?)
            && (code == Code.Exhausted <==> d.subject !in fences && d.subject.Valid())
            && (d.subject !in fences && d.subject.Valid() ==> |s.registry.fences| >= s.limits.maxFences)
            && (d.subject in s.registry.fences ==> fences[d.subject] == s.registry.fences[d.subject])
  {
  }

  // ---- What stands in the way of a restore ----

  /** The evidence about a generation obliges the runtime to fence it. */
  ghost predicate Doubtful(s: State, key: SwitchKey, now: U64) {
    var records, durable, policy := Bucket(s.evidence, key), Lookup(s.failures, key), s.policy.assessment;
    || !key.Valid()
    || InEffect(records, durable, now, policy)
    || Failing(records, now)
    || (Contradicted(records, now) && policy.fenceOnAuthoritativeConflict)
    || (Silent(records, now) && Distrusted(records, now, policy))
    || (Adjudication.Unknown(records, now, policy) && policy.fenceOnMissingHealth)
  }

  /**
   A restore is blocked exactly when some grant that the dependent holds now runs over a generation
   that is fenced, or that the evidence obliges the runtime to fence.
   */
  lemma BlockedExactly(s: State, dependent: DependentRef, now: U64)
    ensures Blocked(s, dependent, now) <==>
              exists id, key ::
                && id in s.registry.grants && s.registry.grants[id].dependent == dependent
                && s.registry.grants[id].ActiveAt(now) && key in s.registry.grants[id].bound
                && (key in s.registry.fences || Doubtful(s, key, now))
  {
    forall key
      ensures AssessNow(s, key, now).fenceRequired <==> Doubtful(s, key, now)
    {
      FencedExactly(key, Bucket(s.evidence, key), Lookup(s.failures, key), now, s.policy.assessment);
    }
    if Blocked(s, dependent, now) {
      var key :| BoundNow(s, dependent, now, key) && Hazard(s, key, now);
      assert key in s.registry.fences || Doubtful(s, key, now);
    }
    forall id, key | && id in s.registry.grants && s.registry.grants[id].dependent == dependent
                     && s.registry.grants[id].ActiveAt(now) && key in s.registry.grants[id].bound
                     && (key in s.registry.fences || Doubtful(s, key, now))
      ensures Blocked(s, dependent, now)
    {
      assert BoundNow(s, dependent, now, key) && Hazard(s, key, now);
    }
  }

  /** What a permitted restore rests on. */
  lemma PermittedIsSafe(s: State, dependent: DependentRef, now: U64) returns (id: nat)
    requires Permits(s, dependent, now)
    ensures id in s.registry.grants && s.registry.grants[id].dependent == dependent
    ensures s.registry.grants[id].state.Active? && s.registry.grants[id].grantedAt <= now
    ensures now <= s.registry.grants[id].expiresAt
    ensures forall key :: key in s.registry.grants[id].bound ==>
              && key !in s.registry.fences && !Failing(Bucket(s.evidence, key), now)
              && !InEffect(Bucket(s.evidence, key), Lookup(s.failures, key), now, s.policy.assessment)
  {
    id :| id in s.registry.grants && s.registry.grants[id].dependent == dependent
          && s.registry.grants[id].ActiveAt(now);
    forall key | key in s.registry.grants[id].bound
      ensures key !in s.registry.fences && !Doubtful(s, key, now)
    {
      assert BoundNow(s, dependent, now, key);
      FencedExactly(key, Bucket(s.evidence, key), Lookup(s.failures, key), now, s.policy.assessment);
    }
  }
}
