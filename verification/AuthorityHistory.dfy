/**
 Authority over whole histories of the registry (src/model/authority.cpp:108-491): who holds
 authority is decided by which grants were issued and what has ended them since.
 */
module AuthorityHistory {
  import opened Identity
  import opened Outcome
  import opened Authority

  // ---- Histories ----

  datatype Event =
    | Issue(dependent: DependentRef, bound: set<SwitchKey>, epoch: nat, boot: nat, now: U64, ttl: U64)
    | RevokeOne(id: nat, cause: RevocationCause)
    | FenceOff(keys: set<SwitchKey>)
    | Invalidate
    | Expire(now: U64)
    | WithdrawEvery(cause: RevocationCause)
    | WithdrawOf(dependent: DependentRef, cause: RevocationCause)
    | Commit(record: FenceRecord)
    | Recover(id: nat, value: Grant)
    | RecoverFence(fence: FenceRecord)

  function After(r: Registry, e: Event, maxGrants: nat, maxFences: nat): (next: Registry) {
    match e
    case Issue(dependent, bound, epoch, boot, now, ttl) =>
      TryGrant(r, maxGrants, dependent, bound, epoch, boot, now, ttl)
    case RevokeOne(id, cause) => Revoking(r, id, cause)
    case FenceOff(keys) => Sweeping(r, FenceSweep(keys))
    case Invalidate => Sweeping(r, RestartSweep)
    case Expire(now) => Sweeping(r, ExpirySweep(now))
    case WithdrawEvery(cause) => Sweeping(r, WithdrawSweep(cause))
    case WithdrawOf(dependent, cause) => Sweeping(r, DependentSweep(dependent, cause))
    case Commit(record) => if FenceOutcome(r, maxFences, record) == Code.Ok then Fencing(r, record) else r
    case Recover(id, value) => if id == 0 || !value.dependent.Valid() then r else RestoringGrant(r, id, value)
    case RecoverFence(fence) => RestoringFence(r, fence)
  }

  /** The registry before each event of a history that starts empty, and after the last. */
  ghost predicate History(events: seq<Event>, states: seq<Registry>, maxGrants: nat, maxFences: nat) {
    && |states| == |events| + 1
    && states[0] == EMPTY
    && forall i :: 0 <= i < |events| ==> states[i + 1] == After(states[i], events[i], maxGrants, maxFences)
  }

  // ---- What issues a grant and what ends it ----

  /** The event issues a grant: it is well formed, no generation of it is fenced, and there is room. */
  ghost predicate Issues(e: Event, r: Registry, maxGrants: nat) {
    && e.Issue? && e.dependent.Valid() && e.bound != {} && e.epoch > 0 && e.boot > 0 && e.ttl > 0
    && (forall key :: key in e.bound ==> key !in r.fences)
    && |r.grants| < maxGrants
  }

  /** The last moment of a grant's window, which never wraps around. */
  function Until(e: Event): (last: U64)
    requires e.Issue?
  {
    if e.now + e.ttl <= U64_MAX then e.now + e.ttl else U64_MAX
  }

  /** The event takes away the grant `id` that `issue` gave. */
  predicate Ends(e: Event, id: nat, issue: Event)
    requires issue.Issue?
  {
    match e
    case RevokeOne(i, _) => i == id
    case FenceOff(keys) => exists key :: key in issue.bound && key in keys
    case Invalidate => true
    case Expire(now) => now > Until(issue)
    case WithdrawEvery(_) => true
    case WithdrawOf(dependent, _) => dependent == issue.dependent
    case Recover(i, value) => i == id && i != 0 && value.dependent.Valid()
    case _ => false
  }

  ghost predicate Live(events: seq<Event>, states: seq<Registry>, maxGrants: nat, i: nat, n: nat)
    requires n < |states| && n <= |events|
  {
    && i < n && Issues(events[i], states[i], maxGrants)
    && forall j :: i < j < n ==> !Ends(events[j], states[i].nextGrant, events[i])
  }

  function Given(e: Event, attempt: nat): (g: Grant)
    requires e.Issue?
  {
    Grant(e.dependent, e.bound, e.epoch, e.boot, attempt, e.now, Until(e), Active, UnknownCause)
  }

  /** The grant is Active in the registry, as the event gave it. */
  predicate Holds(r: Registry, id: nat, e: Event, attempt: nat)
    requires e.Issue?
  {
    id in r.grants && r.grants[id] == Given(e, attempt)
  }

  // ---- One event ----

  predicate Fresh(r: Registry) {
    forall id :: id in r.grants ==> id < r.nextGrant
  }

  lemma Issuing(r: Registry, e: Event, maxGrants: nat, maxFences: nat)
    requires e.Issue? && Fresh(r)
    ensures var next := After(r, e, maxGrants, maxFences);
            if Issues(e, r, maxGrants) then
              next.grants == r.grants[r.nextGrant := Given(e, r.attempt + 1)] && next.nextGrant == r.nextGrant + 1
            else next == r
  {
  }

  /** Any other event activates nothing, and an Active grant stays exactly as it is or is ended. */
  lemma OtherEvents(r: Registry, e: Event, maxGrants: nat, maxFences: nat, id: nat)
    requires !e.Issue?
    ensures var next := After(r, e, maxGrants, maxFences);
            && next.nextGrant >= r.nextGrant
            && (id in next.grants && next.grants[id].state.Active? ==>
                  id in r.grants && r.grants[id] == next.grants[id])
  {
  }

  lemma EndsExactly(r: Registry, e: Event, maxGrants: nat, maxFences: nat, id: nat, issue: Event, attempt: nat)
    requires !e.Issue? && issue.Issue? && Holds(r, id, issue, attempt)
    ensures var next := After(r, e, maxGrants, maxFences);
            id in next.grants && next.grants[id].state.Active? <==> !Ends(e, id, issue)
  {
    if e.FenceOff? {
      Meeting(issue.bound, e.keys);
    }
  }

  lemma AfterFresh(r: Registry, e: Event, maxGrants: nat, maxFences: nat)
    requires Fresh(r)
    ensures Fresh(After(r, e, maxGrants, maxFences))
  {
  }

  lemma Meeting(a: set<SwitchKey>, b: set<SwitchKey>)
    ensures a * b != {} <==> exists key :: key in a && key in b
  {
    if key :| key in a && key in b {
      assert key in a * b;
    }
  }

  // ---- Whole histories ----

  ghost predicate Backed(events: seq<Event>, states: seq<Registry>, maxGrants: nat, n: nat, id: nat, i: nat)
    requires n < |states| && n <= |events|
  {
    && Live(events, states, maxGrants, i, n) && states[i].nextGrant == id
    && Holds(states[n], id, events[i], states[i].attempt + 1)
  }

  /** The Active grants after n events are those that were issued and that nothing has ended since. */
  ghost predicate Traced(events: seq<Event>, states: seq<Registry>, maxGrants: nat, n: nat)
    requires n < |states| && n <= |events|
  {
    && Fresh(states[n])
    && (forall id :: id in states[n].grants && states[n].grants[id].state.Active? ==>
          exists i: nat :: Backed(events, states, maxGrants, n, id, i))
    && (forall i: nat :: Live(events, states, maxGrants, i, n) ==>
          Backed(events, states, maxGrants, n, states[i].nextGrant, i))
  }

  lemma LiveLonger(events: seq<Event>, states: seq<Registry>, maxGrants: nat, i: nat, n: nat)
    requires n < |events| < |states| && i < n
    ensures Live(events, states, maxGrants, i, n + 1) <==>
              Live(events, states, maxGrants, i, n) && !Ends(events[n], states[i].nextGrant, events[i])
  {
  }

  lemma BackedNext(events: seq<Event>, states: seq<Registry>, maxGrants: nat, maxFences: nat, n: nat, id: nat, i: nat)
    requires History(events, states, maxGrants, maxFences) && n < |events| && Fresh(states[n])
    requires Backed(events, states, maxGrants, n, id, i)
    ensures Live(events, states, maxGrants, i, n + 1) <==>
              id in states[n + 1].grants && states[n + 1].grants[id].state.Active?
    ensures Live(events, states, maxGrants, i, n + 1) ==> Backed(events, states, maxGrants, n + 1, id, i)
  {
    LiveLonger(events, states, maxGrants, i, n);
    if events[n].Issue? {
      Issuing(states[n], events[n], maxGrants, maxFences);
    } else {
      OtherEvents(states[n], events[n], maxGrants, maxFences, id);
      EndsExactly(states[n], events[n], maxGrants, maxFences, id, events[i], states[i].attempt + 1);
    }
  }

  lemma LastIssued(events: seq<Event>, states: seq<Registry>, maxGrants: nat, maxFences: nat, n: nat)
    requires History(events, states, maxGrants, maxFences) && n < |events| && Fresh(states[n])
    requires Live(events, states, maxGrants, n, n + 1)
    ensures Backed(events, states, maxGrants, n + 1, states[n].nextGrant, n)
  {
    Issuing(states[n], events[n], maxGrants, maxFences);
  }

  /** An Active grant was Active before the last event, unless that event issued it. */
  lemma ActiveBefore(r: Registry, e: Event, maxGrants: nat, maxFences: nat, id: nat)
    requires Fresh(r)
    requires var next := After(r, e, maxGrants, maxFences); id in next.grants && next.grants[id].state.Active?
    ensures (id == r.nextGrant && Issues(e, r, maxGrants)) || (id in r.grants && r.grants[id].state.Active?)
  {
    if e.Issue? {
      Issuing(r, e, maxGrants, maxFences);
    } else {
      OtherEvents(r, e, maxGrants, maxFences, id);
    }
  }

  lemma TracedNext(events: seq<Event>, states: seq<Registry>, maxGrants: nat, maxFences: nat, n: nat)
    requires History(events, states, maxGrants, maxFences) && n < |events| && Traced(events, states, maxGrants, n)
    ensures Traced(events, states, maxGrants, n + 1)
  {
    var next := n + 1;
    AfterFresh(states[n], events[n], maxGrants, maxFences);
    forall id | id in states[next].grants && states[next].grants[id].state.Active?
      ensures exists i: nat :: Backed(events, states, maxGrants, next, id, i)
    {
      ActiveBefore(states[n], events[n], maxGrants, maxFences, id);
      if id == states[n].nextGrant && Issues(events[n], states[n], maxGrants) {
        LastIssued(events, states, maxGrants, maxFences, n);
      } else {
        var i: nat :| Backed(events, states, maxGrants, n, id, i);
        BackedNext(events, states, maxGrants, maxFences, n, id, i);
      }
    }
    forall i: nat | Live(events, states, maxGrants, i, next)
      ensures Backed(events, states, maxGrants, next, states[i].nextGrant, i)
    {
      if i == n {
        LastIssued(events, states, maxGrants, maxFences, n);
      } else {
        LiveLonger(events, states, maxGrants, i, n);
        BackedNext(events, states, maxGrants, maxFences, n, states[i].nextGrant, i);
      }
    }
  }

  lemma {:induction false} HistoryTraced(events: seq<Event>, states: seq<Registry>, maxGrants: nat, maxFences: nat,
                                         n: nat)
    requires History(events, states, maxGrants, maxFences) && n <= |events|
    ensures Traced(events, states, maxGrants, n)
  {
    if n > 0 {
      HistoryTraced(events, states, maxGrants, maxFences, n - 1);
      TracedNext(events, states, maxGrants, maxFences, n - 1);
    }
  }

  /** The event grants the dependent a window that holds the moment. */
  predicate Spans(e: Event, dependent: DependentRef, at: U64) {
    e.Issue? && e.dependent == dependent && e.now <= at <= Until(e)
  }

  lemma SpansMeans(r: Registry, id: nat, e: Event, attempt: nat, dependent: DependentRef, at: U64)
    requires e.Issue? && e.ttl > 0 && Holds(r, id, e, attempt)
    ensures Spans(e, dependent, at) <==> r.grants[id].dependent == dependent && r.grants[id].ActiveAt(at)
  {
  }

  /**
   After any history a dependent holds authority at a moment exactly when some grant was issued to
   it whose window holds that moment and which nothing has ended since: no revocation of it or of
   the dependent, no fence on a generation it is bound to, no restart, no general withdrawal.
   */
  lemma AuthorityExactly(events: seq<Event>, states: seq<Registry>, maxGrants: nat, maxFences: nat,
                         dependent: DependentRef, at: U64)
    requires History(events, states, maxGrants, maxFences)
    ensures var n := |events|;
            HasActive(states[n], dependent, at) <==>
              exists i: nat :: Live(events, states, maxGrants, i, n) && Spans(events[i], dependent, at)
  {
    var n := |events|;
    var r := states[n];
    HistoryTraced(events, states, maxGrants, maxFences, n);
    if HasActive(r, dependent, at) {
      var id :| id in r.grants && r.grants[id].dependent == dependent && r.grants[id].ActiveAt(at);
      var i: nat :| Backed(events, states, maxGrants, n, id, i);
      SpansMeans(r, id, events[i], states[i].attempt + 1, dependent, at);
    }
    if i: nat :| Live(events, states, maxGrants, i, n) && Spans(events[i], dependent, at) {
      var id := states[i].nextGrant;
      assert Backed(events, states, maxGrants, n, id, i);
      SpansMeans(r, id, events[i], states[i].attempt + 1, dependent, at);
    }
  }

  // ---- Why there is none ----

  /** A grant of the dependent that confers nothing at the moment. */
  ghost predicate Idle(r: Registry, dependent: DependentRef, at: U64, id: nat) {
    id in r.grants && r.grants[id].dependent == dependent && !r.grants[id].ActiveAt(at)
  }

  ghost predicate SomeFenced(r: Registry, dependent: DependentRef, at: U64) {
    exists id :: Idle(r, dependent, at, id) && r.grants[id].state.FencedOff? && r.grants[id].bound != {}
  }

  ghost predicate SomeStale(r: Registry, dependent: DependentRef, at: U64) {
    exists id :: Idle(r, dependent, at, id) && (r.grants[id].state.Stale? || r.grants[id].cause.Restart?)
  }

  ghost predicate SomeLapsed(r: Registry, dependent: DependentRef, at: U64) {
    exists id :: Idle(r, dependent, at, id) && (r.grants[id].state.Expired? || r.grants[id].state.Active?)
  }

  ghost predicate SomeRevoked(r: Registry, dependent: DependentRef, at: U64) {
    exists id :: Idle(r, dependent, at, id) && (r.grants[id].state.Revoked? || r.grants[id].state.UnknownGrant?)
  }

  lemma LeftMeans(r: Registry, dependent: DependentRef, at: U64, trace: Trace)
    requires Indexed(r)
    ensures Left(r.grants, Ids(r, dependent), at, trace) <==>
              exists id :: Idle(r, dependent, at, id) && Leaves(r.grants[id], trace)
  {
    var ids := Ids(r, dependent);
    if Left(r.grants, ids, at, trace) {
      var id :| id in ids && id in r.grants && !r.grants[id].ActiveAt(at) && Leaves(r.grants[id], trace);
      assert Idle(r, dependent, at, id);
    }
    if id :| Idle(r, dependent, at, id) && Leaves(r.grants[id], trace) {
      assert id in ids;
    }
  }

  /**
   The answer to a dependent without authority: a fence explains more than a restart, a restart
   more than a lapsed window, that more than a revocation.
   */
  lemma DenialExactly(r: Registry, dependent: DependentRef, at: U64)
    requires Indexed(r) && !HasActive(r, dependent, at)
    ensures var code := Denial(r.grants, Ids(r, dependent), at);
            && (code == Code.NotFound <==> forall id :: id in r.grants ==> r.grants[id].dependent != dependent)
            && (code == Code.Fenced <==> SomeFenced(r, dependent, at))
            && (code == Code.Stale <==> !SomeFenced(r, dependent, at) && SomeStale(r, dependent, at))
            && (code == Code.Expired <==>
                  && !SomeFenced(r, dependent, at) && !SomeStale(r, dependent, at)
                  && SomeLapsed(r, dependent, at))
            && (code == Code.Denied <==>
                  && !SomeFenced(r, dependent, at) && !SomeStale(r, dependent, at)
                  && !SomeLapsed(r, dependent, at) && SomeRevoked(r, dependent, at))
  {
    LeftMeans(r, dependent, at, WasFenced);
    LeftMeans(r, dependent, at, WasStale);
    LeftMeans(r, dependent, at, WasLapsed);
    LeftMeans(r, dependent, at, WasRevoked);
    var ids := Ids(r, dependent);
    if ids != [] {
      assert ids[0] in ids;
    }
  }
}
