/**
 The registry of grants and fences (AuthorityRegistry, src/model/authority.cpp). A generation
 vector is the set of its keys; identifiers and attempt numbers are unbounded counters.
 */
module Authority {
  import opened Identity
  import opened Outcome

  datatype GrantState = UnknownGrant | Active | Stale | Revoked | Expired | FencedOff

  datatype RevocationCause =
    UnknownCause | Superseded | Fence | Restart | Expiry | OperatorRevocation | RevalidationFailed | Shutdown

  datatype Grant = Grant(
    dependent: DependentRef,
    bound: set<SwitchKey>,
    epoch: nat,
    boot: nat,
    attempt: nat,
    grantedAt: U64,
    expiresAt: U64,
    state: GrantState,
    cause: RevocationCause)
  {
    /** A grant confers authority only inside its own validity window. */
    predicate ActiveAt(now: U64) {
      state.Active? && expiresAt != 0 && grantedAt <= now <= expiresAt
    }
  }

  datatype FenceScope = Open | Partial | Committed

  datatype FenceRecord = FenceRecord(
    id: nat,
    subject: SwitchKey,
    epoch: nat,
    boot: nat,
    createdAt: U64,
    scope: FenceScope,
    closureMembers: nat,
    fencedGrants: nat,
    omittedDependents: nat,
    reason: string)

  datatype Registry = Registry(
    grants: map<nat, Grant>,
    index: map<DependentRef, seq<nat>>,
    fences: map<SwitchKey, FenceRecord>,
    nextGrant: nat,
    nextFence: nat,
    attempt: nat)

  const EMPTY := Registry(map[], map[], map[], 1, 1, 0)

  // ---- Invariants ----

  function Ids(r: Registry, dependent: DependentRef): (ids: seq<nat>) {
    if dependent in r.index then r.index[dependent] else []
  }

  /** The index by dependent lists exactly the grants of that dependent. */
  ghost predicate Indexed(r: Registry) {
    forall d, id :: id in Ids(r, d) <==> id in r.grants && r.grants[id].dependent == d
  }

  /** New identities are unused. */
  ghost predicate Numbered(r: Registry) {
    && (forall id :: id in r.grants ==> id < r.nextGrant)
    && (forall k :: k in r.fences ==> r.fences[k].subject == k && r.fences[k].id < r.nextFence)
  }

  /** No Active grant is bound to a fenced generation. */
  ghost predicate FenceSafe(r: Registry) {
    forall id :: id in r.grants && r.grants[id].state.Active? ==> r.grants[id].bound !! r.fences.Keys
  }

  ghost predicate Sound(r: Registry) {
    Indexed(r) && Numbered(r) && FenceSafe(r)
  }

  // ---- Granting ----

  function Expiry64(now: U64, ttl: U64): (expires: U64) {
    if now + ttl > U64_MAX then U64_MAX else now + ttl
  }

  function GrantOutcome(r: Registry, limit: nat, dependent: DependentRef, bound: set<SwitchKey>, epoch: nat,
                        boot: nat, ttl: U64): (code: Code) {
    if !dependent.Valid() then Code.Invalid
    else if bound == {} then Code.Invalid
    else if epoch == 0 || boot == 0 then Code.Unauthorized
    else if ttl == 0 then Code.Invalid
    else if exists k :: k in bound && k in r.fences then Code.Fenced
    else if |r.grants| >= limit then Code.Exhausted
    else Code.Ok
  }

  /** The registry with one more Active grant. */
  function Granted(r: Registry, dependent: DependentRef, bound: set<SwitchKey>, epoch: nat, boot: nat, now: U64,
                   ttl: U64): (next: Registry) {
    var id := r.nextGrant;
    var grant := Grant(dependent, bound, epoch, boot, r.attempt + 1, now, Expiry64(now, ttl), Active, UnknownCause);
    r.(grants := r.grants[id := grant],
       index := r.index[dependent := Ids(r, dependent) + [id]],
       nextGrant := id + 1,
       attempt := r.attempt + 1)
  }

  function TryGrant(r: Registry, limit: nat, dependent: DependentRef, bound: set<SwitchKey>, epoch: nat, boot: nat,
                    now: U64, ttl: U64): (next: Registry) {
    if GrantOutcome(r, limit, dependent, bound, epoch, boot, ttl) != Code.Ok then r
    else Granted(r, dependent, bound, epoch, boot, now, ttl)
  }

  lemma GrantedSound(r: Registry, dependent: DependentRef, bound: set<SwitchKey>, epoch: nat, boot: nat, now: U64,
                     ttl: U64)
    requires Sound(r) && bound !! r.fences.Keys
    ensures Sound(Granted(r, dependent, bound, epoch, boot, now, ttl))
  {
    var next := Granted(r, dependent, bound, epoch, boot, now, ttl);
    forall d, id
      ensures id in Ids(next, d) <==> id in next.grants && next.grants[id].dependent == d
    {
      assert id in Ids(r, d) <==> id in r.grants && r.grants[id].dependent == d;
      if d == dependent {
        assert Ids(next, d) == Ids(r, d) + [r.nextGrant];
      } else {
        assert Ids(next, d) == Ids(r, d);
      }
    }
  }

  lemma TryGrantSound(r: Registry, limit: nat, dependent: DependentRef, bound: set<SwitchKey>, epoch: nat, boot: nat,
                      now: U64, ttl: U64)
    requires Sound(r)
    ensures Sound(TryGrant(r, limit, dependent, bound, epoch, boot, now, ttl))
    ensures TryGrant(r, limit, dependent, bound, epoch, boot, now, ttl).fences == r.fences
  {
    if GrantOutcome(r, limit, dependent, bound, epoch, boot, ttl) == Code.Ok {
      GrantedSound(r, dependent, bound, epoch, boot, now, ttl);
    }
  }

  // ---- Withdrawing ----

  /** The grants a sweep changes. */
  datatype Sweep =
    | FenceSweep(keys: set<SwitchKey>)
    | RestartSweep
    | ExpirySweep(now: U64)
    | WithdrawSweep(cause: RevocationCause)
    | DependentSweep(dependent: DependentRef, cause: RevocationCause)

  predicate Hits(sweep: Sweep, g: Grant) {
    match sweep
    case FenceSweep(keys) => g.state.Active? && g.bound * keys != {}
    case RestartSweep => g.state.Active?
    case ExpirySweep(now) => g.state.Active? && now > g.expiresAt
    case WithdrawSweep(_) => !g.state.Revoked? && !g.state.FencedOff?
    case DependentSweep(d, _) => g.state.Active? && g.dependent == d
  }

  /** The state a withdrawal leaves must say what happened. */
  function Withdrawn(cause: RevocationCause): (state: GrantState) {
    match cause
    case Fence => FencedOff
    case Restart => GrantState.Stale
    case _ => Revoked
  }

  function Swept(sweep: Sweep, g: Grant): (next: Grant) {
    if !Hits(sweep, g) then g
    else match sweep
      case FenceSweep(_) => g.(state := FencedOff, cause := Fence)
      case RestartSweep => g.(state := GrantState.Stale, cause := Restart)
      case ExpirySweep(_) => g.(state := GrantState.Expired, cause := Expiry)
      case WithdrawSweep(cause) =>
        g.(state := Withdrawn(cause), cause := cause)
      case DependentSweep(_, cause) => g.(state := Revoked, cause := cause)
  }

  function Sweeping(r: Registry, sweep: Sweep): (next: Registry) {
    r.(grants := map id | id in r.grants :: Swept(sweep, r.grants[id]))
  }

  /** A sweep activates nothing and moves nothing. */
  lemma SweptKeeps(sweep: Sweep, g: Grant)
    ensures Swept(sweep, g).dependent == g.dependent && Swept(sweep, g).bound == g.bound
    ensures Swept(sweep, g).state.Active? ==> Swept(sweep, g) == g && !Hits(sweep, g)
  {
  }

  lemma SweepingSound(r: Registry, sweep: Sweep)
    requires Sound(r)
    ensures Sound(Sweeping(r, sweep))
  {
    var next := Sweeping(r, sweep);
    forall id | id in r.grants
      ensures next.grants[id].dependent == r.grants[id].dependent && next.grants[id].bound == r.grants[id].bound
      ensures next.grants[id].state.Active? ==> r.grants[id].state.Active?
    {
      SweptKeeps(sweep, r.grants[id]);
    }
    forall d, id
      ensures id in Ids(next, d) <==> id in next.grants && next.grants[id].dependent == d
    {
      assert id in Ids(r, d) <==> id in r.grants && r.grants[id].dependent == d;
    }
  }

  function Revoking(r: Registry, id: nat, cause: RevocationCause): (next: Registry) {
    if id in r.grants && r.grants[id].state.Active?
    then r.(grants := r.grants[id := r.grants[id].(state := Revoked, cause := cause)])
    else r
  }

  lemma RevokingSound(r: Registry, id: nat, cause: RevocationCause)
    requires Sound(r)
    ensures Sound(Revoking(r, id, cause))
  {
    var next := Revoking(r, id, cause);
    forall d, i
      ensures i in Ids(next, d) <==> i in next.grants && next.grants[i].dependent == d
    {
      assert i in Ids(r, d) <==> i in r.grants && r.grants[i].dependent == d;
    }
  }

  /** A successful grant confers authority at once, and at every later moment up to its expiry. */
  lemma GrantConfers(r: Registry, limit: nat, dependent: DependentRef, bound: set<SwitchKey>, epoch: nat, boot: nat,
                     now: U64, ttl: U64, at: U64)
    requires GrantOutcome(r, limit, dependent, bound, epoch, boot, ttl) == Code.Ok
    ensures now <= at <= Expiry64(now, ttl) ==>
              HasAuthority(Granted(r, dependent, bound, epoch, boot, now, ttl), dependent, at)
  {
    var next := Granted(r, dependent, bound, epoch, boot, now, ttl);
    if now <= at <= Expiry64(now, ttl) {
      assert next.grants[r.nextGrant].ActiveAt(at) && next.grants[r.nextGrant].bound !! next.fences.Keys;
    }
  }

  /** Withdrawing a dependent's authority ends it, and touches no other grant. */
  lemma WithdrawalEnds(r: Registry, dependent: DependentRef, cause: RevocationCause, now: U64)
    ensures var next := Sweeping(r, DependentSweep(dependent, cause));
            && !HasActive(next, dependent, now)
            && forall id :: id in r.grants && r.grants[id].dependent != dependent ==> next.grants[id] == r.grants[id]
  {
    var next := Sweeping(r, DependentSweep(dependent, cause));
    forall id | id in next.grants && next.grants[id].dependent == dependent
      ensures !next.grants[id].ActiveAt(now)
    {
      SweptKeeps(DependentSweep(dependent, cause), r.grants[id]);
    }
  }

  /** Sweeping out what has expired changes nothing that any later query can see. */
  lemma ExpiryInvisible(r: Registry, now: U64, later: U64, dependent: DependentRef)
    requires now <= later
    ensures HasActive(Sweeping(r, ExpirySweep(now)), dependent, later) <==> HasActive(r, dependent, later)
    ensures forall id :: id in r.grants && Sweeping(r, ExpirySweep(now)).grants[id].state.Active? ==>
              now <= r.grants[id].expiresAt
  {
    var next := Sweeping(r, ExpirySweep(now));
    forall id | id in r.grants
      ensures next.grants[id].ActiveAt(later) <==> r.grants[id].ActiveAt(later)
      ensures next.grants[id].dependent == r.grants[id].dependent
    {
      SweptKeeps(ExpirySweep(now), r.grants[id]);
    }
  }

  // ---- Fencing ----

  function FenceOutcome(r: Registry, limit: nat, record: FenceRecord): (code: Code) {
    if !record.subject.Valid() then Code.Invalid
    else if record.reason == "" then Code.Invalid
    else if record.subject in r.fences then Code.AlreadyExists
    else if |r.fences| >= limit then Code.Exhausted
    else Code.Ok
  }

  function Fencing(r: Registry, record: FenceRecord): (next: Registry) {
    r.(fences := r.fences[record.subject := record.(id := r.nextFence)], nextFence := r.nextFence + 1)
  }

  /** No Active grant is bound to the generation. */
  ghost predicate Cleared(r: Registry, key: SwitchKey) {
    forall id :: id in r.grants && r.grants[id].state.Active? ==> key !in r.grants[id].bound
  }

  lemma FenceSweepClears(r: Registry, key: SwitchKey)
    ensures Cleared(Sweeping(r, FenceSweep({key})), key)
  {
    var next := Sweeping(r, FenceSweep({key}));
    forall id | id in next.grants && next.grants[id].state.Active?
      ensures key !in next.grants[id].bound
    {
      SweptKeeps(FenceSweep({key}), r.grants[id]);
      assert key !in r.grants[id].bound * {key};
    }
  }

  /** Fencing is safe exactly because the grants on the generation were withdrawn first. */
  lemma FencingSound(r: Registry, record: FenceRecord)
    requires Indexed(r) && Numbered(r)
    ensures Sound(Fencing(r, record)) <==> FenceSafe(r) && Cleared(r, record.subject)
  {
    var next := Fencing(r, record);
    assert Indexed(next) by {
      forall d, id
        ensures id in Ids(next, d) <==> id in next.grants && next.grants[id].dependent == d
      {
        assert id in Ids(r, d) <==> id in r.grants && r.grants[id].dependent == d;
      }
    }
    if FenceSafe(next) {
      forall id | id in r.grants && r.grants[id].state.Active?
        ensures record.subject !in r.grants[id].bound && r.grants[id].bound !! r.fences.Keys
      {
        assert id in next.grants && next.grants[id].bound !! next.fences.Keys;
        assert record.subject in next.fences.Keys && r.fences.Keys <= next.fences.Keys;
      }
    }
  }

  // ---- Restoring after a restart ----

  /** A restored grant is never Active. */
  function RestoringGrant(r: Registry, id: nat, value: Grant): (next: Registry) {
    var record := value.(state := GrantState.Stale, cause := Restart);
    var ids := Ids(r, record.dependent);
    r.(grants := r.grants[id := record],
       index := r.index[record.dependent := if id in ids then ids else ids + [id]],
       nextGrant := if id >= r.nextGrant then id + 1 else r.nextGrant,
       attempt := if record.attempt > r.attempt then record.attempt else r.attempt)
  }

  /** The index survives exactly when the identity is not taken over from another dependent. */
  lemma RestoringGrantSound(r: Registry, id: nat, value: Grant)
    requires Sound(r)
    ensures Sound(RestoringGrant(r, id, value)) <==> (id in r.grants ==> r.grants[id].dependent == value.dependent)
  {
    var next := RestoringGrant(r, id, value);
    if id in r.grants && r.grants[id].dependent != value.dependent {
      var d := r.grants[id].dependent;
      assert id in Ids(r, d);
      assert id in Ids(next, d) && next.grants[id].dependent != d;
    } else {
      forall d, i
        ensures i in Ids(next, d) <==> i in next.grants && next.grants[i].dependent == d
      {
        assert i in Ids(r, d) <==> i in r.grants && r.grants[i].dependent == d;
        if d == value.dependent && id !in Ids(r, d) {
          assert Ids(next, d) == Ids(r, d) + [id];
        }
      }
    }
  }

  function RestoringFence(r: Registry, value: FenceRecord): (next: Registry) {
    if !value.subject.Valid() then r
    else r.(fences := r.fences[value.subject := value],
            nextFence := if value.id >= r.nextFence then value.id + 1 else r.nextFence)
  }

  // ---- The registry object ----

  datatype AuthorityQuery = AuthorityQuery(hasAuthority: bool, outcome: Code, bound: set<SwitchKey>, active: seq<nat>)

  ghost predicate HasActive(r: Registry, dependent: DependentRef, now: U64) {
    exists id :: id in r.grants && r.grants[id].dependent == dependent && r.grants[id].ActiveAt(now)
  }

  /** The rule stated per grant: some grant is active and none of its own generations is fenced. */
  ghost predicate HasAuthority(r: Registry, dependent: DependentRef, now: U64) {
    exists id ::
      id in r.grants && r.grants[id].dependent == dependent && r.grants[id].ActiveAt(now) &&
        r.grants[id].bound !! r.fences.Keys
  }

  ghost function Hit(grants: map<nat, Grant>, sweep: Sweep): (ids: set<nat>) {
    set id | id in grants && Hits(sweep, grants[id])
  }

  // ---- Sweeping grant by grant ----

  /** Part of a sweep: the grants in `rest` are still as they were, all others are swept. */
  ghost predicate SweptOutside(before: map<nat, Grant>, after: map<nat, Grant>, sweep: Sweep, rest: set<nat>) {
    && after.Keys == before.Keys
    && forall id :: id in before ==> after[id] == if id in rest then before[id] else Swept(sweep, before[id])
  }

  ghost function HitOutside(grants: map<nat, Grant>, sweep: Sweep, rest: set<nat>): (ids: set<nat>) {
    set id | id in grants && id !in rest && Hits(sweep, grants[id])
  }

  lemma HitNext(grants: map<nat, Grant>, sweep: Sweep, rest: set<nat>, id: nat)
    ensures |HitOutside(grants, sweep, rest - {id})|
         == |HitOutside(grants, sweep, rest)| + if id in rest && id in grants && Hits(sweep, grants[id]) then 1 else 0
  {
    var before, after := HitOutside(grants, sweep, rest), HitOutside(grants, sweep, rest - {id});
    if id in rest && id in grants && Hits(sweep, grants[id]) {
      assert after == before + {id};
    } else {
      assert after == before;
    }
  }

  lemma SweptAll(r: Registry, after: map<nat, Grant>, sweep: Sweep)
    requires SweptOutside(r.grants, after, sweep, {})
    ensures after == Sweeping(r, sweep).grants && HitOutside(r.grants, sweep, {}) == Hit(r.grants, sweep)
  {
  }

  /** A sound index leaves out no grant of the dependent, so what the walk did not touch needed no change. */
  lemma IndexReachesAll(r: Registry, after: map<nat, Grant>, dependent: DependentRef, cause: RevocationCause,
                        rest: set<nat>)
    requires Sound(r) && rest == r.grants.Keys - set x | x in Ids(r, dependent)
    requires SweptOutside(r.grants, after, DependentSweep(dependent, cause), rest)
    ensures SweptOutside(r.grants, after, DependentSweep(dependent, cause), {})
    ensures HitOutside(r.grants, DependentSweep(dependent, cause), rest) ==
            HitOutside(r.grants, DependentSweep(dependent, cause), {})
  {
    forall id | id in rest
      ensures !Hits(DependentSweep(dependent, cause), r.grants[id])
    {
      assert id !in Ids(r, dependent);
    }
  }

  // ---- Querying ----

  /** Some grant of the dependent was withdrawn in a given way. */
  datatype Trace = WasFenced | WasStale | WasLapsed | WasRevoked

  predicate Leaves(g: Grant, trace: Trace) {
    match trace
    case WasFenced => g.state.FencedOff? && g.bound != {}
    case WasStale => g.state.Stale? || g.cause.Restart?
    case WasLapsed => g.state.Expired? || g.state.Active?
    case WasRevoked => g.state.Revoked? || g.state.UnknownGrant?
  }

  ghost predicate Left(grants: map<nat, Grant>, ids: seq<nat>, now: U64, trace: Trace) {
    exists id :: id in ids && id in grants && !grants[id].ActiveAt(now) && Leaves(grants[id], trace)
  }

  /** Why a dependent without authority has none: the gravest trace among its grants. */
  ghost function Denial(grants: map<nat, Grant>, ids: seq<nat>, now: U64): (code: Code) {
    if ids == [] then Code.NotFound
    else if Left(grants, ids, now, WasFenced) then Code.Fenced
    else if Left(grants, ids, now, WasStale) then Code.Stale
    else if Left(grants, ids, now, WasLapsed) then Code.Expired
    else if Left(grants, ids, now, WasRevoked) then Code.Denied
    else Code.Unknown
  }

  class AuthorityRegistry {
    const maxGrants: nat
    const maxFences: nat
    var grants: map<nat, Grant>
    var byDependent: map<DependentRef, seq<nat>>
    var fences: map<SwitchKey, FenceRecord>
    var nextGrant: nat
    var nextFence: nat
    var attempt: nat

    constructor (maxGrants: nat, maxFences: nat)
      ensures this.maxGrants == maxGrants && this.maxFences == maxFences && View() == EMPTY
    {
      this.maxGrants, this.maxFences := maxGrants, maxFences;
      grants, byDependent, fences := map[], map[], map[];
      nextGrant, nextFence, attempt := 1, 1, 0;
    }

    function View(): (r: Registry)
      reads this
    {
      Registry(grants, byDependent, fences, nextGrant, nextFence, attempt)
    }

    method GrantAuthority(dependent: DependentRef, bound: set<SwitchKey>, epoch: nat, boot: nat, now: U64, ttl: U64)
      returns (code: Code, id: nat)
      modifies this
      ensures code == GrantOutcome(old(View()), maxGrants, dependent, bound, epoch, boot, ttl)
      ensures View() == TryGrant(old(View()), maxGrants, dependent, bound, epoch, boot, now, ttl)
      ensures code == Code.Ok ==> id == old(nextGrant)
    {
      id := 0;
      if !dependent.Valid() || bound == {} {
        return Code.Invalid, id;
      }
      if epoch == 0 || boot == 0 {
        return Code.Unauthorized, id;
      }
      if ttl == 0 {
        return Code.Invalid, id;
      }
      if exists k :: k in bound && k in fences {
        return Code.Fenced, id;
      }
      if |grants| >= maxGrants {
        return Code.Exhausted, id;
      }
      attempt := attempt + 1;
      id := nextGrant;
      nextGrant := nextGrant + 1;
      var expires := if now + ttl > U64_MAX then U64_MAX else now + ttl;
      grants := grants[id := Grant(dependent, bound, epoch, boot, attempt, now, expires, Active, UnknownCause)];
      byDependent := byDependent[dependent := (if dependent in byDependent then byDependent[dependent] else []) + [id]];
      code := Code.Ok;
    }

    method Revoke(id: nat, cause: RevocationCause) returns (code: Code)
      modifies this
      ensures View() == Revoking(old(View()), id, cause)
      ensures code == if id in old(grants) then Code.Ok else Code.NotFound
    {
      if id !in grants {
        return Code.NotFound;
      }
      if grants[id].state.Active? {
        grants := grants[id := grants[id].(state := Revoked, cause := cause)];
      }
      code := Code.Ok;
    }

    /** Withdraws every Active grant bound to one of the generations. */
    method FenceGenerations(keys: set<SwitchKey>) returns (count: nat)
      modifies this`grants
      ensures View() == Sweeping(old(View()), FenceSweep(keys))
      ensures count == |Hit(old(grants), FenceSweep(keys))|
    {
      count := 0;
      var remaining := grants.Keys;
      while remaining != {}
        invariant remaining <= grants.Keys && SweptOutside(old(grants), grants, FenceSweep(keys), remaining)
        invariant count == |HitOutside(old(grants), FenceSweep(keys), remaining)|
        decreases |remaining|
      {
        var id :| id in remaining;
        HitNext(old(grants), FenceSweep(keys), remaining, id);
        remaining := remaining - {id};
        if grants[id].state.Active? && grants[id].bound * keys != {} {
          grants := grants[id := grants[id].(state := FencedOff, cause := Fence)];
          count := count + 1;
        }
      }
      SweptAll(old(View()), grants, FenceSweep(keys));
    }

    /** Whatever is still Active was granted by an earlier process. */
    method InvalidatePreRestart() returns (count: nat)
      modifies this`grants
      ensures View() == Sweeping(old(View()), RestartSweep)
      ensures count == |Hit(old(grants), RestartSweep)|
    {
      count := 0;
      var remaining := grants.Keys;
      while remaining != {}
        invariant remaining <= grants.Keys && SweptOutside(old(grants), grants, RestartSweep, remaining)
        invariant count == |HitOutside(old(grants), RestartSweep, remaining)|
        decreases |remaining|
      {
        var id :| id in remaining;
        HitNext(old(grants), RestartSweep, remaining, id);
        remaining := remaining - {id};
        if grants[id].state.Active? {
          grants := grants[id := grants[id].(state := GrantState.Stale, cause := Restart)];
          count := count + 1;
        }
      }
      SweptAll(old(View()), grants, RestartSweep);
    }

    /** Expires the Active grants whose window has elapsed. */
    method ExpireDue(now: U64) returns (count: nat)
      modifies this`grants
      ensures View() == Sweeping(old(View()), ExpirySweep(now))
      ensures count == |Hit(old(grants), ExpirySweep(now))|
    {
      count := 0;
      var remaining := grants.Keys;
      while remaining != {}
        invariant remaining <= grants.Keys && SweptOutside(old(grants), grants, ExpirySweep(now), remaining)
        invariant count == |HitOutside(old(grants), ExpirySweep(now), remaining)|
        decreases |remaining|
      {
        var id :| id in remaining;
        HitNext(old(grants), ExpirySweep(now), remaining, id);
        remaining := remaining - {id};
        if grants[id].state.Active? && now > grants[id].expiresAt {
          grants := grants[id := grants[id].(state := GrantState.Expired, cause := Expiry)];
          count := count + 1;
        }
      }
      SweptAll(old(View()), grants, ExpirySweep(now));
    }

    /** Withdraws everything that is neither revoked nor fenced off, with a state that fits the cause. */
    method WithdrawAll(cause: RevocationCause) returns (count: nat)
      modifies this`grants
      ensures View() == Sweeping(old(View()), WithdrawSweep(cause))
      ensures count == |Hit(old(grants), WithdrawSweep(cause))|
    {
      count := 0;
      var remaining := grants.Keys;
      while remaining != {}
        invariant remaining <= grants.Keys && SweptOutside(old(grants), grants, WithdrawSweep(cause), remaining)
        invariant count == |HitOutside(old(grants), WithdrawSweep(cause), remaining)|
        decreases |remaining|
      {
        var id :| id in remaining;
        HitNext(old(grants), WithdrawSweep(cause), remaining, id);
        remaining := remaining - {id};
        if !grants[id].state.Revoked? && !grants[id].state.FencedOff? {
          grants := grants[id := grants[id].(state := Withdrawn(cause), cause := cause)];
          count := count + 1;
        }
      }
      SweptAll(old(View()), grants, WithdrawSweep(cause));
    }

    /**
     Revokes one dependent's Active grants by walking its entry in the index. That reaches exactly
     the grants a scan of all of them would, because the index is sound.
     */
    method RevokeDependent(dependent: DependentRef, cause: RevocationCause) returns (count: nat)
      requires Sound(View())
      modifies this`grants
      ensures View() == Sweeping(old(View()), DependentSweep(dependent, cause))
      ensures count == |Hit(old(grants), DependentSweep(dependent, cause))|
    {
      count := 0;
      ghost var start, sweep := grants, DependentSweep(dependent, cause);
      ghost var untouched := grants.Keys;
      if dependent in byDependent {
        var ids := byDependent[dependent];
        for i := 0 to |ids|
          invariant untouched == start.Keys - set x | x in ids[..i]
          invariant SweptOutside(start, grants, sweep, untouched)
          invariant count == |HitOutside(start, sweep, untouched)|
        {
          var id := ids[i];
          assert ids[..i + 1] == ids[..i] + [id];
          HitNext(start, sweep, untouched, id);
          untouched := untouched - {id};
          assert id in Ids(old(View()), dependent);
          if id in grants && grants[id].state.Active? {
            grants := grants[id := grants[id].(state := Revoked, cause := cause)];
            count := count + 1;
          }
        }
        assert ids[..|ids|] == ids;
      }
      IndexReachesAll(old(View()), grants, dependent, cause, untouched);
      SweptAll(old(View()), grants, sweep);
    }

    method CommitFence(record: FenceRecord) returns (code: Code, id: nat)
      modifies this
      ensures code == FenceOutcome(old(View()), maxFences, record)
      ensures View() == if code == Code.Ok then Fencing(old(View()), record) else old(View())
      ensures code == Code.Ok ==> id == old(nextFence)
    {
      id := 0;
      if !record.subject.Valid() || record.reason == "" {
        return Code.Invalid, id;
      }
      if record.subject in fences {
        return Code.AlreadyExists, id;
      }
      if |fences| >= maxFences {
        return Code.Exhausted, id;
      }
      id := nextFence;
      nextFence := nextFence + 1;
      fences := fences[record.subject := record.(id := id)];
      code := Code.Ok;
    }

    method RestoreGrant(id: nat, value: Grant) returns (code: Code)
      modifies this
      ensures code == if id == 0 || !value.dependent.Valid() then Code.Invalid else Code.Ok
      ensures View() == if code == Code.Ok then RestoringGrant(old(View()), id, value) else old(View())
    {
      if id == 0 || !value.dependent.Valid() {
        return Code.Invalid;
      }
      grants := grants[id := value.(state := GrantState.Stale, cause := Restart)];
      var ids := if value.dependent in byDependent then byDependent[value.dependent] else [];
      if id !in ids {
        ids := ids + [id];
      }
      byDependent := byDependent[value.dependent := ids];
      if id >= nextGrant {
        nextGrant := id + 1;
      }
      if value.attempt > attempt {
        attempt := value.attempt;
      }
      code := Code.Ok;
    }

    method RestoreFence(value: FenceRecord) returns (code: Code)
      modifies this
      ensures code == if value.subject.Valid() then Code.Ok else Code.Invalid
      ensures View() == RestoringFence(old(View()), value)
    {
      if !value.subject.Valid() {
        return Code.Invalid;
      }
      fences := fences[value.subject := value];
      if value.id >= nextFence {
        nextFence := value.id + 1;
      }
      code := Code.Ok;
    }

    /** The scan of one dependent's grants. */
    method Scan(ids: seq<nat>, now: U64)
      returns (active: seq<nat>, bound: set<SwitchKey>, fenced: bool, stale: bool, lapsed: bool, revoked: bool)
      ensures forall id :: id in active <==> id in ids && id in grants && grants[id].ActiveAt(now)
      ensures forall k :: k in bound <==> exists id :: id in active && id in grants && k in grants[id].bound
      ensures fenced <==> Left(grants, ids, now, WasFenced)
      ensures stale <==> Left(grants, ids, now, WasStale)
      ensures lapsed <==> Left(grants, ids, now, WasLapsed)
      ensures revoked <==> Left(grants, ids, now, WasRevoked)
    {
      active, bound, fenced, stale, lapsed, revoked := [], {}, false, false, false, false;
      for i := 0 to |ids|
        invariant forall id :: id in active <==> id in ids[..i] && id in grants && grants[id].ActiveAt(now)
        invariant forall k :: k in bound <==> exists id :: id in active && id in grants && k in grants[id].bound
        invariant fenced <==> Left(grants, ids[..i], now, WasFenced)
        invariant stale <==> Left(grants, ids[..i], now, WasStale)
        invariant lapsed <==> Left(grants, ids[..i], now, WasLapsed)
        invariant revoked <==> Left(grants, ids[..i], now, WasRevoked)
      {
        var id := ids[i];
        LeftNext(grants, ids, i, now);
        if id !in grants {
          continue;
        }
        if grants[id].ActiveAt(now) {
          active := active + [id];
          bound := bound + grants[id].bound;
          continue;
        }
        fenced := fenced || Leaves(grants[id], WasFenced);
        stale := stale || Leaves(grants[id], WasStale);
        lapsed := lapsed || Leaves(grants[id], WasLapsed);
        revoked := revoked || Leaves(grants[id], WasRevoked);
      }
      assert ids[..|ids|] == ids;
    }

    /**
     Authority exists exactly when some grant of the dependent is active now. The test on the
     union of all active bounds that the code makes agrees with the rule stated per grant.
     */
    method Query(dependent: DependentRef, now: U64) returns (q: AuthorityQuery)
      requires Sound(View())
      ensures q.hasAuthority <==> HasActive(View(), dependent, now)
      ensures q.hasAuthority <==> HasAuthority(View(), dependent, now)
      ensures q.outcome == if q.hasAuthority then Code.Ok else Denial(grants, Ids(View(), dependent), now)
      ensures forall id :: id in q.active <==>
                id in grants && grants[id].dependent == dependent && grants[id].ActiveAt(now)
      ensures forall k :: k in q.bound <==> exists id :: id in q.active && id in grants && k in grants[id].bound
      ensures q.bound !! fences.Keys
    {
      var ids := if dependent in byDependent then byDependent[dependent] else [];
      assert ids == Ids(View(), dependent);
      var active, bound, fenced, stale, lapsed, revoked := Scan(ids, now);
      var blocking := set k | k in bound && k in fences;
      UnblockedBySafety(View(), active, bound, blocking);
      var has := active != [] && blocking == {};
      if has {
        assert active[0] in active;
      }
      var outcome :=
        if has then Code.Ok
        else if ids == [] then Code.NotFound
        else if blocking != {} then Code.Fenced
        else if fenced then Code.Fenced
        else if stale then Code.Stale
        else if lapsed then Code.Expired
        else if revoked then Code.Denied
        else Code.Unknown;
      q := AuthorityQuery(has, outcome, bound, active);
    }
  }

  lemma LeftNext(grants: map<nat, Grant>, ids: seq<nat>, i: nat, now: U64)
    requires i < |ids|
    ensures forall trace :: Left(grants, ids[..i + 1], now, trace) <==>
              Left(grants, ids[..i], now, trace)
              || (ids[i] in grants && !grants[ids[i]].ActiveAt(now) && Leaves(grants[ids[i]], trace))
  {
    assert ids[..i + 1] == ids[..i] + [ids[i]];
  }

  /** Fence safety is what makes the union test harmless. */
  lemma UnblockedBySafety(r: Registry, active: seq<nat>, bound: set<SwitchKey>, blocking: set<SwitchKey>)
    requires FenceSafe(r) && blocking == set k | k in bound && k in r.fences
    requires forall id :: id in active ==> id in r.grants && r.grants[id].state.Active?
    requires forall k :: k in bound <==> exists id :: id in active && id in r.grants && k in r.grants[id].bound
    ensures blocking == {} && bound !! r.fences.Keys
  {
    forall k | k in bound
      ensures k !in r.fences
    {
      var id :| id in active && id in r.grants && k in r.grants[id].bound;
      assert r.grants[id].bound !! r.fences.Keys;
    }
  }
}
