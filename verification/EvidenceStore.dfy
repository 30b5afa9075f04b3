/** The bounded evidence store (EvidenceStore::admit, src/model/evidence.cpp). */
module EvidenceStore {
  import opened Identity
  import opened Outcome
  import opened Canonical
  import opened Evidence

  const PER_SUBJECT_RETENTION := 32
  const FUTURE_SANITY_BOUND := 3600 * 1_000_000_000
  const MAX_MESSAGE_BYTES := 512

  /** The ten defined capability bits, the lowest ones: a mask above this has an undefined bit. */
  const ALL_CAPABILITIES: U32 := 0x3FF

  predicate Older(a: EvidenceRecord, b: EvidenceRecord) {
    a.observedAt < b.observedAt || (a.observedAt == b.observedAt && a.id < b.id)
  }

  lemma OlderOrder()
    ensures StrictOrder(Older)
  {
  }

  // ---- Retention ----

  /** The newest k of a sorted sequence. */
  function Newest(items: seq<EvidenceRecord>, k: nat): (newest: seq<EvidenceRecord>) {
    if |items| <= k then items else items[|items| - k..]
  }

  function Retain(bucket: seq<EvidenceRecord>, r: EvidenceRecord, k: nat): (next: seq<EvidenceRecord>) {
    Newest(Insert(r, bucket, Older), k)
  }

  ghost predicate DistinctIds(records: seq<EvidenceRecord>) {
    forall a, b :: a in records && b in records && a.id == b.id ==> a == b
  }

  lemma InsertFront(r: EvidenceRecord, items: seq<EvidenceRecord>)
    requires StrictOrder(Older) && Sorted(items, Older) && r !in items && (items == [] || Older(r, items[0]))
    ensures Insert(r, items, Older) == [r] + items
  {
  }

  lemma {:induction false} InsertCount(r: EvidenceRecord, items: seq<EvidenceRecord>)
    requires r !in items
    ensures |Insert(r, items, Older)| == |items| + 1
  {
    if items != [] {
      assert items[0] in items;
      assert forall x :: x in items[1..] ==> x in items;
      InsertCount(r, items[1..]);
    }
  }

  lemma NewestTail(items: seq<EvidenceRecord>, first: EvidenceRecord, k: nat)
    requires |items| >= k
    ensures Newest([first] + items, k) == Newest(items, k)
  {
  }

  lemma NewestSubset(items: seq<EvidenceRecord>, k: nat)
    ensures forall x :: x in Newest(items, k) ==> x in items
  {
  }

  lemma RetainOldest(r: EvidenceRecord, items: seq<EvidenceRecord>, k: nat)
    requires StrictOrder(Older) && Sorted(items, Older) && r !in items && |items| > k && Older(r, items[0])
    ensures Newest(Insert(r, items, Older), k) == Newest(Insert(r, Newest(items, k), Older), k)
  {
    var kept := Newest(items, k);
    NewestSubset(items, k);
    InsertFront(r, items);
    assert k > 0 ==> Older(items[0], kept[0]);
    InsertFront(r, kept);
    NewestTail(items, r, k);
    NewestTail(kept, r, k);
  }

  /** Forgetting the oldest before inserting loses nothing that would have been kept. */
  lemma {:induction false} RetainNewest(r: EvidenceRecord, items: seq<EvidenceRecord>, k: nat)
    requires StrictOrder(Older) && Sorted(items, Older) && r !in items
    ensures Newest(Insert(r, items, Older), k) == Newest(Insert(r, Newest(items, k), Older), k)
  {
    if |items| > k {
      if Older(r, items[0]) {
        RetainOldest(r, items, k);
      } else {
        var rest := items[1..];
        assert items == [items[0]] + rest;
        RetainNewest(r, rest, k);
        InsertCount(r, rest);
        NewestTail(rest, items[0], k);
        NewestTail(Insert(r, rest, Older), items[0], k);
      }
    }
  }

  /** The bucket after a run of admissions for one subject. */
  ghost function Admissions(records: seq<EvidenceRecord>, k: nat): (bucket: seq<EvidenceRecord>) {
    if records == [] then []
    else Retain(Admissions(records[..|records| - 1], k), records[|records| - 1], k)
  }

  /** Streaming retention equals sorting everything and keeping the newest. */
  lemma {:induction false} AdmissionsNewest(records: seq<EvidenceRecord>, k: nat)
    requires DistinctIds(records) && NoRepeat(records)
    ensures Admissions(records, k) == Newest(List(records, Older), k)
    ensures Sorted(List(records, Older), Older)
  {
    OlderOrder();
    ListSorted(records, Older);
    if records != [] {
      var n := |records| - 1;
      var before := records[..n];
      assert records == before + [records[n]];
      assert NoRepeat(before) && DistinctIds(before);
      AdmissionsNewest(before, k);
      assert records[n] !in before;
      RetainNewest(records[n], List(before, Older), k);
    }
  }

  ghost predicate NoRepeat(records: seq<EvidenceRecord>) {
    forall i, j :: 0 <= i < j < |records| ==> records[i] != records[j]
  }

  /**
   Evidence is order-free: any two arrival orders of the same records leave the same bucket, so
   every later adjudication is the same.
   */
  lemma OrderFree(a: seq<EvidenceRecord>, b: seq<EvidenceRecord>, k: nat)
    requires DistinctIds(a) && NoRepeat(a) && NoRepeat(b)
    requires forall r :: r in a <==> r in b
    ensures Admissions(a, k) == Admissions(b, k)
    ensures forall subject, durable, now, policy ::
              Assess(subject, Admissions(a, k), durable, now, policy) ==
                Assess(subject, Admissions(b, k), durable, now, policy)
  {
    OlderOrder();
    AdmissionsNewest(a, k);
    AdmissionsNewest(b, k);
    SortedUnique(List(a, Older), List(b, Older), Older);
  }

  /** What was observed later than a record, or at the same moment under a larger identity. */
  ghost function Later(records: seq<EvidenceRecord>, r: EvidenceRecord): (later: set<EvidenceRecord>) {
    set x | x in records && (x.observedAt > r.observedAt || (x.observedAt == r.observedAt && x.id > r.id))
  }

  lemma {:induction false} SuffixCount(items: seq<EvidenceRecord>, p: nat)
    requires Sorted(items, Older) && p <= |items|
    ensures |Elements(items[p..])| == |items| - p
    decreases |items| - p
  {
    if p < |items| {
      SuffixCount(items, p + 1);
      assert items[p..] == [items[p]] + items[p + 1..];
      assert Elements(items[p..]) == {items[p]} + Elements(items[p + 1..]);
    } else {
      assert items[p..] == [];
    }
  }

  lemma LaterInOrder(items: seq<EvidenceRecord>, p: nat)
    requires Sorted(items, Older) && p < |items|
    ensures |Later(items, items[p])| == |items| - p - 1
  {
    SuffixCount(items, p + 1);
    assert Later(items, items[p]) == Elements(items[p + 1..]);
  }

  /** A record is retained exactly when fewer than so many accepted ones are later than it. */
  lemma RetainedExactly(records: seq<EvidenceRecord>, k: nat, r: EvidenceRecord)
    requires DistinctIds(records) && NoRepeat(records)
    ensures r in Admissions(records, k) <==> r in records && |Later(records, r)| < k
  {
    AdmissionsNewest(records, k);
    var items := List(records, Older);
    assert Later(records, r) == Later(items, r);
    if r in records {
      var p :| 0 <= p < |items| && items[p] == r;
      LaterInOrder(items, p);
      NewestAt(items, k, p);
    } else {
      NewestSubset(items, k);
    }
  }

  lemma NewestAt(items: seq<EvidenceRecord>, k: nat, p: nat)
    requires Sorted(items, Older) && p < |items|
    ensures items[p] in Newest(items, k) <==> |items| - p - 1 < k
  {
    var newest := Newest(items, k);
    var skipped := |items| - |newest|;
    assert forall q :: skipped <= q < |items| ==> newest[q - skipped] == items[q];
    if items[p] in newest {
      var q :| 0 <= q < |newest| && newest[q] == items[p];
      assert items[q + skipped] == items[p];
    }
  }

  // ---- Admission ----

  predicate Structured(r: EvidenceRecord) {
    && r.id != 0 && !r.kind.UnknownKind? && !r.source.UnknownSource? && r.subject.Valid()
    && r.validFor != 0 && r.observedAt != 0 && |r.detail| <= MAX_MESSAGE_BYTES
    && (r.kind.SwitchHealth? ==> !r.health.UnknownHealth?)
    && (r.kind.AdminStateDeclaration? ==> !r.admin.UnknownAdmin?)
    && (r.kind.CapabilityDeclaration? ==> r.capabilities <= ALL_CAPABILITIES)
    && (r.kind.EffectVerification? || r.kind.EffectFailure? ==> r.effectDependent.Valid() && r.effectPlan != 0)
  }

  /** Only an authoritative source may declare a failure or a recovery. */
  predicate Licensed(r: EvidenceRecord) {
    r.kind.SwitchFailureDeclaration? || r.kind.SwitchRecoveryDeclaration? ==> TrustOf(r.source).Authoritative?
  }

  function OfSubject(records: seq<EvidenceRecord>, subject: SwitchKey): (own: seq<EvidenceRecord>) {
    if records == [] then []
    else
      var n := |records| - 1;
      OfSubject(records[..n], subject) + if records[n].subject == subject then [records[n]] else []
  }

  type Buckets = map<SwitchKey, seq<EvidenceRecord>>

  function Bucket(buckets: Buckets, subject: SwitchKey): (bucket: seq<EvidenceRecord>) {
    if subject in buckets then buckets[subject] else []
  }

  /** Every bucket is what streaming retention makes of the records accepted for its subject. */
  ghost predicate Streams(buckets: Buckets, accepted: seq<EvidenceRecord>) {
    forall subject {:trigger OfSubject(accepted, subject)} ::
      Bucket(buckets, subject) == Admissions(OfSubject(accepted, subject), PER_SUBJECT_RETENTION)
  }

  ghost predicate Held(buckets: Buckets, r: EvidenceRecord) {
    r in Bucket(buckets, r.subject)
  }

  ghost predicate Orderly(buckets: Buckets) {
    forall subject :: subject in buckets ==> BucketOrderly(buckets[subject], subject)
  }

  ghost predicate BucketOrderly(bucket: seq<EvidenceRecord>, subject: SwitchKey) {
    && Sorted(bucket, Older) && |bucket| <= PER_SUBJECT_RETENTION
    && forall r :: r in bucket ==> r.subject == subject
  }

  type Owners = map<U64, EvidenceRecord>

  /** The identities in use belong to exactly the retained records, one each. */
  ghost predicate Identifies(buckets: Buckets, owners: Owners) {
    forall r :: Held(buckets, r) <==> r.id in owners && owners[r.id] == r
  }

  lemma StreamsNext(buckets: Buckets, accepted: seq<EvidenceRecord>, r: EvidenceRecord, bucket: seq<EvidenceRecord>)
    requires Streams(buckets, accepted) && bucket == Retain(Bucket(buckets, r.subject), r, PER_SUBJECT_RETENTION)
    ensures Streams(buckets[r.subject := bucket], accepted + [r])
  {
    var longer := accepted + [r];
    assert longer[..|accepted|] == accepted;
    forall subject
      ensures Bucket(buckets[r.subject := bucket], subject) ==
              Admissions(OfSubject(longer, subject), PER_SUBJECT_RETENTION)
    {
      var own := OfSubject(accepted, subject);
      if subject == r.subject {
        assert OfSubject(longer, subject) == own + [r];
        assert (own + [r])[..|own|] == own;
      } else {
        assert OfSubject(longer, subject) == own + [] == own;
        assert Bucket(buckets[r.subject := bucket], subject) == Bucket(buckets, subject);
      }
    }
  }

  lemma RetainKeeps(bucket: seq<EvidenceRecord>, r: EvidenceRecord)
    requires BucketOrderly(bucket, r.subject) && forall x :: x in bucket ==> x.id != r.id
    ensures var grown := Insert(r, bucket, Older);
            var next := Retain(bucket, r, PER_SUBJECT_RETENTION);
            && Sorted(grown, Older) && BucketOrderly(next, r.subject)
            && (|grown| <= PER_SUBJECT_RETENTION ==> next == grown)
            && (|grown| > PER_SUBJECT_RETENTION ==> next == grown[1..])
  {
    OlderOrder();
    InsertSorted(r, bucket, Older);
    InsertCount(r, bucket);
    var grown := Insert(r, bucket, Older);
    assert forall x :: x in grown[1..] ==> x in grown;
  }

  ghost predicate Sound(buckets: Buckets, owners: Owners, accepted: seq<EvidenceRecord>) {
    Orderly(buckets) && Streams(buckets, accepted) && Identifies(buckets, owners)
  }

  lemma IdentifiesInsert(buckets: Buckets, owners: Owners, r: EvidenceRecord, grown: seq<EvidenceRecord>)
    requires Identifies(buckets, owners) && r.id !in owners
    requires grown == Insert(r, Bucket(buckets, r.subject), Older)
    ensures Identifies(buckets[r.subject := grown], owners[r.id := r])
  {
    forall x
      ensures Held(buckets[r.subject := grown], x) <==> Held(buckets, x) || x == r
    {
    }
  }

  lemma IdentifiesEvict(buckets: Buckets, owners: Owners, subject: SwitchKey)
    requires Identifies(buckets, owners) && subject in buckets && buckets[subject] != []
    requires Sorted(buckets[subject], Older) && forall r :: r in buckets[subject] ==> r.subject == subject
    ensures buckets[subject][0].id in owners
    ensures Identifies(buckets[subject := buckets[subject][1..]], owners - {buckets[subject][0].id})
  {
    OlderOrder();
    var bucket := buckets[subject];
    SortedTail(bucket, Older);
    assert bucket[0] in bucket;
    assert Held(buckets, bucket[0]);
    forall x
      ensures Held(buckets[subject := bucket[1..]], x) <==> Held(buckets, x) && x != bucket[0]
    {
    }
  }

  lemma BucketNew(buckets: Buckets, owners: Owners, r: EvidenceRecord)
    requires Orderly(buckets) && Identifies(buckets, owners) && r.id !in owners
    ensures BucketOrderly(Bucket(buckets, r.subject), r.subject)
    ensures forall x :: x in Bucket(buckets, r.subject) ==> x.id != r.id
  {
    forall x | x in Bucket(buckets, r.subject)
      ensures x.id != r.id
    {
      assert Held(buckets, x);
    }
  }

  lemma PlaceStreams(buckets: Buckets, owners: Owners, accepted: seq<EvidenceRecord>, r: EvidenceRecord,
                     next: seq<EvidenceRecord>)
    requires Sound(buckets, owners, accepted) && r.id !in owners
    requires next == Retain(Bucket(buckets, r.subject), r, PER_SUBJECT_RETENTION)
    ensures Orderly(buckets[r.subject := next]) && Streams(buckets[r.subject := next], accepted + [r])
  {
    BucketNew(buckets, owners, r);
    RetainKeeps(Bucket(buckets, r.subject), r);
    StreamsNext(buckets, accepted, r, next);
  }

  lemma PlaceShape(buckets: Buckets, owners: Owners, r: EvidenceRecord, grown: seq<EvidenceRecord>)
    requires Orderly(buckets) && Identifies(buckets, owners) && r.id !in owners
    requires grown == Insert(r, Bucket(buckets, r.subject), Older)
    ensures Sorted(grown, Older) && forall x :: x in grown ==> x.subject == r.subject
    ensures Retain(Bucket(buckets, r.subject), r, PER_SUBJECT_RETENTION)
         == if |grown| > PER_SUBJECT_RETENTION then grown[1..] else grown
  {
    BucketNew(buckets, owners, r);
    RetainKeeps(Bucket(buckets, r.subject), r);
  }

  lemma EvictIdentifies(buckets: Buckets, owners: Owners, r: EvidenceRecord, grown: seq<EvidenceRecord>)
    requires Orderly(buckets) && Identifies(buckets, owners) && r.id !in owners
    requires grown == Insert(r, Bucket(buckets, r.subject), Older) && grown != []
    ensures grown[0].id in owners[r.id := r]
    ensures Identifies(buckets[r.subject := grown[1..]], owners[r.id := r] - {grown[0].id})
  {
    PlaceShape(buckets, owners, r, grown);
    IdentifiesInsert(buckets, owners, r, grown);
    var inserted := buckets[r.subject := grown];
    IdentifiesEvict(inserted, owners[r.id := r], r.subject);
    assert inserted[r.subject := grown[1..]] == buckets[r.subject := grown[1..]];
  }

  /** The bucket and the owners after a placement; past the retention bound the oldest goes. */
  ghost function Placed(owners: Owners, r: EvidenceRecord,
                        grown: seq<EvidenceRecord>): (next: (seq<EvidenceRecord>, Owners)) {
    if |grown| > PER_SUBJECT_RETENTION then (grown[1..], owners[r.id := r] - {grown[0].id})
    else (grown, owners[r.id := r])
  }

  lemma PlaceSound(buckets: Buckets, owners: Owners, accepted: seq<EvidenceRecord>, r: EvidenceRecord,
                   grown: seq<EvidenceRecord>)
    requires Sound(buckets, owners, accepted) && r.id !in owners
    requires grown == Insert(r, Bucket(buckets, r.subject), Older)
    ensures |grown| > PER_SUBJECT_RETENTION ==> grown[0].id in owners[r.id := r]
    ensures Sound(buckets[r.subject := Placed(owners, r, grown).0], Placed(owners, r, grown).1, accepted + [r])
  {
    PlaceShape(buckets, owners, r, grown);
    PlaceStreams(buckets, owners, accepted, r, Placed(owners, r, grown).0);
    if |grown| > PER_SUBJECT_RETENTION {
      EvictIdentifies(buckets, owners, r, grown);
    } else {
      IdentifiesInsert(buckets, owners, r, grown);
    }
  }

  /** Inserts a record with a new identity at its place in the order of observation. */
  method InsertRecord(bucket: seq<EvidenceRecord>, r: EvidenceRecord) returns (grown: seq<EvidenceRecord>)
    requires Sorted(bucket, Older) && forall x :: x in bucket ==> x.id != r.id
    ensures grown == Insert(r, bucket, Older) && |grown| == |bucket| + 1
  {
    OlderOrder();
    var position := LowerBound(bucket, r, Older);
    InsertAtBound(r, bucket, Older, position);
    grown := bucket[..position] + [r] + bucket[position..];
  }

  lemma PlacedKeys(owners: Owners, r: EvidenceRecord, grown: seq<EvidenceRecord>)
    ensures |grown| > PER_SUBJECT_RETENTION ==> Placed(owners, r, grown).1.Keys == owners.Keys + {r.id} - {grown[0].id}
    ensures |grown| <= PER_SUBJECT_RETENTION ==> Placed(owners, r, grown).1.Keys == owners.Keys + {r.id}
  {
  }

  lemma PlaceReady(buckets: Buckets, owners: Owners, accepted: seq<EvidenceRecord>, r: EvidenceRecord)
    requires Sound(buckets, owners, accepted) && r.id !in owners
    ensures var bucket := Bucket(buckets, r.subject);
            Sorted(bucket, Older) && forall x :: x in bucket ==> x.id != r.id
  {
    BucketNew(buckets, owners, r);
  }

  /** Places a record in its bucket; past the retention bound the oldest identity is given up. */
  method Place(buckets: Buckets, ghost owners: Owners, ghost accepted: seq<EvidenceRecord>, r: EvidenceRecord)
    returns (bucket: seq<EvidenceRecord>, gone: set<U64>, ghost owning: Owners)
    requires Sound(buckets, owners, accepted) && r.id !in owners
    ensures Sound(buckets[r.subject := bucket], owning, accepted + [r])
    ensures owning.Keys == owners.Keys + {r.id} - gone
    ensures gone <= owners.Keys + {r.id} && |gone| <= 1
  {
    PlaceReady(buckets, owners, accepted, r);
    bucket := InsertRecord(Bucket(buckets, r.subject), r);
    PlaceSound(buckets, owners, accepted, r, bucket);
    PlacedKeys(owners, r, bucket);
    owning := Placed(owners, r, bucket).1;
    gone := {};
    if |bucket| > PER_SUBJECT_RETENTION {
      gone := {bucket[0].id};
      bucket := bucket[1..];
    }
  }

  lemma TakeOut(all: set<U64>, gone: set<U64>)
    requires gone <= all
    ensures |all - gone| == |all| - |gone|
  {
    assert all == (all - gone) + gone;
  }

  class EvidenceStore {
    const maxRecords: nat
    var bySubject: Buckets
    var identities: set<U64>
    var total: nat
    var rejected: nat
    var evicted: nat
    /** Everything accepted so far, in order of arrival. */
    ghost var accepted: seq<EvidenceRecord>
    ghost var owners: Owners

    ghost predicate Valid()
      reads this
    {
      && Sound(bySubject, owners, accepted)
      && identities == owners.Keys
      && total == |identities|
      && total + evicted == |accepted|
    }

    constructor (maxRecords: nat)
      ensures Valid() && this.maxRecords == maxRecords && accepted == []
    {
      this.maxRecords := maxRecords;
      bySubject := map[];
      identities := {};
      total, rejected, evicted := 0, 0, 0;
      accepted, owners := [], map[];
    }

    method Admit(r: EvidenceRecord, now: U64) returns (outcome: Code)
      requires Valid()
      modifies this
      ensures Valid()
      ensures outcome ==
                if !Structured(r) then Code.Invalid
                else if !Licensed(r) then Code.Unsupported
                else if r.observedAt > now + FUTURE_SANITY_BOUND then Code.Invalid
                else if r.id in old(identities) then Code.AlreadyExists
                else if old(total) >= maxRecords then Code.Exhausted
                else Code.Ok
      ensures outcome == Code.Ok ==> accepted == old(accepted) + [r] && rejected == old(rejected)
      ensures outcome != Code.Ok ==>
                && accepted == old(accepted) && bySubject == old(bySubject) && identities == old(identities)
                && evicted == old(evicted) && rejected == old(rejected) + 1
    {
      if !Structured(r) {
        rejected := rejected + 1;
        return Code.Invalid;
      }
      if !Licensed(r) {
        rejected := rejected + 1;
        return Code.Unsupported;
      }
      if r.observedAt > now + FUTURE_SANITY_BOUND {
        rejected := rejected + 1;
        return Code.Invalid;
      }
      if r.id in identities {
        rejected := rejected + 1;
        return Code.AlreadyExists;
      }
      if total >= maxRecords {
        rejected := rejected + 1;
        return Code.Exhausted;
      }
      Accept(r);
      outcome := Code.Ok;
    }

    method Accept(r: EvidenceRecord)
      requires Valid() && r.id !in identities
      modifies this
      ensures Valid() && accepted == old(accepted) + [r] && rejected == old(rejected)
    {
      var bucket, gone, owning := Place(bySubject, owners, accepted, r);
      TakeOut(identities + {r.id}, gone);
      bySubject := bySubject[r.subject := bucket];
      identities := identities + {r.id} - gone;
      total := total + 1 - |gone|;
      evicted := evicted + |gone|;
      owners := owning;
      accepted := accepted + [r];
    }

    method ForSubject(subject: SwitchKey) returns (records: seq<EvidenceRecord>)
      requires Valid()
      ensures records == Admissions(OfSubject(accepted, subject), PER_SUBJECT_RETENTION)
    {
      records := Bucket(bySubject, subject);
    }
  }
}
