/**
 The table of supplied reconstruction alternatives (CandidateTable, src/plan/planner.cpp): its
 canonical order, the removal of duplicates, and the lookup by dependent.
 */
module Candidates {
  import opened Identity
  import opened Canonical
  import opened Topology
  import opened Evidence

  datatype ReconstructionCandidate = ReconstructionCandidate(
    dependent: DependentRef,
    coversFailed: SwitchKey,
    hops: seq<SwitchKey>,
    links: seq<U64>,
    cost: U32,
    capabilities: U64,
    evidence: U64,
    source: EvidenceSource)
  {
    predicate Valid() {
      && dependent.Valid() && coversFailed.Valid() && hops != [] && cost != 0
      && forall k :: 0 <= k < |hops| ==> hops[k].Valid()
    }
  }

  predicate IdLess(a: U64, b: U64) {
    a < b
  }

  predicate HopsLess(a: seq<SwitchKey>, b: seq<SwitchKey>) {
    SeqLess(a, b, KeyLess)
  }

  predicate LinksLess(a: seq<U64>, b: seq<U64>) {
    SeqLess(a, b, IdLess)
  }

  /** Cheapest first, then fewest hops, then the hops, links and capabilities themselves. */
  predicate ShapeLess(a: ReconstructionCandidate, b: ReconstructionCandidate) {
    if a.cost != b.cost then a.cost < b.cost
    else if |a.hops| != |b.hops| then |a.hops| < |b.hops|
    else if a.hops != b.hops then HopsLess(a.hops, b.hops)
    else if a.links != b.links then LinksLess(a.links, b.links)
    else a.capabilities < b.capabilities
  }

  predicate SameShape(a: ReconstructionCandidate, b: ReconstructionCandidate) {
    a.cost == b.cost && a.hops == b.hops && a.links == b.links && a.capabilities == b.capabilities
  }

  /** The order in which a planner considers the alternatives of one demand. */
  predicate PlanningLess(a: ReconstructionCandidate, b: ReconstructionCandidate) {
    if SameShape(a, b) then a.evidence < b.evidence else ShapeLess(a, b)
  }

  /** The same alternative: everything but its evidence and its source. */
  predicate Duplicate(a: ReconstructionCandidate, b: ReconstructionCandidate) {
    a.dependent == b.dependent && a.coversFailed == b.coversFailed && SameShape(a, b)
  }

  /** The table order, without its last key. */
  predicate GroupLess(a: ReconstructionCandidate, b: ReconstructionCandidate) {
    if a.dependent != b.dependent then DependentLess(a.dependent, b.dependent)
    else if !SameShape(a, b) then ShapeLess(a, b)
    else KeyLess(a.coversFailed, b.coversFailed)
  }

  lemma SequenceOrders()
    ensures TotalOrder(HopsLess) && TotalOrder(LinksLess)
  {
    KeyOrder();
    SeqOrder(KeyLess);
    assert TotalOrder(IdLess);
    SeqOrder(IdLess);
    var hops := (a: seq<SwitchKey>, b: seq<SwitchKey>) => SeqLess(a, b, KeyLess);
    assert forall a, b :: HopsLess(a, b) == hops(a, b);
    var links := (a: seq<U64>, b: seq<U64>) => SeqLess(a, b, IdLess);
    assert forall a, b :: LinksLess(a, b) == links(a, b);
  }

  lemma ShapeTotal(a: ReconstructionCandidate, b: ReconstructionCandidate)
    ensures !ShapeLess(a, a)
    ensures ShapeLess(a, b) || SameShape(a, b) || ShapeLess(b, a)
    ensures !(SameShape(a, b) && ShapeLess(a, b))
  {
    SequenceOrders();
  }

  lemma ShapeTransitive(a: ReconstructionCandidate, b: ReconstructionCandidate, c: ReconstructionCandidate)
    requires ShapeLess(a, b) && ShapeLess(b, c)
    ensures ShapeLess(a, c)
  {
    SequenceOrders();
  }

  lemma GroupTransitive(a: ReconstructionCandidate, b: ReconstructionCandidate, c: ReconstructionCandidate)
    requires GroupLess(a, b) && GroupLess(b, c)
    ensures GroupLess(a, c)
  {
    KeyOrder();
    DependentOrder();
    ShapeTotal(a, c);
    ShapeTotal(a, b);
    ShapeTotal(b, c);
    if ShapeLess(a, b) && ShapeLess(b, c) {
      ShapeTransitive(a, b, c);
    }
    ShapeCongruent(a, b, c);
  }

  lemma ShapeCongruent(a: ReconstructionCandidate, b: ReconstructionCandidate, c: ReconstructionCandidate)
    ensures SameShape(a, b) ==> ShapeLess(b, c) == ShapeLess(a, c)
    ensures SameShape(b, c) ==> ShapeLess(a, b) == ShapeLess(a, c)
  {
  }

  lemma GroupTotal(a: ReconstructionCandidate, b: ReconstructionCandidate)
    ensures GroupLess(a, b) || Duplicate(a, b) || GroupLess(b, a)
    ensures !(GroupLess(a, b) && (Duplicate(a, b) || GroupLess(b, a)))
  {
    KeyOrder();
    DependentOrder();
    ShapeTotal(a, b);
    if ShapeLess(a, b) && ShapeLess(b, a) {
      ShapeTransitive(a, b, a);
    }
  }

  // ---- The table ----

  /** Canonical order, with no alternative listed twice. */
  ghost predicate Table(table: seq<ReconstructionCandidate>) {
    && (forall i :: 0 <= i < |table| ==> table[i].Valid())
    && (forall i, j :: 0 <= i < j < |table| ==> GroupLess(table[i], table[j]))
  }

  /** Sorting followed by removing duplicates, one alternative at a time. */
  function Place(x: ReconstructionCandidate,
                 table: seq<ReconstructionCandidate>): (next: seq<ReconstructionCandidate>) {
    if table == [] then [x]
    else if Duplicate(x, table[0]) then [if x.evidence < table[0].evidence then x else table[0]] + table[1..]
    else if GroupLess(x, table[0]) then [x] + table
    else [table[0]] + Place(x, table[1..])
  }

  /** Represented by the same alternative, with evidence no later in the order. */
  ghost predicate Represented(x: ReconstructionCandidate, table: seq<ReconstructionCandidate>) {
    exists y :: y in table && Duplicate(y, x) && y.evidence <= x.evidence
  }

  lemma {:induction false} PlaceElements(x: ReconstructionCandidate, table: seq<ReconstructionCandidate>)
    ensures forall y :: y in Place(x, table) ==> y == x || y in table
    ensures Represented(x, Place(x, table))
    ensures forall y :: y in table ==> Represented(y, Place(x, table))
  {
    if table == [] {
      assert x in Place(x, table);
    } else {
      assert table == [table[0]] + table[1..];
      var next := Place(x, table);
      if Duplicate(x, table[0]) {
        assert next[0] in next;
        forall y | y in table
          ensures Represented(y, next)
        {
          if y != table[0] {
            assert y in next;
          }
        }
      } else if GroupLess(x, table[0]) {
        assert x in next;
        assert forall y :: y in table ==> y in next;
      } else {
        PlaceElements(x, table[1..]);
        assert next == [table[0]] + Place(x, table[1..]);
        PlaceUnder(x, table[1..], table[0]);
      }
    }
  }

  lemma PlaceUnder(x: ReconstructionCandidate, rest: seq<ReconstructionCandidate>, first: ReconstructionCandidate)
    requires Represented(x, Place(x, rest)) && forall y :: y in rest ==> Represented(y, Place(x, rest))
    ensures forall y :: y == x || y == first || y in rest ==> Represented(y, [first] + Place(x, rest))
  {
    var placed := Place(x, rest);
    forall y | y == x || y == first || y in rest
      ensures Represented(y, [first] + placed)
    {
      if y == x || y in rest {
        var z :| z in placed && Duplicate(z, y) && z.evidence <= y.evidence;
        assert z in [first] + placed;
      } else {
        assert first in [first] + placed;
      }
    }
  }

  lemma TableCons(first: ReconstructionCandidate, rest: seq<ReconstructionCandidate>)
    requires first.Valid() && Table(rest)
    requires forall k :: 0 <= k < |rest| ==> GroupLess(first, rest[k])
    ensures Table([first] + rest)
  {
  }

  lemma TableFirst(table: seq<ReconstructionCandidate>)
    requires Table(table) && table != []
    ensures Table(table[1..]) && forall y :: y in table[1..] ==> GroupLess(table[0], y)
  {
    forall y | y in table[1..]
      ensures GroupLess(table[0], y)
    {
      var k :| 0 <= k < |table[1..]| && table[1..][k] == y;
      assert table[k + 1] == y;
    }
  }

  lemma {:induction false} PlaceTable(x: ReconstructionCandidate, table: seq<ReconstructionCandidate>)
    requires x.Valid() && Table(table)
    ensures Table(Place(x, table))
  {
    if table != [] {
      var first, rest := table[0], table[1..];
      TableFirst(table);
      if Duplicate(x, first) {
        var kept := if x.evidence < first.evidence then x else first;
        forall y | y in rest
          ensures GroupLess(kept, y)
        {
          GroupCongruent(kept, first, y);
        }
        TableCons(kept, rest);
      } else if GroupLess(x, first) {
        forall y | y in rest
          ensures GroupLess(x, y)
        {
          GroupTransitive(x, first, y);
        }
        TableCons(x, table);
      } else {
        PlaceTable(x, rest);
        PlaceElements(x, rest);
        GroupTotal(x, first);
        TableCons(first, Place(x, rest));
      }
    }
  }

  lemma GroupCongruent(a: ReconstructionCandidate, b: ReconstructionCandidate, c: ReconstructionCandidate)
    requires Duplicate(a, b) && GroupLess(b, c)
    ensures GroupLess(a, c)
  {
  }

  datatype BuildResult = Built(table: seq<ReconstructionCandidate>) | Malformed | TooMany

  /** The canonical table of the supplied alternatives. */
  method BuildTable(supplied: seq<ReconstructionCandidate>, limit: nat) returns (result: BuildResult)
    ensures result.TooMany? <==> |supplied| > limit
    ensures result.Malformed? <==> |supplied| <= limit && exists i :: 0 <= i < |supplied| && !supplied[i].Valid()
    ensures result.Built? ==>
              && Table(result.table)
              && (forall y :: y in result.table ==> y in supplied)
              && (forall i :: 0 <= i < |supplied| ==> Represented(supplied[i], result.table))
  {
    if |supplied| > limit {
      return TooMany;
    }
    for i := 0 to |supplied|
      invariant forall j :: 0 <= j < i ==> supplied[j].Valid()
    {
      if !supplied[i].Valid() {
        return Malformed;
      }
    }
    var table: seq<ReconstructionCandidate> := [];
    for i := 0 to |supplied|
      invariant Table(table)
      invariant forall y :: y in table ==> y in supplied
      invariant forall j :: 0 <= j < i ==> Represented(supplied[j], table)
    {
      PlaceTable(supplied[i], table);
      PlaceRepresents(supplied, i, table);
      table := Place(supplied[i], table);
    }
    result := Built(table);
  }

  lemma PlaceRepresents(supplied: seq<ReconstructionCandidate>, i: nat, table: seq<ReconstructionCandidate>)
    requires i < |supplied| && forall y :: y in table ==> y in supplied
    requires forall j :: 0 <= j < i ==> Represented(supplied[j], table)
    ensures forall y :: y in Place(supplied[i], table) ==> y in supplied
    ensures forall j :: 0 <= j <= i ==> Represented(supplied[j], Place(supplied[i], table))
  {
    var next := Place(supplied[i], table);
    PlaceElements(supplied[i], table);
    forall j | 0 <= j < i
      ensures Represented(supplied[j], next)
    {
      RepresentedStill(supplied[i], table, supplied[j]);
    }
  }

  lemma RepresentedStill(c: ReconstructionCandidate, table: seq<ReconstructionCandidate>,
                         other: ReconstructionCandidate)
    requires Represented(other, table)
    ensures Represented(other, Place(c, table))
  {
    PlaceElements(c, table);
    var y :| y in table && Duplicate(y, other) && y.evidence <= other.evidence;
    assert Represented(y, Place(c, table));
    var z :| z in Place(c, table) && Duplicate(z, y) && z.evidence <= y.evidence;
    assert Duplicate(z, other);
  }

  // ---- Lookup ----

  function OfFirst(table: seq<ReconstructionCandidate>, n: nat,
                   dependent: DependentRef): (own: seq<ReconstructionCandidate>)
    requires n <= |table|
  {
    if n == 0 then []
    else OfFirst(table, n - 1, dependent) + if table[n - 1].dependent == dependent then [table[n - 1]] else []
  }

  /** Every alternative of one dependent, in table order. */
  function OfDependent(table: seq<ReconstructionCandidate>,
                       dependent: DependentRef): (own: seq<ReconstructionCandidate>) {
    OfFirst(table, |table|, dependent)
  }

  ghost predicate Range(table: seq<ReconstructionCandidate>, dependent: DependentRef, n: nat, low: nat, high: nat)
    requires n <= |table|
  {
    && low <= high <= n
    && (forall i :: 0 <= i < low || high <= i < n ==> table[i].dependent != dependent)
    && (forall i :: low <= i < high ==> table[i].dependent == dependent)
  }

  lemma {:induction false} OfFirstRange(table: seq<ReconstructionCandidate>, dependent: DependentRef, n: nat,
                                        low: nat, high: nat)
    requires n <= |table| && Range(table, dependent, n, low, high)
    ensures OfFirst(table, n, dependent) == table[low..high]
  {
    if n > 0 {
      if high == n && low < high {
        OfFirstRange(table, dependent, n - 1, low, n - 1);
        assert table[low..high] == table[low..n - 1] + [table[n - 1]];
      } else if low == n {
        OfFirstRange(table, dependent, n - 1, n - 1, n - 1);
      } else {
        OfFirstRange(table, dependent, n - 1, low, high);
      }
    }
  }

  /** The alternatives of one dependent are one stretch of the table. */
  lemma {:induction false} OfDependentRange(table: seq<ReconstructionCandidate>, dependent: DependentRef, n: nat)
    returns (low: nat, high: nat)
    requires Table(table) && n <= |table|
    ensures Range(table, dependent, n, low, high)
    ensures OfFirst(table, n, dependent) == table[low..high]
  {
    if n == 0 {
      return 0, 0;
    }
    low, high := OfDependentRange(table, dependent, n - 1);
    if table[n - 1].dependent == dependent {
      DependentOrder();
      if high < n - 1 {
        DependentsOrdered(table, high, n - 1);
        if low < high {
          DependentsOrdered(table, low, high);
        }
      }
      low, high := if low == high then n - 1 else low, n;
    }
    OfFirstRange(table, dependent, n, low, high);
  }

  lemma DependentsOrdered(table: seq<ReconstructionCandidate>, i: nat, j: nat)
    requires Table(table) && i < j < |table|
    ensures table[i].dependent == table[j].dependent || DependentLess(table[i].dependent, table[j].dependent)
  {
    assert GroupLess(table[i], table[j]);
  }

  /** The binary search and the scan of one dependent's alternatives. */
  method ForDependent(table: seq<ReconstructionCandidate>, dependent: DependentRef)
    returns (own: seq<ReconstructionCandidate>)
    requires Table(table)
    ensures own == OfDependent(table, dependent)
  {
    DependentOrder();
    var low, high := 0, |table|;
    while low < high
      invariant 0 <= low <= high <= |table|
      invariant forall i :: 0 <= i < low ==> DependentLess(table[i].dependent, dependent)
      invariant forall i :: high <= i < |table| ==> !DependentLess(table[i].dependent, dependent)
    {
      var middle := (low + high) / 2;
      forall i | 0 <= i < |table|
        ensures i < middle ==>
                  || table[i].dependent == table[middle].dependent
                  || DependentLess(table[i].dependent, table[middle].dependent)
        ensures middle < i ==>
                  || table[i].dependent == table[middle].dependent
                  || DependentLess(table[middle].dependent, table[i].dependent)
      {
        if i < middle {
          DependentsOrdered(table, i, middle);
        } else if middle < i {
          DependentsOrdered(table, middle, i);
        }
      }
      if DependentLess(table[middle].dependent, dependent) {
        low := middle + 1;
      } else {
        high := middle;
      }
    }
    var end := low;
    own := [];
    while end < |table| && table[end].dependent == dependent
      invariant low <= end <= |table|
      invariant forall i :: low <= i < end ==> table[i].dependent == dependent
      invariant own == table[low..end]
    {
      own := own + [table[end]];
      end := end + 1;
    }
    forall i | end <= i < |table|
      ensures table[i].dependent != dependent
    {
      if end < i {
        DependentsOrdered(table, end, i);
      }
    }
    OfFirstRange(table, dependent, |table|, low, end);
  }

  /** The alternatives of one dependent that cover one failed generation are in planning order. */
  lemma CoveringOrdered(table: seq<ReconstructionCandidate>, i: nat, j: nat)
    requires Table(table) && i < j < |table|
    requires table[i].dependent == table[j].dependent && table[i].coversFailed == table[j].coversFailed
    ensures PlanningLess(table[i], table[j])
    ensures table[i].cost < table[j].cost || (table[i].cost == table[j].cost && |table[i].hops| <= |table[j].hops|)
  {
    assert GroupLess(table[i], table[j]);
    KeyOrder();
    ShapeTotal(table[i], table[j]);
  }

  lemma PlanningOrder()
    ensures StrictOrder(PlanningLess)
  {
    forall a
      ensures !PlanningLess(a, a)
    {
      ShapeTotal(a, a);
    }
    forall a, b, c | PlanningLess(a, b) && PlanningLess(b, c)
      ensures PlanningLess(a, c)
    {
      ShapeTotal(a, b);
      ShapeTotal(b, c);
      ShapeTotal(a, c);
      ShapeCongruent(a, b, c);
      if ShapeLess(a, b) && ShapeLess(b, c) {
        ShapeTransitive(a, b, c);
      }
    }
  }

  /** One dependent's alternatives: exactly the table's, in its order. */
  lemma OfDependentMeans(table: seq<ReconstructionCandidate>, dependent: DependentRef)
    requires Table(table)
    ensures Table(OfDependent(table, dependent))
    ensures forall c :: c in OfDependent(table, dependent) <==> c in table && c.dependent == dependent
  {
    var low, high := OfDependentRange(table, dependent, |table|);
    var own := OfDependent(table, dependent);
    assert own == table[low..high];
    forall c | c in table && c.dependent == dependent
      ensures c in own
    {
      var i :| 0 <= i < |table| && table[i] == c;
      assert own[i - low] == c;
    }
  }
}
