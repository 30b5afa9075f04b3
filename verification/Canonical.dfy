/**
 Canonical sequences: the sorted, duplicate-free vectors that the code builds with a sort followed
 by the removal of equal neighbours. A canonical sequence is determined by its elements.
 */
module Canonical {

  ghost predicate StrictOrder<T(!new)>(less: (T, T) -> bool) {
    && (forall a :: !less(a, a))
    && (forall a, b, c :: less(a, b) && less(b, c) ==> less(a, c))
  }

  /** Some keys leave part of an element out; then only elements with distinct keys are comparable. */
  ghost predicate Comparable<T(!new)>(items: seq<T>, less: (T, T) -> bool) {
    forall a, b :: a in items && b in items ==> less(a, b) || a == b || less(b, a)
  }

  ghost predicate TotalOrder<T(!new)>(less: (T, T) -> bool) {
    && StrictOrder(less)
    && (forall a, b :: less(a, b) || a == b || less(b, a))
  }

  predicate Sorted<T>(items: seq<T>, less: (T, T) -> bool) {
    forall i, j :: 0 <= i < j < |items| ==> less(items[i], items[j])
  }

  function Elements<T(!new)>(items: seq<T>): (elements: set<T>)
    ensures forall x :: x in elements <==> x in items
  {
    set x | x in items
  }

  function Insert<T(==, !new)>(x: T, items: seq<T>, less: (T, T) -> bool): (out: seq<T>)
    ensures forall y :: y in out <==> y == x || y in items
  {
    if items == [] then [x]
    else if x == items[0] then items
    else if less(x, items[0]) then [x] + items
    else
      var rest := Insert(x, items[1..], less);
      assert items == [items[0]] + items[1..];
      [items[0]] + rest
  }

  /** The sorted, duplicate-free listing of the given items. */
  function List<T(==, !new)>(items: seq<T>, less: (T, T) -> bool): (out: seq<T>)
    ensures forall y :: y in out <==> y in items
  {
    if items == [] then []
    else
      assert items == items[..|items| - 1] + [items[|items| - 1]];
      Insert(items[|items| - 1], List(items[..|items| - 1], less), less)
  }

  lemma {:induction false} InsertSorted<T(!new)>(x: T, items: seq<T>, less: (T, T) -> bool)
    requires StrictOrder(less) && Sorted(items, less)
    requires forall y :: y in items ==> less(x, y) || x == y || less(y, x)
    ensures Sorted(Insert(x, items, less), less)
  {
    if items != [] && x != items[0] && !less(x, items[0]) {
      InsertSorted(x, items[1..], less);
      var rest := Insert(x, items[1..], less);
      forall j | 0 <= j < |rest|
        ensures less(items[0], rest[j])
      {
        assert rest[j] in rest;
        if rest[j] != x {
          var k :| 0 <= k < |items[1..]| && items[1..][k] == rest[j];
          assert items[k + 1] == rest[j];
        }
      }
    }
  }

  lemma {:induction false} ListSorted<T(!new)>(items: seq<T>, less: (T, T) -> bool)
    requires StrictOrder(less) && Comparable(items, less)
    ensures Sorted(List(items, less), less)
  {
    if items != [] {
      var last := |items| - 1;
      assert items == items[..last] + [items[last]];
      ListSorted(items[..last], less);
      InsertSorted(items[|items| - 1], List(items[..|items| - 1], less), less);
    }
  }

  lemma SortedMinimum<T(!new)>(a: seq<T>, b: seq<T>, less: (T, T) -> bool)
    requires StrictOrder(less) && Sorted(a, less) && Sorted(b, less)
    requires a != [] && b != []
    requires forall x :: x in a <==> x in b
    ensures a[0] == b[0]
  {
    assert a[0] in b && b[0] in a;
    var i :| 0 <= i < |a| && a[i] == b[0];
    var j :| 0 <= j < |b| && b[j] == a[0];
  }

  lemma SortedTail<T(!new)>(a: seq<T>, less: (T, T) -> bool)
    requires StrictOrder(less) && Sorted(a, less) && a != []
    ensures Sorted(a[1..], less)
    ensures forall x :: x in a[1..] <==> x in a && x != a[0]
  {
    forall x | x in a && x != a[0]
      ensures x in a[1..]
    {
      var i :| 0 <= i < |a| && a[i] == x;
      assert a[1..][i - 1] == x;
    }
    forall x | x in a[1..]
      ensures x in a && x != a[0]
    {
      var i :| 0 <= i < |a[1..]| && a[1..][i] == x;
      assert a[i + 1] == x && less(a[0], a[i + 1]);
    }
  }

  /** A canonical sequence is determined by its elements: building one is order-independent. */
  lemma {:induction false} SortedUnique<T(!new)>(a: seq<T>, b: seq<T>, less: (T, T) -> bool)
    requires StrictOrder(less) && Sorted(a, less) && Sorted(b, less)
    requires forall x :: x in a <==> x in b
    ensures a == b
  {
    if b != [] {
      assert b[0] in a;
    }
    if a != [] {
      assert a[0] in b;
      SortedMinimum(a, b, less);
      SortedTail(a, less);
      SortedTail(b, less);
      SortedUnique(a[1..], b[1..], less);
      assert a == [a[0]] + a[1..] && b == [b[0]] + b[1..];
    }
  }

  /** A sorted sequence has no repeated element, so its length is the number of its elements. */
  lemma {:induction false} SortedLength<T(!new)>(a: seq<T>, less: (T, T) -> bool)
    requires StrictOrder(less) && Sorted(a, less)
    ensures |Elements(a)| == |a|
  {
    if a != [] {
      SortedTail(a, less);
      SortedLength(a[1..], less);
      assert Elements(a) == {a[0]} + Elements(a[1..]);
    }
  }

  /** Listing any items gives the canonical sequence of the same elements. */
  lemma ListUnique<T(!new)>(items: seq<T>, sorted: seq<T>, less: (T, T) -> bool)
    requires StrictOrder(less) && Sorted(sorted, less) && Comparable(items, less)
    requires forall x :: x in items <==> x in sorted
    ensures List(items, less) == sorted
  {
    ListSorted(items, less);
    SortedUnique(List(items, less), sorted, less);
  }

  lemma {:induction false} InsertLength<T(!new)>(x: T, items: seq<T>, less: (T, T) -> bool)
    ensures |Insert(x, items, less)| <= |items| + 1
  {
    if items != [] {
      InsertLength(x, items[1..], less);
    }
  }

  lemma {:induction false} ListLength<T(!new)>(items: seq<T>, less: (T, T) -> bool)
    ensures |List(items, less)| <= |items|
  {
    if items != [] {
      ListLength(items[..|items| - 1], less);
      InsertLength(items[|items| - 1], List(items[..|items| - 1], less), less);
    }
  }

  /** The position at which a binary search stops: the first element not below the probe. */
  method LowerBound<T(==, !new)>(items: seq<T>, probe: T, less: (T, T) -> bool) returns (position: nat)
    requires StrictOrder(less) && Sorted(items, less)
    ensures position <= |items|
    ensures forall i :: 0 <= i < position ==> less(items[i], probe)
    ensures forall i :: position <= i < |items| ==> !less(items[i], probe)
  {
    var low, high := 0, |items|;
    while low < high
      invariant 0 <= low <= high <= |items|
      invariant forall i :: 0 <= i < low ==> less(items[i], probe)
      invariant forall i :: high <= i < |items| ==> !less(items[i], probe)
    {
      var middle := (low + high) / 2;
      if less(items[middle], probe) {
        forall i | 0 <= i <= middle
          ensures less(items[i], probe)
        {
          assert i < middle ==> less(items[i], items[middle]);
        }
        low := middle + 1;
      } else {
        forall i | middle <= i < |items|
          ensures !less(items[i], probe)
        {
          assert i > middle ==> less(items[middle], items[i]);
        }
        high := middle;
      }
    }
    position := low;
  }

  /** Inserting a new element where the binary search stops keeps the canonical order. */
  lemma InsertAtBound<T(!new)>(x: T, items: seq<T>, less: (T, T) -> bool, position: nat)
    requires StrictOrder(less) && Sorted(items, less) && position <= |items|
    requires x !in items && forall y :: y in items ==> less(x, y) || less(y, x)
    requires forall i :: 0 <= i < position ==> less(items[i], x)
    requires forall i :: position <= i < |items| ==> !less(items[i], x)
    ensures Insert(x, items, less) == items[..position] + [x] + items[position..]
  {
    InsertSorted(x, items, less);
    forall i | position <= i < |items|
      ensures less(x, items[i])
    {
      assert items[i] in items;
    }
    PlacedSorted(x, items, less, position);
    PlacedElements(x, items, position);
    SortedUnique(Insert(x, items, less), items[..position] + [x] + items[position..], less);
  }

  lemma PlacedElements<T(!new)>(x: T, items: seq<T>, position: nat)
    requires position <= |items|
    ensures forall y :: y in items[..position] + [x] + items[position..] <==> y == x || y in items
  {
    assert items == items[..position] + items[position..];
  }

  lemma PlacedSorted<T(!new)>(x: T, items: seq<T>, less: (T, T) -> bool, position: nat)
    requires Sorted(items, less) && position <= |items|
    requires forall i :: 0 <= i < position ==> less(items[i], x)
    requires forall i :: position <= i < |items| ==> less(x, items[i])
    ensures Sorted(items[..position] + [x] + items[position..], less)
  {
  }

  /** The index of an element, or the length when it is absent. */
  function IndexOf<T(==)>(items: seq<T>, probe: T): (index: nat)
    ensures index <= |items|
    ensures index < |items| ==> items[index] == probe
    ensures index == |items| ==> probe !in items
  {
    if items == [] then 0
    else if items[0] == probe then 0
    else
      assert items == [items[0]] + items[1..];
      1 + IndexOf(items[1..], probe)
  }

  lemma BoundIsIndex<T(!new)>(items: seq<T>, probe: T, less: (T, T) -> bool, position: nat)
    requires StrictOrder(less) && Sorted(items, less) && position <= |items|
    requires forall i :: 0 <= i < position ==> less(items[i], probe)
    requires forall i :: position <= i < |items| ==> !less(items[i], probe)
    ensures IndexOf(items, probe) == if position < |items| && items[position] == probe then position else |items|
  {
    var expected := IndexOf(items, probe);
    if expected < |items| {
      assert position <= expected;
      assert !less(items[position], items[expected]);
      assert position == expected;
    }
  }

  /** Binary search in a canonical sequence finds exactly the element, whatever else is in it. */
  method Find<T(==, !new)>(items: seq<T>, probe: T, less: (T, T) -> bool) returns (index: nat)
    requires StrictOrder(less) && Sorted(items, less)
    ensures index == IndexOf(items, probe)
  {
    index := LowerBound(items, probe, less);
    BoundIsIndex(items, probe, less, index);
    if index == |items| || items[index] != probe {
      index := |items|;
    }
  }

  lemma TakeNext<T>(items: seq<T>, k: nat)
    requires k < |items|
    ensures items[..k + 1] == items[..k] + [items[k]]
  {
  }

  // ---- Lexicographic order of sequences ----

  predicate SeqLess<T(==)>(a: seq<T>, b: seq<T>, less: (T, T) -> bool) {
    if b == [] then false
    else if a == [] then true
    else if a[0] == b[0] then SeqLess(a[1..], b[1..], less)
    else less(a[0], b[0])
  }

  lemma {:induction false} SeqLessIrreflexive<T(!new)>(a: seq<T>, less: (T, T) -> bool)
    ensures !SeqLess(a, a, less)
  {
    if a != [] {
      SeqLessIrreflexive(a[1..], less);
    }
  }

  lemma {:induction false} SeqLessTotal<T(!new)>(a: seq<T>, b: seq<T>, less: (T, T) -> bool)
    requires TotalOrder(less)
    ensures SeqLess(a, b, less) || a == b || SeqLess(b, a, less)
  {
    if a != [] && b != [] && a[0] == b[0] {
      SeqLessTotal(a[1..], b[1..], less);
      assert a == [a[0]] + a[1..] && b == [b[0]] + b[1..];
    }
  }

  lemma {:induction false} SeqLessTransitive<T(!new)>(a: seq<T>, b: seq<T>, c: seq<T>, less: (T, T) -> bool)
    requires StrictOrder(less) && SeqLess(a, b, less) && SeqLess(b, c, less)
    ensures SeqLess(a, c, less)
  {
    if a != [] && a[0] == b[0] == c[0] {
      SeqLessTransitive(a[1..], b[1..], c[1..], less);
    }
  }

  lemma SeqOrder<T(!new)>(less: (T, T) -> bool)
    requires TotalOrder(less)
    ensures TotalOrder((a: seq<T>, b: seq<T>) => SeqLess(a, b, less))
  {
    forall a: seq<T>, b: seq<T>
      ensures !SeqLess(a, a, less) && (SeqLess(a, b, less) || a == b || SeqLess(b, a, less))
    {
      SeqLessIrreflexive(a, less);
      SeqLessTotal(a, b, less);
    }
    forall a: seq<T>, b: seq<T>, c: seq<T> | SeqLess(a, b, less) && SeqLess(b, c, less)
      ensures SeqLess(a, c, less)
    {
      SeqLessTransitive(a, b, c, less);
    }
  }
}
