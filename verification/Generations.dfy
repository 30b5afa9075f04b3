/**
 Generation vectors (src/model/generation.cpp): canonical lists of generation-qualified keys. The
 rest of the model reads a vector as the set of its keys; this is what makes that sound.
 */
module Generations {
  import opened Identity
  import opened Canonical
  import opened Topology

  class GenerationVector {
    var keys: seq<SwitchKey>

    constructor ()
      ensures Valid() && keys == []
    {
      keys := [];
    }

    ghost predicate Valid()
      reads this
    {
      Sorted(keys, KeyLess) && forall k :: k in keys ==> k.Valid()
    }

    /** Adds a qualified key once, in its place. */
    method Insert(key: SwitchKey) returns (added: bool)
      requires Valid()
      modifies this
      ensures Valid()
      ensures added <==> key.Valid() && key !in old(keys)
      ensures Elements(keys) == if key.Valid() then Elements(old(keys)) + {key} else Elements(old(keys))
    {
      if !key.Valid() {
        return false;
      }
      KeyOrder();
      var position := LowerBound(keys, key, KeyLess);
      BoundIsIndex(keys, key, KeyLess, position);
      if position < |keys| && keys[position] == key {
        assert Elements(keys) == Elements(keys) + {key};
        return false;
      }
      InsertAtBound(key, keys, KeyLess, position);
      InsertSorted(key, keys, KeyLess);
      keys := keys[..position] + [key] + keys[position..];
      assert Elements(keys) == Elements(old(keys)) + {key};
      added := true;
    }
  }

  /** Everything before the two cursors has been ruled out. */
  ghost predicate RuledOut(a: seq<SwitchKey>, b: seq<SwitchKey>, left: nat, right: nat) {
    forall i, j :: 0 <= i < |a| && 0 <= j < |b| && (i < left || j < right) ==> a[i] != b[j]
  }

  lemma RuleOutLeft(a: seq<SwitchKey>, b: seq<SwitchKey>, left: nat, right: nat)
    requires Sorted(b, KeyLess) && left < |a| && right < |b|
    requires RuledOut(a, b, left, right) && KeyLess(a[left], b[right])
    ensures RuledOut(a, b, left + 1, right)
  {
    KeyOrder();
    forall j | right <= j < |b|
      ensures a[left] != b[j]
    {
      assert right < j ==> KeyLess(b[right], b[j]);
    }
  }

  /** The two-cursor walk over two canonical lists. */
  method Intersects(a: seq<SwitchKey>, b: seq<SwitchKey>) returns (common: bool)
    requires Sorted(a, KeyLess) && Sorted(b, KeyLess)
    ensures common <==> Elements(a) * Elements(b) != {}
  {
    KeyOrder();
    var left, right := 0, 0;
    while left < |a| && right < |b|
      invariant left <= |a| && right <= |b| && RuledOut(a, b, left, right)
      decreases |a| - left + |b| - right
    {
      if a[left] == b[right] {
        assert a[left] in Elements(a) * Elements(b);
        return true;
      }
      if KeyLess(a[left], b[right]) {
        RuleOutLeft(a, b, left, right);
        left := left + 1;
      } else {
        RuledOutSwap(a, b, left, right);
        RuleOutLeft(b, a, right, left);
        RuledOutSwap(b, a, right + 1, left);
        right := right + 1;
      }
    }
    assert Elements(a) * Elements(b) == {};
    common := false;
  }

  lemma RuledOutSwap(a: seq<SwitchKey>, b: seq<SwitchKey>, left: nat, right: nat)
    requires RuledOut(a, b, left, right)
    ensures RuledOut(b, a, right, left)
  {
  }
}
