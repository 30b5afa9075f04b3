/**
 Union-find over demand indices with path halving (class DisjointSet of
 src/plan/planning_core.cpp). Links always point to a smaller index, so every index has a root.
 */
module UnionFind {

  ghost predicate Forest(parent: seq<nat>) {
    forall i :: 0 <= i < |parent| ==> parent[i] <= i
  }

  ghost function Root(parent: seq<nat>, i: nat): (root: nat)
    requires Forest(parent) && i < |parent|
    ensures root <= i && parent[root] == root
    decreases i
  {
    if parent[i] == i then i else Root(parent, parent[i])
  }

  /** The same classes with the same roots. */
  ghost predicate SameForest(before: seq<nat>, after: seq<nat>)
    requires Forest(before) && Forest(after)
  {
    && |after| == |before|
    && forall i :: 0 <= i < |after| ==> Root(after, i) == Root(before, i)
  }

  /** Path halving leaves every root where it was. */
  lemma {:induction false} HalvingKeepsRoots(parent: seq<nat>, v: nat, i: nat)
    requires Forest(parent) && v < |parent| && i < |parent|
    ensures var halved := parent[v := parent[parent[v]]];
            Forest(halved) && Root(halved, i) == Root(parent, i)
    decreases i
  {
    var halved := parent[v := parent[parent[v]]];
    if halved[i] != i {
      HalvingKeepsRoots(parent, v, halved[i]);
    }
  }

  /** Linking one root below another merges exactly their two classes. */
  lemma {:induction false} LinkMerges(parent: seq<nat>, low: nat, high: nat, i: nat)
    requires Forest(parent) && low < high < |parent| && i < |parent|
    requires parent[low] == low && parent[high] == high
    ensures var linked := parent[high := low];
            Forest(linked) && Root(linked, i) == if Root(parent, i) == high then low else Root(parent, i)
    decreases i
  {
    if parent[i] != i {
      LinkMerges(parent, low, high, parent[i]);
    }
  }

  /** Exactly the classes of a and b are merged, under the smaller of their roots. */
  ghost predicate Merged(before: seq<nat>, after: seq<nat>, a: nat, b: nat)
    requires Forest(before) && Forest(after) && a < |before| && b < |before|
  {
    && |after| == |before|
    && var low, high := if Root(before, a) < Root(before, b) then Root(before, a) else Root(before, b),
                        if Root(before, a) < Root(before, b) then Root(before, b) else Root(before, a);
       forall i :: 0 <= i < |after| ==> Root(after, i) == if Root(before, i) == high then low else Root(before, i)
  }

  class DisjointSet {
    var parent: seq<nat>

    ghost predicate Valid()
      reads this
    {
      Forest(parent)
    }

    constructor (size: nat)
      ensures Valid() && |parent| == size
      ensures forall i :: 0 <= i < size ==> Root(parent, i) == i
    {
      parent := seq(size, i => i);
    }

    method Find(value: nat) returns (root: nat)
      requires Valid() && value < |parent|
      modifies this
      ensures Valid() && SameForest(old(parent), parent)
      ensures root == Root(parent, value)
    {
      root := value;
      while parent[root] != root
        invariant Valid() && SameForest(old(parent), parent)
        invariant root < |parent| && Root(parent, root) == Root(parent, value)
        decreases root
      {
        forall i | 0 <= i < |parent|
          ensures var halved := parent[root := parent[parent[root]]];
                  Forest(halved) && Root(halved, i) == Root(parent, i)
        {
          HalvingKeepsRoots(parent, root, i);
        }
        parent := parent[root := parent[parent[root]]];
        root := parent[root];
      }
    }

    /** Merges two classes under the smaller of their roots. */
    method Unite(a: nat, b: nat)
      requires Valid() && a < |parent| && b < |parent|
      modifies this
      ensures Valid()
      ensures Merged(old(parent), parent, a, b)
    {
      var rootA := Find(a);
      var rootB := Find(b);
      if rootA == rootB {
        return;
      }
      var low, high := rootA, rootB;
      if rootB < rootA {
        low, high := rootB, rootA;
      }
      forall i | 0 <= i < |parent|
        ensures Forest(parent[high := low])
        ensures Root(parent[high := low], i) == if Root(parent, i) == high then low else Root(parent, i)
      {
        LinkMerges(parent, low, high, i);
      }
      parent := parent[high := low];
    }
  }
}
