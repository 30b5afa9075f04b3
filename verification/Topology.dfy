/**
 Topology snapshots and the dependency closure of failed generations (src/model/topology.cpp).

 The descriptor vectors, sorted by key and searched by key, are maps here. Digests are left out.
 */
module Topology {
  import opened Identity
  import opened Canonical
  import opened Traversal

  // ---- Entities ----

  datatype ClosureNode = SwitchNode(key: SwitchKey) | DependentNode(dependent: DependentRef) {
    predicate Valid() {
      if SwitchNode? then key.Valid() else dependent.Valid()
    }
  }

  /** `from` depends on `to`: losing `to` invalidates `from`. */
  datatype DependencyEdge = DependencyEdge(from: ClosureNode, to: ClosureNode)

  datatype SwitchDescriptor = SwitchDescriptor(key: SwitchKey, failureDomain: U64, capabilities: U64,
                                               capacityScore: U32)

  datatype LinkDescriptor = LinkDescriptor(id: U64, a: SwitchKey, b: SwitchKey)

  datatype PathDescriptor = PathDescriptor(id: U64, hops: seq<SwitchKey>, links: seq<U64>, requiredCapabilities: U64)

  datatype TopologySnapshot = TopologySnapshot(
    switches: map<SwitchKey, SwitchDescriptor>,
    links: map<U64, LinkDescriptor>,
    paths: map<U64, PathDescriptor>,
    edges: set<DependencyEdge>,
    nodes: seq<ClosureNode>,
    reverse: seq<seq<ClosureNode>>,
    limits: Budget)

  predicate NodeLess(a: ClosureNode, b: ClosureNode) {
    match (a, b)
    case (SwitchNode(k), SwitchNode(l)) => KeyLess(k, l)
    case (SwitchNode(_), DependentNode(_)) => true
    case (DependentNode(_), SwitchNode(_)) => false
    case (DependentNode(d), DependentNode(e)) => DependentLess(d, e)
  }

  lemma DependentOrder()
    ensures TotalOrder(DependentLess)
  {
  }

  lemma KeyOrder()
    ensures TotalOrder(KeyLess)
  {
  }

  lemma NodeOrder()
    ensures TotalOrder(NodeLess)
  {
  }

  // ---- The descriptor tables ----

  /** The maps hold exactly the listed descriptors, each under its own key. */
  ghost predicate SwitchTable(t: TopologySnapshot, switches: seq<SwitchDescriptor>) {
    && (forall i :: 0 <= i < |switches| ==> switches[i].key in t.switches && t.switches[switches[i].key] == switches[i])
    && (forall k :: k in t.switches ==> t.switches[k] in switches && t.switches[k].key == k)
  }

  ghost predicate LinkTable(t: TopologySnapshot, links: seq<LinkDescriptor>) {
    && (forall i :: 0 <= i < |links| ==> links[i].id in t.links && t.links[links[i].id] == links[i])
    && (forall k :: k in t.links ==> t.links[k] in links && t.links[k].id == k)
  }

  ghost predicate PathTable(t: TopologySnapshot, paths: seq<PathDescriptor>) {
    && (forall i :: 0 <= i < |paths| ==> paths[i].id in t.paths && t.paths[paths[i].id] == paths[i])
    && (forall k :: k in t.paths ==> t.paths[k] in paths && t.paths[k].id == k)
  }

  // ---- The reverse index ----

  /** The node table is canonical and the reverse index lists, for each node, what depends on it. */
  ghost predicate Valid(t: TopologySnapshot) {
    && Sorted(t.nodes, NodeLess)
    && |t.reverse| == |t.nodes|
    && (forall i :: 0 <= i < |t.nodes| ==> t.nodes[i].Valid() && Lists(t, i))
    && (forall e :: e in t.edges ==> e.from in t.nodes && e.to in t.nodes)
    && (forall k :: k in t.switches ==> SwitchNode(k) in t.nodes && t.switches[k].key == k)
  }

  ghost predicate Lists(t: TopologySnapshot, i: nat)
    requires i < |t.nodes| == |t.reverse|
  {
    && Sorted(t.reverse[i], NodeLess)
    && forall x :: x in t.reverse[i] <==> DependencyEdge(x, t.nodes[i]) in t.edges
  }

  function Positions(nodes: seq<ClosureNode>, wanted: seq<ClosureNode>): (positions: seq<nat>)
    ensures |positions| == |wanted|
    ensures forall k :: 0 <= k < |wanted| ==> positions[k] == IndexOf(nodes, wanted[k])
  {
    seq(|wanted|, k requires 0 <= k < |wanted| => IndexOf(nodes, wanted[k]))
  }

  /** The reverse index as a graph on node positions. */
  function Indexed(t: TopologySnapshot): (graph: Graph)
    ensures |graph| == |t.reverse|
    ensures forall i :: 0 <= i < |graph| ==> graph[i] == Positions(t.nodes, t.reverse[i])
  {
    seq(|t.reverse|, i requires 0 <= i < |t.reverse| => Positions(t.nodes, t.reverse[i]))
  }

  // ---- What a failure invalidates ----

  /** A chain of dependencies from a node down to something that, step by step, depends on it. */
  ghost predicate Chain(t: TopologySnapshot, chain: seq<ClosureNode>) {
    && |chain| > 0
    && forall k :: 0 <= k < |chain| - 1 ==> DependencyEdge(chain[k + 1], chain[k]) in t.edges
  }

  ghost predicate Invalidates(t: TopologySnapshot, root: ClosureNode, x: ClosureNode) {
    exists chain :: Chain(t, chain) && chain[0] == root && chain[|chain| - 1] == x
  }

  lemma SortedPosition(nodes: seq<ClosureNode>, i: nat)
    requires Sorted(nodes, NodeLess) && i < |nodes|
    ensures IndexOf(nodes, nodes[i]) == i
  {
    NodeOrder();
    var j := IndexOf(nodes, nodes[i]);
    assert nodes[i] in nodes;
  }

  lemma EdgeMeans(t: TopologySnapshot, i: nat, j: nat)
    requires Valid(t) && i < |t.nodes| && j < |t.nodes|
    ensures Edge(Indexed(t), i, j) <==> DependencyEdge(t.nodes[j], t.nodes[i]) in t.edges
  {
    var positions := Positions(t.nodes, t.reverse[i]);
    assert Lists(t, i);
    SortedPosition(t.nodes, j);
    if j in positions {
      var k :| 0 <= k < |positions| && positions[k] == j;
      assert t.reverse[i][k] == t.nodes[j];
    }
    if t.nodes[j] in t.reverse[i] {
      var k :| 0 <= k < |t.reverse[i]| && t.reverse[i][k] == t.nodes[j];
      assert positions[k] == j;
    }
  }

  lemma {:induction false} WalkIsChain(t: TopologySnapshot, walk: seq<nat>)
    requires Valid(t) && Walk(Indexed(t), walk)
    ensures Invalidates(t, t.nodes[walk[0]], t.nodes[walk[|walk| - 1]])
  {
    var chain := seq(|walk|, k requires 0 <= k < |walk| => t.nodes[walk[k]]);
    forall k | 0 <= k < |chain| - 1
      ensures DependencyEdge(chain[k + 1], chain[k]) in t.edges
    {
      assert Edge(Indexed(t), walk[k], walk[k + 1]);
      EdgeMeans(t, walk[k], walk[k + 1]);
    }
    assert Chain(t, chain);
  }

  lemma ChainIsWalk(t: TopologySnapshot, chain: seq<ClosureNode>)
    requires Valid(t) && Chain(t, chain) && chain[0] in t.nodes
    ensures chain[|chain| - 1] in t.nodes
    ensures Reachable(Indexed(t), {IndexOf(t.nodes, chain[0])}, IndexOf(t.nodes, chain[|chain| - 1]))
  {
    forall k | 0 <= k < |chain|
      ensures chain[k] in t.nodes
    {
      if k > 0 {
        assert DependencyEdge(chain[k - 1 + 1], chain[k - 1]) in t.edges;
      }
    }
    var walk := Positions(t.nodes, chain);
    forall k | 0 <= k < |walk| - 1
      ensures Edge(Indexed(t), walk[k], walk[k + 1])
    {
      assert DependencyEdge(chain[k + 1], chain[k]) in t.edges;
      EdgeMeans(t, walk[k], walk[k + 1]);
    }
    assert Walk(Indexed(t), walk);
  }

  /** Reachability on positions is exactly invalidation on nodes. */
  lemma ReachMeans(t: TopologySnapshot, roots: set<nat>, j: nat)
    requires Valid(t) && j < |t.nodes| && forall i :: i in roots ==> i < |t.nodes|
    ensures j in Reach(Indexed(t), roots) <==> exists i :: i in roots && Invalidates(t, t.nodes[i], t.nodes[j])
  {
    var graph := Indexed(t);
    if j in Reach(graph, roots) {
      var walk :| Walk(graph, walk) && walk[0] in roots && walk[|walk| - 1] == j;
      WalkIsChain(t, walk);
    }
    forall i | i in roots && Invalidates(t, t.nodes[i], t.nodes[j])
      ensures j in Reach(graph, roots)
    {
      var chain :| Chain(t, chain) && chain[0] == t.nodes[i] && chain[|chain| - 1] == t.nodes[j];
      ChainIsWalk(t, chain);
      SortedPosition(t.nodes, i);
      SortedPosition(t.nodes, j);
      ReachMonotone(graph, {i}, roots);
    }
  }

  lemma AbsentInvalidatesItself(t: TopologySnapshot, root: ClosureNode, x: ClosureNode)
    requires Valid(t) && root !in t.nodes
    ensures Invalidates(t, root, x) <==> x == root
  {
    if x == root {
      assert Chain(t, [root]);
    }
    if Invalidates(t, root, x) {
      var chain :| Chain(t, chain) && chain[0] == root && chain[|chain| - 1] == x;
      assert |chain| > 1 ==> DependencyEdge(chain[0 + 1], chain[0]) in t.edges;
    }
  }
}
