/**
 Building the node table and the reverse index of a snapshot from its descriptors and explicit
 dependencies (the last half of TopologySnapshot::build, src/model/topology.cpp).
 */
module TopologyIndex {
  import opened Identity
  import opened Canonical
  import opened Traversal
  import opened Topology

  datatype Built = Built(snapshot: TopologySnapshot) | Unqualified | TooManyNodes

  /** A link depends on both of its endpoint generations. */
  function LinkEdges(link: LinkDescriptor): (edges: seq<DependencyEdge>) {
    var node := DependentNode(DependentRef(Link, link.id));
    [DependencyEdge(node, SwitchNode(link.a)), DependencyEdge(node, SwitchNode(link.b))]
  }

  /** A path depends on its hops and its links. */
  function PathEdges(path: PathDescriptor): (edges: seq<DependencyEdge>) {
    var node := DependentNode(DependentRef(Path, path.id));
    seq(|path.hops|, k requires 0 <= k < |path.hops| => DependencyEdge(node, SwitchNode(path.hops[k])))
    + seq(|path.links|, k requires 0 <= k < |path.links| => DependencyEdge(node,
                                                                           DependentNode(DependentRef(Link,
                                                                                                      path.links[k]))))
  }

  /** The descriptors the first half of the build accepts. */
  ghost predicate Accepted(switches: seq<SwitchDescriptor>, links: seq<LinkDescriptor>, paths: seq<PathDescriptor>) {
    && (forall i :: 0 <= i < |switches| ==> switches[i].key.Valid())
    && (forall i, j :: 0 <= i < j < |switches| ==> switches[i].key != switches[j].key)
    && (forall i :: 0 <= i < |links| ==> links[i].id != 0 && links[i].a.Valid() && links[i].b.Valid())
    && (forall i, j :: 0 <= i < j < |links| ==> links[i].id != links[j].id)
    && (forall i :: 0 <= i < |paths| ==> paths[i].id != 0 && PathAccepted(paths[i]))
    && (forall i, j :: 0 <= i < j < |paths| ==> paths[i].id != paths[j].id)
  }

  ghost predicate PathAccepted(path: PathDescriptor) {
    && (forall k :: 0 <= k < |path.hops| ==> path.hops[k].Valid())
    && (forall k :: 0 <= k < |path.links| ==> path.links[k] != 0)
  }

  /** Exactly the dependencies the descriptors imply, and those supplied. */
  ghost predicate Declared(e: DependencyEdge, links: seq<LinkDescriptor>, paths: seq<PathDescriptor>,
                           supplied: seq<DependencyEdge>) {
    || (exists i :: 0 <= i < |links| && e in LinkEdges(links[i]))
    || (exists i :: 0 <= i < |paths| && e in PathEdges(paths[i]))
    || e in supplied
  }

  predicate Qualified(e: DependencyEdge) {
    e.from.Valid() && e.to.Valid()
  }

  lemma PathEdgesQualified(path: PathDescriptor)
    requires path.id != 0 && PathAccepted(path)
    ensures forall e :: e in PathEdges(path) ==> Qualified(e)
  {
  }

  method CollectEdges(links: seq<LinkDescriptor>, paths: seq<PathDescriptor>, supplied: seq<DependencyEdge>)
    returns (ok: bool, edges: seq<DependencyEdge>)
    requires forall i :: 0 <= i < |links| ==> links[i].id != 0 && links[i].a.Valid() && links[i].b.Valid()
    requires forall i :: 0 <= i < |paths| ==> paths[i].id != 0 && PathAccepted(paths[i])
    ensures ok <==> forall i :: 0 <= i < |supplied| ==> Qualified(supplied[i])
    ensures ok ==> forall e :: e in edges ==> Qualified(e)
    ensures ok ==> forall e :: e in edges <==> Declared(e, links, paths, supplied)
  {
    edges := [];
    for i := 0 to |links|
      invariant forall e :: e in edges ==> Qualified(e)
      invariant forall e :: e in edges <==> exists j :: 0 <= j < i && e in LinkEdges(links[j])
    {
      edges := edges + LinkEdges(links[i]);
    }
    for i := 0 to |paths|
      invariant forall e :: e in edges ==> Qualified(e)
      invariant forall e :: e in edges <==>
                  || (exists j :: 0 <= j < |links| && e in LinkEdges(links[j]))
                  || (exists j :: 0 <= j < i && e in PathEdges(paths[j]))
    {
      PathEdgesQualified(paths[i]);
      edges := edges + PathEdges(paths[i]);
    }
    for i := 0 to |supplied|
      invariant forall j :: 0 <= j < i ==> Qualified(supplied[j])
      invariant forall e :: e in edges ==> Qualified(e)
      invariant forall e :: e in edges <==> Declared(e, links, paths, supplied[..i])
    {
      if !Qualified(supplied[i]) {
        return false, edges;
      }
      assert supplied[..i + 1] == supplied[..i] + [supplied[i]];
      edges := edges + [supplied[i]];
    }
    assert supplied[..|supplied|] == supplied;
    ok := true;
  }

  /** A node of the table: a declared switch, path or link, or an end of a dependency. */
  ghost predicate Named(x: ClosureNode, switches: seq<SwitchDescriptor>, links: seq<LinkDescriptor>,
                        paths: seq<PathDescriptor>, edges: seq<DependencyEdge>) {
    || (exists i :: 0 <= i < |switches| && x == SwitchNode(switches[i].key))
    || (exists i :: 0 <= i < |paths| && x == DependentNode(DependentRef(Path, paths[i].id)))
    || (exists i :: 0 <= i < |links| && x == DependentNode(DependentRef(Link, links[i].id)))
    || (exists i :: 0 <= i < |edges| && (x == edges[i].from || x == edges[i].to))
  }

  method CollectNodes(switches: seq<SwitchDescriptor>, links: seq<LinkDescriptor>, paths: seq<PathDescriptor>,
                      edges: seq<DependencyEdge>)
    returns (nodes: seq<ClosureNode>)
    ensures Sorted(nodes, NodeLess)
    ensures forall x :: x in nodes <==> Named(x, switches, links, paths, edges)
  {
    var found: seq<ClosureNode> := [];
    for i := 0 to |switches|
      invariant forall x :: x in found <==> exists j :: 0 <= j < i && x == SwitchNode(switches[j].key)
    {
      found := found + [SwitchNode(switches[i].key)];
    }
    ghost var before := found;
    for i := 0 to |paths|
      invariant forall x :: x in found <==>
                  x in before || exists j :: 0 <= j < i && x == DependentNode(DependentRef(Path, paths[j].id))
    {
      found := found + [DependentNode(DependentRef(Path, paths[i].id))];
    }
    before := found;
    for i := 0 to |links|
      invariant forall x :: x in found <==>
                  x in before || exists j :: 0 <= j < i && x == DependentNode(DependentRef(Link, links[j].id))
    {
      found := found + [DependentNode(DependentRef(Link, links[i].id))];
    }
    before := found;
    for i := 0 to |edges|
      invariant forall x :: x in found <==>
                  x in before || exists j :: 0 <= j < i && (x == edges[j].from || x == edges[j].to)
    {
      found := found + [edges[i].from, edges[i].to];
    }
    NodeOrder();
    ListSorted(found, NodeLess);
    nodes := List(found, NodeLess);
  }

  lemma NamedValid(switches: seq<SwitchDescriptor>, links: seq<LinkDescriptor>, paths: seq<PathDescriptor>,
                   edges: seq<DependencyEdge>, x: ClosureNode)
    requires Accepted(switches, links, paths) && forall e :: e in edges ==> Qualified(e)
    requires Named(x, switches, links, paths, edges)
    ensures x.Valid()
  {
    if i :| 0 <= i < |edges| && (x == edges[i].from || x == edges[i].to) {
      assert Qualified(edges[i]);
    }
  }

  /** Exactly the nodes that descriptors and dependencies name, in canonical order. */
  ghost predicate NodeTable(nodes: seq<ClosureNode>, switches: seq<SwitchDescriptor>, links: seq<LinkDescriptor>,
                            paths: seq<PathDescriptor>,
                            supplied: seq<DependencyEdge>)
  {
    && Sorted(nodes, NodeLess)
    && forall x :: x in nodes <==>
         || Named(x, switches, links, paths, [])
         || exists e :: Declared(e, links, paths, supplied) && (x == e.from || x == e.to)
  }

  lemma TableReady(switches: seq<SwitchDescriptor>, links: seq<LinkDescriptor>, paths: seq<PathDescriptor>,
                   supplied: seq<DependencyEdge>,
                   edges: seq<DependencyEdge>, nodes: seq<ClosureNode>)
    requires Sorted(nodes, NodeLess)
    requires forall e :: e in edges <==> Declared(e, links, paths, supplied)
    requires forall x :: x in nodes <==> Named(x, switches, links, paths, edges)
    ensures NodeTable(nodes, switches, links, paths, supplied)
  {
    forall x
      ensures x in nodes <==>
                || Named(x, switches, links, paths, [])
                || exists e :: Declared(e, links, paths, supplied) && (x == e.from || x == e.to)
    {
      NamedSplit(switches, links, paths, edges, x);
    }
  }

  lemma NamedSplit(switches: seq<SwitchDescriptor>, links: seq<LinkDescriptor>, paths: seq<PathDescriptor>,
                   edges: seq<DependencyEdge>, x: ClosureNode)
    ensures Named(x, switches, links, paths, edges) <==>
              || Named(x, switches, links, paths, [])
              || exists e :: e in edges && (x == e.from || x == e.to)
  {
    if e :| e in edges && (x == e.from || x == e.to) {
      var i :| 0 <= i < |edges| && edges[i] == e;
    }
  }

  lemma NodesReady(switches: seq<SwitchDescriptor>, links: seq<LinkDescriptor>, paths: seq<PathDescriptor>,
                   edges: seq<DependencyEdge>, nodes: seq<ClosureNode>)
    requires Accepted(switches, links, paths) && forall e :: e in edges ==> Qualified(e)
    requires forall x :: x in nodes <==> Named(x, switches, links, paths, edges)
    ensures forall i :: 0 <= i < |nodes| ==> nodes[i].Valid()
    ensures forall i :: 0 <= i < |switches| ==> SwitchNode(switches[i].key) in nodes
    ensures forall e :: e in edges ==> e.from in nodes && e.to in nodes
  {
    forall i | 0 <= i < |nodes|
      ensures nodes[i].Valid()
    {
      NamedValid(switches, links, paths, edges, nodes[i]);
    }
    forall e | e in edges
      ensures Named(e.from, switches, links, paths, edges) && Named(e.to, switches, links, paths, edges)
    {
    }
  }

  /** The sources of the edges into one node, among the first n edges. */
  ghost predicate Sources(nodes: seq<ClosureNode>, edges: seq<DependencyEdge>, n: nat, i: nat,
                          sources: seq<ClosureNode>)
    requires n <= |edges| && i < |nodes|
  {
    forall x :: x in sources <==> DependencyEdge(x, nodes[i]) in edges[..n]
  }

  lemma SourcesNext(nodes: seq<ClosureNode>, edges: seq<DependencyEdge>, n: nat, i: nat, sources: seq<ClosureNode>)
    requires n < |edges| && i < |nodes| && Sources(nodes, edges, n, i, sources)
    ensures edges[n].to == nodes[i] ==> Sources(nodes, edges, n + 1, i, sources + [edges[n].from])
    ensures edges[n].to != nodes[i] ==> Sources(nodes, edges, n + 1, i, sources)
  {
    assert edges[..n + 1] == edges[..n] + [edges[n]];
  }

  method CollectReverse(nodes: seq<ClosureNode>, edges: seq<DependencyEdge>) returns (reverse: seq<seq<ClosureNode>>)
    requires Sorted(nodes, NodeLess) && forall e :: e in edges ==> e.from in nodes && e.to in nodes
    ensures |reverse| == |nodes|
    ensures forall i :: 0 <= i < |nodes| ==> Sorted(reverse[i], NodeLess)
    ensures forall i :: 0 <= i < |nodes| ==> Sources(nodes, edges, |edges|, i, reverse[i])
  {
    NodeOrder();
    var lists: seq<seq<ClosureNode>> := seq(|nodes|, i => []);
    for n := 0 to |edges|
      invariant |lists| == |nodes|
      invariant forall i :: 0 <= i < |nodes| ==> Sources(nodes, edges, n, i, lists[i])
    {
      assert edges[n] in edges;
      var to := Find(nodes, edges[n].to, NodeLess);
      var updated := lists[to := lists[to] + [edges[n].from]];
      ghost var next := n + 1;
      forall i | 0 <= i < |nodes|
        ensures Sources(nodes, edges, next, i, updated[i])
      {
        SourcesNext(nodes, edges, n, i, lists[i]);
        if i != to {
          SortedPosition(nodes, i);
        }
      }
      lists := updated;
    }
    reverse := [];
    for i := 0 to |nodes|
      invariant |reverse| == i
      invariant forall j :: 0 <= j < i ==> Sorted(reverse[j], NodeLess)
      invariant forall j :: 0 <= j < i ==> Sources(nodes, edges, |edges|, j, reverse[j])
    {
      ListSorted(lists[i], NodeLess);
      assert Sources(nodes, edges, |edges|, i, List(lists[i], NodeLess));
      reverse := reverse + [List(lists[i], NodeLess)];
    }
  }

  lemma IndexValid(t: TopologySnapshot, edges: seq<DependencyEdge>)
    requires t.edges == Elements(edges)
    requires Sorted(t.nodes, NodeLess) && |t.reverse| == |t.nodes|
    requires forall i :: 0 <= i < |t.nodes| ==> t.nodes[i].Valid() && Sorted(t.reverse[i], NodeLess)
    requires forall i :: 0 <= i < |t.nodes| ==> Sources(t.nodes, edges, |edges|, i, t.reverse[i])
    requires forall e :: e in edges ==> e.from in t.nodes && e.to in t.nodes
    requires forall k :: k in t.switches ==> SwitchNode(k) in t.nodes && t.switches[k].key == k
    ensures Valid(t)
  {
    assert edges[..|edges|] == edges;
    forall i | 0 <= i < |t.nodes|
      ensures Lists(t, i)
    {
      assert Sources(t.nodes, edges, |edges|, i, t.reverse[i]);
    }
  }

  function SwitchesByKey(switches: seq<SwitchDescriptor>): (table: map<SwitchKey, SwitchDescriptor>)
    requires forall i, j :: 0 <= i < j < |switches| ==> switches[i].key != switches[j].key
    ensures forall i :: 0 <= i < |switches| ==> switches[i].key in table && table[switches[i].key] == switches[i]
    ensures forall k :: k in table ==> table[k] in switches && table[k].key == k
  {
    map d | d in switches :: d.key := d
  }

  function LinksById(links: seq<LinkDescriptor>): (table: map<U64, LinkDescriptor>)
    requires forall i, j :: 0 <= i < j < |links| ==> links[i].id != links[j].id
    ensures forall i :: 0 <= i < |links| ==> links[i].id in table && table[links[i].id] == links[i]
    ensures forall k :: k in table ==> table[k] in links && table[k].id == k
  {
    map d | d in links :: d.id := d
  }

  function PathsById(paths: seq<PathDescriptor>): (table: map<U64, PathDescriptor>)
    requires forall i, j :: 0 <= i < j < |paths| ==> paths[i].id != paths[j].id
    ensures forall i :: 0 <= i < |paths| ==> paths[i].id in table && table[paths[i].id] == paths[i]
    ensures forall k :: k in table ==> table[k] in paths && table[k].id == k
  {
    map d | d in paths :: d.id := d
  }

  /** Puts the tables and the index together. */
  method Assemble(switches: seq<SwitchDescriptor>, links: seq<LinkDescriptor>, paths: seq<PathDescriptor>,
                  edges: seq<DependencyEdge>, nodes: seq<ClosureNode>, reverse: seq<seq<ClosureNode>>, limits: Budget)
    returns (t: TopologySnapshot)
    requires Accepted(switches, links, paths)
    requires forall i :: 0 <= i < |switches| ==> SwitchNode(switches[i].key) in nodes
    ensures SwitchTable(t, switches) && LinkTable(t, links) && PathTable(t, paths)
    ensures t.edges == Elements(edges) && t.nodes == nodes && t.reverse == reverse && t.limits == limits
    ensures forall k :: k in t.switches ==> SwitchNode(k) in nodes && t.switches[k].key == k
  {
    t := TopologySnapshot(
      SwitchesByKey(switches), LinksById(links), PathsById(paths), Elements(edges), nodes, reverse, limits);
  }

  /**
   The snapshot of accepted descriptors. Its reverse index is sound and complete for exactly the
   declared dependencies.
   */
  method Build(switches: seq<SwitchDescriptor>, links: seq<LinkDescriptor>, paths: seq<PathDescriptor>,
               supplied: seq<DependencyEdge>, limits: Budget)
    returns (built: Built)
    requires Accepted(switches, links, paths)
    ensures built.Unqualified? <==> exists i :: 0 <= i < |supplied| && !Qualified(supplied[i])
    ensures built.Built? ==>
              && Valid(built.snapshot)
              && |built.snapshot.nodes| <= limits.nodes && built.snapshot.limits == limits
              && (forall e :: e in built.snapshot.edges <==> Declared(e, links, paths, supplied))
              && NodeTable(built.snapshot.nodes, switches, links, paths, supplied)
              && SwitchTable(built.snapshot, switches) && LinkTable(built.snapshot, links) &&
                PathTable(built.snapshot, paths)
    ensures built.TooManyNodes? ==>
              exists nodes :: NodeTable(nodes, switches, links, paths, supplied) && |nodes| > limits.nodes
  {
    var ok, edges := CollectEdges(links, paths, supplied);
    if !ok {
      return Unqualified;
    }
    var nodes := CollectNodes(switches, links, paths, edges);
    TableReady(switches, links, paths, supplied, edges, nodes);
    NodesReady(switches, links, paths, edges, nodes);
    if |nodes| > limits.nodes {
      return TooManyNodes;
    }
    var reverse := CollectReverse(nodes, edges);
    var t := Assemble(switches, links, paths, edges, nodes, reverse, limits);
    IndexValid(t, edges);
    built := Built(t);
  }
}
