/**
 The traversal loops of TopologySnapshot::closure_from (src/model/topology.cpp), with their visited
 flags, queue and member list.
 */
module ClosureSearch {
  import opened Canonical
  import opened Traversal
  import opened Topology
  import opened Closure

  /** The flags mark exactly the queued positions. */
  ghost predicate Marks(visited: seq<bool>, queue: seq<nat>, n: nat) {
    && |visited| == n
    && (forall i :: 0 <= i < n ==> (visited[i] <==> i in queue))
    && (forall k :: 0 <= k < |queue| ==> queue[k] < n)
  }

  /** The member list holds the absent roots and the queued nodes, each once. */
  ghost predicate Collects(nodes: seq<ClosureNode>, absent: seq<ClosureNode>, queue: seq<nat>,
                           members: seq<ClosureNode>)
    requires forall k :: 0 <= k < |queue| ==> queue[k] < |nodes|
  {
    && |members| == |absent| + |queue|
    && forall x :: x in members <==> x in absent || x in Located(nodes, queue)
  }

  lemma MarksNext(visited: seq<bool>, queue: seq<nat>, n: nat, d: nat)
    requires Marks(visited, queue, n) && d < n
    ensures Marks(visited[d := true], queue + [d], n)
  {
    forall i | 0 <= i < n
      ensures visited[d := true][i] <==> i in queue + [d]
    {
      assert i in queue + [d] <==> i in queue || i == d;
    }
  }

  lemma CollectsNext(nodes: seq<ClosureNode>, absent: seq<ClosureNode>, queue: seq<nat>, members: seq<ClosureNode>,
                     d: nat)
    requires forall k :: 0 <= k < |queue| ==> queue[k] < |nodes|
    requires Collects(nodes, absent, queue, members) && d < |nodes|
    ensures Collects(nodes, absent, queue + [d], members + [nodes[d]])
  {
    assert Located(nodes, queue + [d]) == Located(nodes, queue) + [nodes[d]];
    forall x
      ensures x in members + [nodes[d]] <==> x in absent || x in Located(nodes, queue + [d])
    {
      assert x in members + [nodes[d]] <==> x in members || x == nodes[d];
      assert x in Located(nodes, queue) + [nodes[d]] <==> x in Located(nodes, queue) || x == nodes[d];
    }
  }

  /** The working state of a traversal as the specification sees it. */
  function Now(absent: nat, queue: seq<nat>, head: nat, examined: nat, truncated: bool): (s: State) {
    State(absent, queue, head, examined, truncated)
  }

  lemma SeedPresent(nodes: seq<ClosureNode>, roots: seq<ClosureNode>, index: nat)
    requires index < |roots| && Sorted(roots, NodeLess)
    ensures roots[index] in nodes ==>
              && Present(nodes, roots[..index + 1]) == Present(nodes, roots[..index]) + [IndexOf(nodes, roots[index])]
              && Absent(nodes, roots[..index + 1]) == Absent(nodes, roots[..index])
              && IndexOf(nodes, roots[index]) !in Present(nodes, roots[..index])
    ensures roots[index] !in nodes ==>
              && Present(nodes, roots[..index + 1]) == Present(nodes, roots[..index])
              && Absent(nodes, roots[..index + 1]) == Absent(nodes, roots[..index]) + [roots[index]]
  {
    var longer := roots[..index + 1];
    assert longer[..index] == roots[..index] && longer[index] == roots[index];
    NodeOrder();
    assert forall k :: 0 <= k < index ==> NodeLess(roots[k], roots[index]);
    assert roots[index] !in roots[..index];
  }

  /** Queues the roots the node table has and counts the others, in canonical order. */
  method SeedRoots(t: TopologySnapshot, unique: seq<ClosureNode>, visited: array<bool>)
    returns (absent: nat, queue: seq<nat>, members: seq<ClosureNode>)
    requires Sorted(t.nodes, NodeLess) && Sorted(unique, NodeLess)
    requires Marks(visited[..], [], |t.nodes|)
    modifies visited
    ensures absent == |Absent(t.nodes, unique)| && queue == Present(t.nodes, unique)
    ensures Marks(visited[..], queue, |t.nodes|)
    ensures Collects(t.nodes, Absent(t.nodes, unique), queue, members)
  {
    absent, queue, members := 0, [], [];
    NodeOrder();
    for index := 0 to |unique|
      invariant absent == |Absent(t.nodes, unique[..index])| && queue == Present(t.nodes, unique[..index])
      invariant Marks(visited[..], queue, |t.nodes|)
      invariant Collects(t.nodes, Absent(t.nodes, unique[..index]), queue, members)
    {
      var position := Find(t.nodes, unique[index], NodeLess);
      SeedPresent(t.nodes, unique, index);
      if position == |t.nodes| {
        absent := absent + 1;
        CollectsAbsent(t.nodes, Absent(t.nodes, unique[..index]), queue, members, unique[index]);
        members := members + [unique[index]];
      } else if !visited[position] {
        MarksNext(visited[..], queue, |t.nodes|, position);
        CollectsNext(t.nodes, Absent(t.nodes, unique[..index]), queue, members, position);
        visited[position] := true;
        members := members + [unique[index]];
        queue := queue + [position];
      }
    }
    assert unique[..|unique|] == unique;
  }

  lemma CollectsAbsent(nodes: seq<ClosureNode>, absent: seq<ClosureNode>, queue: seq<nat>, members: seq<ClosureNode>,
                       x: ClosureNode)
    requires forall k :: 0 <= k < |queue| ==> queue[k] < |nodes|
    requires Collects(nodes, absent, queue, members)
    ensures Collects(nodes, absent + [x], queue, members + [x])
  {
  }

  /** Marks a node found for the first time. */
  method Discover(nodes: seq<ClosureNode>, absent: seq<ClosureNode>, queue: seq<nat>, members: seq<ClosureNode>,
                  d: nat, visited: array<bool>)
    returns (longer: seq<nat>, more: seq<ClosureNode>)
    requires d < |nodes| && Marks(visited[..], queue, |nodes|) && Collects(nodes, absent, queue, members)
    modifies visited
    ensures longer == queue + [d] && more == members + [nodes[d]]
    ensures Marks(visited[..], longer, |nodes|) && Collects(nodes, absent, longer, more)
  {
    MarksNext(visited[..], queue, |nodes|, d);
    CollectsNext(nodes, absent, queue, members, d);
    ghost var marked := visited[..][d := true];
    visited[d] := true;
    assert visited[..] == marked;
    longer, more := queue + [d], members + [nodes[d]];
  }

  lemma ExpandSeen(graph: Graph, bounds: Budget, s: State, dependents: seq<nat>, k: nat)
    requires Legal(graph, s) && k < |dependents| && s.examined < bounds.edges
    requires dependents[k] >= |graph| || dependents[k] in s.queue
    ensures Legal(graph, s.(examined := s.examined + 1))
    ensures Expand(graph, bounds, s, dependents, k) ==
            Expand(graph, bounds, s.(examined := s.examined + 1), dependents, k + 1)
  {
  }

  lemma ExpandFound(graph: Graph, bounds: Budget, s: State, dependents: seq<nat>, k: nat)
    requires Legal(graph, s) && k < |dependents| && s.examined < bounds.edges && s.Members() < bounds.nodes
    requires dependents[k] < |graph| && dependents[k] !in s.queue
    ensures var found := s.(examined := s.examined + 1, queue := s.queue + [dependents[k]]);
            Legal(graph, found) && Expand(graph, bounds, s, dependents, k) ==
              Expand(graph, bounds, found, dependents, k + 1)
  {
  }

  lemma ExpandFull(graph: Graph, bounds: Budget, s: State, dependents: seq<nat>, k: nat)
    requires Legal(graph, s) && k < |dependents| && s.examined < bounds.edges && s.Members() >= bounds.nodes
    requires dependents[k] < |graph| && dependents[k] !in s.queue
    ensures Expand(graph, bounds, s, dependents, k) == s.(examined := s.examined + 1, truncated := true)
  {
  }

  /** One direct dependent: passed over, found, or one too many. */
  method Examine(nodes: seq<ClosureNode>, dependents: seq<ClosureNode>, bounds: Budget, k: nat,
                 absent: seq<ClosureNode>,
                 before: seq<nat>, listed: seq<ClosureNode>, visited: array<bool>, ghost graph: Graph, ghost s: State)
    returns (queue: seq<nat>, members: seq<ClosureNode>, full: bool)
    requires Sorted(nodes, NodeLess) && |graph| == |nodes| && k < |dependents|
    requires Legal(graph, s) && s.queue == before && s.absent == |absent| && s.examined < bounds.edges
    requires Marks(visited[..], before, |nodes|) && Collects(nodes, absent, before, listed)
    modifies visited
    ensures var list, next := Positions(nodes, dependents), s.(examined := s.examined + 1, queue := queue);
            if full then Expand(graph, bounds, s, list, k) == next.(truncated := true)
            else Legal(graph, next) && Expand(graph, bounds, s, list, k) == Expand(graph, bounds, next, list, k + 1)
    ensures Marks(visited[..], queue, |nodes|) && Collects(nodes, absent, queue, members)
  {
    ghost var list := Positions(nodes, dependents);
    queue, members, full := before, listed, false;
    NodeOrder();
    var d := Find(nodes, dependents[k], NodeLess);
    if d == |nodes| || visited[d] {
      ExpandSeen(graph, bounds, s, list, k);
    } else if |members| >= bounds.nodes {
      ExpandFull(graph, bounds, s, list, k);
      full := true;
    } else {
      ExpandFound(graph, bounds, s, list, k);
      queue, members := Discover(nodes, absent, queue, members, d, visited);
    }
  }

  /** The inner loop: the direct dependents of one node. */
  method ExpandNode(nodes: seq<ClosureNode>, dependents: seq<ClosureNode>, bounds: Budget, head: nat,
                    absent: seq<ClosureNode>,
                    before: seq<nat>, spent: nat, listed: seq<ClosureNode>, visited: array<bool>, ghost graph: Graph)
    returns (queue: seq<nat>, examined: nat, members: seq<ClosureNode>, truncated: bool)
    requires Sorted(nodes, NodeLess) && |graph| == |nodes|
    requires Legal(graph, Now(|absent|, before, head, spent, false))
    requires Marks(visited[..], before, |nodes|) && Collects(nodes, absent, before, listed)
    modifies visited
    ensures Now(|absent|, queue, head, examined, truncated)
         == Expand(graph, bounds, Now(|absent|, before, head, spent, false), Positions(nodes, dependents), 0)
    ensures Marks(visited[..], queue, |nodes|) && Collects(nodes, absent, queue, members)
  {
    queue, examined, members, truncated := before, spent, listed, false;
    ghost var list := Positions(nodes, dependents);
    ghost var s := Now(|absent|, before, head, spent, false);
    ghost var expected := Expand(graph, bounds, s, list, 0);
    for k := 0 to |dependents|
      invariant s == Now(|absent|, queue, head, examined, false) && !truncated
      invariant Legal(graph, s) && Expand(graph, bounds, s, list, k) == expected
      invariant Marks(visited[..], queue, |nodes|) && Collects(nodes, absent, queue, members)
    {
      if examined >= bounds.edges {
        truncated := true;
        assert expected == s.(truncated := true);
        return;
      }
      examined := examined + 1;
      queue, members, truncated := Examine(nodes, dependents, bounds, k, absent, queue, members, visited, graph, s);
      if truncated {
        return;
      }
      s := s.(examined := examined, queue := queue);
    }
    assert expected == s;
  }

  lemma ReportCollected(t: TopologySnapshot, roots: seq<ClosureNode>, s: State, members: seq<ClosureNode>)
    requires s.head <= |s.queue| && forall k :: 0 <= k < |s.queue| ==> s.queue[k] < |t.nodes|
    requires Collects(t.nodes, Absent(t.nodes, roots), s.queue, members)
    ensures List(members, NodeLess) == Report(t, roots, s).members
  {
    NodeOrder();
    var expected := Absent(t.nodes, roots) + Located(t.nodes, s.queue);
    ListSorted(expected, NodeLess);
    assert forall x :: x in expected <==> x in Absent(t.nodes, roots) || x in Located(t.nodes, s.queue);
    ListUnique(members, List(expected, NodeLess), NodeLess);
  }

  /** One turn of the outer loop. */
  method Advance(t: TopologySnapshot, bounds: Budget, before: State, absent: seq<ClosureNode>,
                 listed: seq<ClosureNode>, visited: array<bool>)
    returns (s: State, members: seq<ClosureNode>)
    requires Sorted(t.nodes, NodeLess) && |t.reverse| == |t.nodes|
    requires Legal(Indexed(t), before) && !before.truncated && before.head < |before.queue| && before.absent == |absent|
    requires Marks(visited[..], before.queue, |t.nodes|) && Collects(t.nodes, absent, before.queue, listed)
    modifies visited
    ensures s == Step(Indexed(t), bounds, before)
    ensures Marks(visited[..], s.queue, |t.nodes|) && Collects(t.nodes, absent, s.queue, members)
  {
    if |listed| >= bounds.nodes || before.examined >= bounds.edges {
      return before.(truncated := true), listed;
    }
    var i, head := before.queue[before.head], before.head + 1;
    var queue, examined, members', truncated :=
      ExpandNode(t.nodes, t.reverse[i], bounds, head, absent, before.queue, before.examined, listed, visited,
                 Indexed(t));
    s, members := Now(|absent|, queue, head, examined, truncated), members';
  }

  /** The outer loop, from the seeded roots to the end of the queue or to a bound. */
  method Traverse(t: TopologySnapshot, bounds: Budget, absent: seq<ClosureNode>, seeded: seq<nat>,
                  listed: seq<ClosureNode>, visited: array<bool>)
    returns (s: State, members: seq<ClosureNode>)
    requires Sorted(t.nodes, NodeLess) && |t.reverse| == |t.nodes|
    requires Legal(Indexed(t), Now(|absent|, seeded, 0, 0, false))
    requires Marks(visited[..], seeded, |t.nodes|) && Collects(t.nodes, absent, seeded, listed)
    modifies visited
    ensures s == Run(Indexed(t), bounds, Now(|absent|, seeded, 0, 0, false))
    ensures Marks(visited[..], s.queue, |t.nodes|) && Collects(t.nodes, absent, s.queue, members)
  {
    s, members := Now(|absent|, seeded, 0, 0, false), listed;
    ghost var graph := Indexed(t);
    ghost var expected := Run(graph, bounds, s);
    while s.head < |s.queue| && !s.truncated
      invariant Legal(graph, s) && s.absent == |absent|
      invariant Run(graph, bounds, s) == expected
      invariant Marks(visited[..], s.queue, |t.nodes|) && Collects(t.nodes, absent, s.queue, members)
      decreases |graph| - s.head, !s.truncated
    {
      QueueBounded(graph, s);
      s, members := Advance(t, bounds, s, absent, members, visited);
    }
  }

  /** The closure, computed. */
  method ComputeClosure(t: TopologySnapshot, roots: seq<ClosureNode>, limits: Budget)
    returns (closure: DependencyClosure)
    requires Valid(t)
    ensures closure == ClosureFrom(t, roots, limits)
  {
    NodeOrder();
    ListSorted(roots, NodeLess);
    var unique := List(roots, NodeLess);
    var visited := new bool[|t.nodes|](_ => false);
    var absent, seeded, listed := SeedRoots(t, unique, visited);
    SeedLegal(t.nodes, unique);
    var end, members := Traverse(t, Bounds(t, limits), Absent(t.nodes, unique), seeded, listed, visited);
    ReportCollected(t, unique, end, members);
    var canonical := List(members, NodeLess);
    var dependents := DependentsOf(canonical);
    closure := DependencyClosure(
      canonical, dependents,
      if end.truncated then Truncated else if dependents == [] then Empty else Complete,
      end.examined, if end.truncated then |end.queue| - end.head else 0, absent);
  }
}
