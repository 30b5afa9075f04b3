/**
 The dependency closure of a set of failed generations (TopologySnapshot::closure and closure_from,
 src/model/topology.cpp): the specification and what it finds.
 */
module Closure {
  import opened Identity
  import opened Canonical
  import opened Traversal
  import opened Topology

  datatype ClosureState = Empty | Complete | Truncated

  datatype DependencyClosure = DependencyClosure(
    members: seq<ClosureNode>,
    dependents: seq<DependentRef>,
    state: ClosureState,
    edgesExamined: nat,
    omittedFrontier: nat,
    rootsAbsent: nat)

  function Least(a: nat, b: nat): (m: nat) {
    if b < a then b else a
  }

  /** The tighter of the caller's bounds and the snapshot's own. */
  function Bounds(t: TopologySnapshot, limits: Budget): (budget: Budget) {
    Budget(Least(limits.nodes, t.limits.nodes), Least(limits.edges, t.limits.edges))
  }

  // ---- Roots ----

  function Absent(nodes: seq<ClosureNode>, roots: seq<ClosureNode>): (absent: seq<ClosureNode>)
    ensures forall x :: x in absent <==> x in roots && x !in nodes
  {
    if roots == [] then []
    else
      var last := |roots| - 1;
      assert roots == roots[..last] + [roots[last]];
      Absent(nodes, roots[..last]) + if roots[last] in nodes then [] else [roots[last]]
  }

  function Present(nodes: seq<ClosureNode>, roots: seq<ClosureNode>): (positions: seq<nat>)
    ensures forall k :: 0 <= k < |positions| ==> positions[k] < |nodes| && nodes[positions[k]] in roots
  {
    if roots == [] then []
    else
      var last := |roots| - 1;
      assert roots == roots[..last] + [roots[last]];
      Present(nodes, roots[..last]) + if roots[last] in nodes then [IndexOf(nodes, roots[last])] else []
  }

  lemma {:induction false} PresentHas(nodes: seq<ClosureNode>, roots: seq<ClosureNode>, x: ClosureNode)
    requires x in roots && x in nodes
    ensures IndexOf(nodes, x) in Present(nodes, roots)
  {
    var last := |roots| - 1;
    assert roots == roots[..last] + [roots[last]];
    if roots[last] != x {
      PresentHas(nodes, roots[..last], x);
    }
  }

  function Seed(nodes: seq<ClosureNode>, roots: seq<ClosureNode>): (s: State) {
    State(|Absent(nodes, roots)|, Present(nodes, roots), 0, 0, false)
  }

  lemma {:induction false} SeedLegal(nodes: seq<ClosureNode>, roots: seq<ClosureNode>)
    requires Sorted(roots, NodeLess)
    ensures Distinct(Present(nodes, roots))
  {
    if roots != [] {
      var last := |roots| - 1;
      SeedLegal(nodes, roots[..last]);
      NodeOrder();
      assert forall k :: 0 <= k < last ==> NodeLess(roots[k], roots[last]);
      assert roots[last] !in roots[..last];
    }
  }

  lemma {:induction false} SeedMembers(nodes: seq<ClosureNode>, roots: seq<ClosureNode>)
    ensures Seed(nodes, roots).Members() == |roots|
  {
    if roots != [] {
      SeedMembers(nodes, roots[..|roots| - 1]);
    }
  }

  // ---- The closure ----

  function Located(nodes: seq<ClosureNode>, queue: seq<nat>): (located: seq<ClosureNode>)
    requires forall k :: 0 <= k < |queue| ==> queue[k] < |nodes|
    ensures |located| == |queue|
    ensures forall k :: 0 <= k < |queue| ==> located[k] == nodes[queue[k]]
  {
    seq(|queue|, k requires 0 <= k < |queue| => nodes[queue[k]])
  }

  function DependentsOf(members: seq<ClosureNode>): (dependents: seq<DependentRef>)
    ensures forall d :: d in dependents <==> DependentNode(d) in members
  {
    if members == [] then []
    else
      var last := |members| - 1;
      assert members == members[..last] + [members[last]];
      DependentsOf(members[..last]) + if members[last].DependentNode? then [members[last].dependent] else []
  }

  lemma {:induction false} DependentsSorted(members: seq<ClosureNode>)
    requires Sorted(members, NodeLess)
    ensures Sorted(DependentsOf(members), DependentLess)
  {
    if members != [] {
      var last := |members| - 1;
      DependentsSorted(members[..last]);
      var before := DependentsOf(members[..last]);
      forall i | 0 <= i < |before| && members[last].DependentNode?
        ensures DependentLess(before[i], members[last].dependent)
      {
        assert before[i] in before;
        var k :| 0 <= k < last && members[k] == DependentNode(before[i]);
        assert NodeLess(members[k], members[last]);
      }
    }
  }

  /** The members found by a finished traversal, in canonical order. */
  function Report(t: TopologySnapshot, roots: seq<ClosureNode>, s: State): (closure: DependencyClosure)
    requires s.head <= |s.queue| && forall k :: 0 <= k < |s.queue| ==> s.queue[k] < |t.nodes|
  {
    var members := List(Absent(t.nodes, roots) + Located(t.nodes, s.queue), NodeLess);
    var dependents := DependentsOf(members);
    DependencyClosure(
      members,
      dependents,
      if s.truncated then Truncated else if dependents == [] then Empty else Complete,
      s.examined,
      if s.truncated then |s.queue| - s.head else 0,
      s.absent)
  }

  ghost function Traversed(t: TopologySnapshot, roots: seq<ClosureNode>, limits: Budget): (end: State)
    requires Valid(t)
    ensures Legal(Indexed(t), end)
    ensures end.absent == |Absent(t.nodes, List(roots, NodeLess))|
  {
    NodeOrder();
    ListSorted(roots, NodeLess);
    var unique := List(roots, NodeLess);
    SeedLegal(t.nodes, unique);
    Run(Indexed(t), Bounds(t, limits), Seed(t.nodes, unique))
  }

  ghost function ClosureFrom(t: TopologySnapshot, roots: seq<ClosureNode>, limits: Budget): (closure: DependencyClosure)
    requires Valid(t)
  {
    Report(t, List(roots, NodeLess), Traversed(t, roots, limits))
  }

  // ---- What it finds ----

  ghost predicate Traverses(nodes: seq<ClosureNode>, graph: Graph, bounds: Budget, unique: seq<ClosureNode>,
                            end: State) {
    && Outcome(graph, bounds, Vertices(Present(nodes, unique)), |unique|, end)
    && end.absent == |Absent(nodes, unique)|
  }

  lemma TraversedOutcome(t: TopologySnapshot, roots: seq<ClosureNode>, limits: Budget)
    requires Valid(t)
    ensures Traverses(t.nodes, Indexed(t), Bounds(t, limits), List(roots, NodeLess), Traversed(t, roots, limits))
  {
    NodeOrder();
    ListSorted(roots, NodeLess);
    var unique := List(roots, NodeLess);
    SeedLegal(t.nodes, unique);
    SeedMembers(t.nodes, unique);
    var seed := Seed(t.nodes, unique);
    var graph := Indexed(t);
    var present := Vertices(Present(t.nodes, unique));
    forall i | i in present
      ensures i in Reach(graph, present)
    {
      ReachRoot(graph, present, i);
    }
    assert Vertices(seed.queue[..0]) == {};
    NoDegrees(graph, |graph|);
    RunOutcome(graph, Bounds(t, limits), present, |unique|, seed);
  }

  lemma {:induction false} NoDegrees(graph: Graph, n: nat)
    requires n <= |graph|
    ensures Degrees(graph, {}, n) == 0
  {
    if n > 0 {
      NoDegrees(graph, n - 1);
    }
  }

  lemma MemberMeans(t: TopologySnapshot, roots: seq<ClosureNode>, s: State, x: ClosureNode)
    requires Valid(t) && s.head <= |s.queue| && forall k :: 0 <= k < |s.queue| ==> s.queue[k] < |t.nodes|
    ensures x in Report(t, roots, s).members <==>
              if x in t.nodes then IndexOf(t.nodes, x) in s.queue else x in roots
  {
    var located := Located(t.nodes, s.queue);
    var absent := Absent(t.nodes, roots);
    assert forall y :: y in absent + located <==> y in absent || y in located;
    if x in located {
      var k :| 0 <= k < |located| && located[k] == x;
      SortedPosition(t.nodes, s.queue[k]);
    }
    if x in t.nodes && IndexOf(t.nodes, x) in s.queue {
      var k :| 0 <= k < |s.queue| && s.queue[k] == IndexOf(t.nodes, x);
      assert located[k] == x;
    }
  }

  ghost predicate InvalidatedBy(t: TopologySnapshot, roots: seq<ClosureNode>, x: ClosureNode) {
    exists r :: r in roots && Invalidates(t, r, x)
  }

  lemma ReachInvalidates(t: TopologySnapshot, roots: seq<ClosureNode>, x: ClosureNode)
    requires Valid(t)
    ensures InvalidatedBy(t, roots, x) <==>
              if x in t.nodes
              then IndexOf(t.nodes, x) in Reach(Indexed(t), Vertices(Present(t.nodes, roots)))
              else x in roots
  {
    var present := Vertices(Present(t.nodes, roots));
    forall r | r in roots && Invalidates(t, r, x)
      ensures if r in t.nodes then x in t.nodes && IndexOf(t.nodes, r) in present else x == r
    {
      if r in t.nodes {
        PresentHas(t.nodes, roots, r);
        var chain :| Chain(t, chain) && chain[0] == r && chain[|chain| - 1] == x;
        ChainIsWalk(t, chain);
      } else {
        AbsentInvalidatesItself(t, r, x);
      }
    }
    if x in t.nodes {
      var j := IndexOf(t.nodes, x);
      ReachMeans(t, present, j);
    } else if x in roots {
      AbsentInvalidatesItself(t, x, x);
    }
  }

  lemma InvalidatedByListed(t: TopologySnapshot, roots: seq<ClosureNode>, x: ClosureNode)
    ensures InvalidatedBy(t, List(roots, NodeLess), x) <==> InvalidatedBy(t, roots, x)
  {
  }

  lemma MembersExact(t: TopologySnapshot, bounds: Budget, unique: seq<ClosureNode>, end: State, x: ClosureNode)
    requires Valid(t) && Traverses(t.nodes, Indexed(t), bounds, unique, end)
    ensures x in Report(t, unique, end).members ==> InvalidatedBy(t, unique, x)
    ensures x in unique ==> x in Report(t, unique, end).members
    ensures !end.truncated && InvalidatedBy(t, unique, x) ==> x in Report(t, unique, end).members
  {
    MemberMeans(t, unique, end, x);
    ReachInvalidates(t, unique, x);
    if x in t.nodes {
      var i := IndexOf(t.nodes, x);
      assert i in Vertices(end.queue) <==> i in end.queue;
      if x in unique {
        PresentHas(t.nodes, unique, x);
        assert i in Vertices(Present(t.nodes, unique));
      }
    }
  }

  /**
   The closure is exact. Unless it is flagged truncated, its members are exactly the roots and
   whatever, through any chain of dependencies, depends on one of them; truncated, it still
   contains nothing else.
   */
  lemma ClosureExact(t: TopologySnapshot, roots: seq<ClosureNode>, limits: Budget, x: ClosureNode)
    requires Valid(t)
    ensures var closure := ClosureFrom(t, roots, limits);
            && (x in closure.members ==> InvalidatedBy(t, roots, x))
            && (x in roots ==> x in closure.members)
            && (!closure.state.Truncated? && InvalidatedBy(t, roots, x) ==> x in closure.members)
  {
    TraversedOutcome(t, roots, limits);
    MembersExact(t, Bounds(t, limits), List(roots, NodeLess), Traversed(t, roots, limits), x);
    InvalidatedByListed(t, roots, x);
  }

  /** The members are listed once each. */
  lemma MembersSorted(t: TopologySnapshot, roots: seq<ClosureNode>, limits: Budget)
    requires Valid(t)
    ensures Sorted(ClosureFrom(t, roots, limits).members, NodeLess)
  {
    NodeOrder();
    var end := Traversed(t, roots, limits);
    ListSorted(Absent(t.nodes, List(roots, NodeLess)) + Located(t.nodes, end.queue), NodeLess);
  }

  /** The incoming dependency edges of a set of members, each counted once. */
  ghost function InDegrees(t: TopologySnapshot, members: seq<ClosureNode>): (sum: nat)
    requires |t.reverse| == |t.nodes|
  {
    Degrees(Indexed(t), set i: nat | i < |t.nodes| && t.nodes[i] in members, |t.nodes|)
  }

  lemma MemberPositions(t: TopologySnapshot, roots: seq<ClosureNode>, s: State)
    requires Valid(t) && s.head <= |s.queue| && forall k :: 0 <= k < |s.queue| ==> s.queue[k] < |t.nodes|
    ensures (set i: nat | i < |t.nodes| && t.nodes[i] in Report(t, roots, s).members) == Vertices(s.queue)
  {
    forall i: nat | i < |t.nodes|
      ensures t.nodes[i] in Report(t, roots, s).members <==> i in s.queue
    {
      MemberMeans(t, roots, s, t.nodes[i]);
      SortedPosition(t.nodes, i);
    }
  }

  /** The closure is bounded, and examines each edge into its members exactly once. */
  lemma ClosureBounded(t: TopologySnapshot, roots: seq<ClosureNode>, limits: Budget)
    requires Valid(t)
    ensures var closure := ClosureFrom(t, roots, limits);
            && |closure.members| <= Max(Bounds(t, limits).nodes, |List(roots, NodeLess)|)
            && closure.edgesExamined <= Bounds(t, limits).edges
            && (!closure.state.Truncated? ==> closure.edgesExamined == InDegrees(t, closure.members))
  {
    var unique := List(roots, NodeLess);
    var end := Traversed(t, roots, limits);
    TraversedOutcome(t, roots, limits);
    ListLength(Absent(t.nodes, unique) + Located(t.nodes, end.queue), NodeLess);
    MemberPositions(t, unique, end);
  }

  lemma ListOne(r: ClosureNode)
    ensures List([r], NodeLess) == [r]
  {
    assert [r][..0] == [];
    assert List([], NodeLess) == [];
  }

  lemma AloneIn(nodes: seq<ClosureNode>, r: ClosureNode)
    requires r in nodes
    ensures Absent(nodes, [r]) == [] && Present(nodes, [r]) == [IndexOf(nodes, r)]
  {
    assert [r][..0] == [];
  }

  lemma EveryRootPresent(nodes: seq<ClosureNode>, unique: seq<ClosureNode>, r: ClosureNode)
    requires r in unique && Absent(nodes, unique) == []
    ensures r in nodes && IndexOf(nodes, r) in Vertices(Present(nodes, unique))
  {
    assert r !in Absent(nodes, unique);
    PresentHas(nodes, unique, r);
  }

  lemma AloneOutcome(nodes: seq<ClosureNode>, graph: Graph, bounds: Budget, r: ClosureNode, one: State)
    requires r in nodes && Traverses(nodes, graph, bounds, [r], one)
    ensures Outcome(graph, bounds, {IndexOf(nodes, r)}, 1, one) && one.absent == 0
  {
    AloneIn(nodes, r);
    assert Vertices([IndexOf(nodes, r)]) == {IndexOf(nodes, r)};
  }

  lemma OneRootVertices(nodes: seq<ClosureNode>, graph: Graph, bounds: Budget, unique: seq<ClosureNode>, all: State,
                        r: ClosureNode, one: State)
    requires r in unique
    requires Traverses(nodes, graph, bounds, unique, all) && !all.truncated && all.absent == 0
    requires Traverses(nodes, graph, bounds, [r], one)
    ensures r in nodes
    ensures Vertices(one.queue) == Reach(graph, {IndexOf(nodes, r)})
  {
    EveryRootPresent(nodes, unique, r);
    AloneOutcome(nodes, graph, bounds, r, one);
    OneRootComplete(graph, bounds, Vertices(Present(nodes, unique)), all, IndexOf(nodes, r), one, |unique|, 1);
  }

  lemma OneRootMembers(t: TopologySnapshot, bounds: Budget, unique: seq<ClosureNode>, all: State,
                       r: ClosureNode, one: State, x: ClosureNode)
    requires Valid(t) && r in unique
    requires Traverses(t.nodes, Indexed(t), bounds, unique, all) && !all.truncated && all.absent == 0
    requires Traverses(t.nodes, Indexed(t), bounds, [r], one)
    ensures x in Report(t, [r], one).members <==> Invalidates(t, r, x)
  {
    OneRootVertices(t.nodes, Indexed(t), bounds, unique, all, r, one);
    AloneIn(t.nodes, r);
    var i := IndexOf(t.nodes, r);
    assert Vertices([i]) == {i};
    MemberMeans(t, [r], one, x);
    ReachInvalidates(t, [r], x);
    assert InvalidatedBy(t, [r], x) <==> Invalidates(t, r, x);
    if x in t.nodes {
      assert IndexOf(t.nodes, x) in Vertices(one.queue) <==> IndexOf(t.nodes, x) in one.queue;
    }
  }

  lemma ReportFlags(t: TopologySnapshot, roots: seq<ClosureNode>, limits: Budget)
    requires Valid(t)
    ensures ClosureFrom(t, roots, limits).state.Truncated? == Traversed(t, roots, limits).truncated
    ensures ClosureFrom(t, roots, limits).rootsAbsent == Traversed(t, roots, limits).absent
  {
  }

  /**
   When the closure of all failed roots is complete and every root was present, the closure of
   each root on its own has every node that root invalidates, whether or not it is flagged
   truncated.
   */
  lemma OneRootExact(t: TopologySnapshot, roots: seq<ClosureNode>, limits: Budget, r: ClosureNode, x: ClosureNode)
    requires Valid(t) && r in roots
    requires !ClosureFrom(t, roots, limits).state.Truncated? && ClosureFrom(t, roots, limits).rootsAbsent == 0
    ensures x in ClosureFrom(t, [r], limits).members <==> Invalidates(t, r, x)
  {
    ReportFlags(t, roots, limits);
    TraversedOutcome(t, roots, limits);
    TraversedOutcome(t, [r], limits);
    assert List([r], NodeLess) == [r] by {
      ListOne(r);
    }
    OneRootMembers(t, Bounds(t, limits), List(roots, NodeLess), Traversed(t, roots, limits), r,
                   Traversed(t, [r], limits), x);
  }

  lemma OneRootFlags(nodes: seq<ClosureNode>, graph: Graph, bounds: Budget, unique: seq<ClosureNode>, all: State,
                     r: ClosureNode, one: State)
    requires r in unique
    requires Traverses(nodes, graph, bounds, unique, all) && !all.truncated && all.absent == 0
    requires Traverses(nodes, graph, bounds, [r], one)
    ensures one.truncated <==>
              Degrees(graph, Vertices(one.queue), |graph|) == bounds.edges && EndsBare(graph, one.queue)
  {
    EveryRootPresent(nodes, unique, r);
    AloneOutcome(nodes, graph, bounds, r, one);
    OneRootComplete(graph, bounds, Vertices(Present(nodes, unique)), all, IndexOf(nodes, r), one, |unique|, 1);
    OneRootFlag(graph, bounds, Vertices(Present(nodes, unique)), all, IndexOf(nodes, r), one, |unique|, 1);
  }

  /**
   Under the same conditions, the closure of one root is flagged truncated exactly when the edges
   into its members use up the edge bound and nothing depends on the node it found last.
   */
  lemma OneRootTruncated(t: TopologySnapshot, roots: seq<ClosureNode>, limits: Budget, r: ClosureNode)
    requires Valid(t) && r in roots
    requires !ClosureFrom(t, roots, limits).state.Truncated? && ClosureFrom(t, roots, limits).rootsAbsent == 0
    ensures ClosureFrom(t, [r], limits).state.Truncated? <==>
              && InDegrees(t, ClosureFrom(t, [r], limits).members) == Bounds(t, limits).edges
              && EndsBare(Indexed(t), Traversed(t, [r], limits).queue)
  {
    ReportFlags(t, roots, limits);
    ReportFlags(t, [r], limits);
    TraversedOutcome(t, roots, limits);
    TraversedOutcome(t, [r], limits);
    assert List([r], NodeLess) == [r] by {
      ListOne(r);
    }
    var one := Traversed(t, [r], limits);
    OneRootFlags(t.nodes, Indexed(t), Bounds(t, limits), List(roots, NodeLess), Traversed(t, roots, limits), r, one);
    MemberPositions(t, [r], one);
  }
}
