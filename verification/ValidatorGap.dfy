/**
 The inputs on which the planner's own plan does not pass the validator: a cycle through a failed
 generation and an edge bound that is met exactly (src/plan/planning_core.cpp:427-441,
 src/model/topology.cpp:441-453, src/plan/validator.cpp:113-116).
 */
module ValidatorGap {
  import opened Identity
  import opened Outcome
  import opened Canonical
  import opened Limits
  import opened Traversal
  import opened Topology
  import opened Closure
  import opened Evidence
  import opened Plan
  import opened Demands
  import opened Planner
  import opened PlanProperties
  import opened Realization
  import opened Validator
  import opened PlannerValidates

  // ---- The traversals ----

  /** A vertex with one dependent, on which a second root depends in turn. */
  ghost predicate Tied(graph: Graph) {
    |graph| == 3 && graph[0] == [2] && graph[1] == [] && graph[2] == [1]
  }

  ghost predicate Tight(bounds: Budget) {
    bounds.nodes > 3 && bounds.edges == 2
  }

  lemma ExpandOne(graph: Graph, bounds: Budget, s: State, d: nat)
    requires Legal(graph, s) && d < |graph| && s.examined < bounds.edges && s.Members() < bounds.nodes
    ensures Expand(graph, bounds, s, [d], 0)
         == s.(examined := s.examined + 1, queue := if d in s.queue then s.queue else s.queue + [d])
  {
    var seen := s.(examined := s.examined + 1);
    if d !in s.queue {
      assert Expand(graph, bounds, seen.(queue := s.queue + [d]), [d], 1) == seen.(queue := s.queue + [d]);
    }
  }

  lemma RunTurn(graph: Graph, bounds: Budget, s: State)
    requires Legal(graph, s) && !s.truncated && s.head < |s.queue|
    ensures Run(graph, bounds, s) == Run(graph, bounds, Step(graph, bounds, s))
  {
  }

  /** One turn of the traversal at a vertex with a single dependent. */
  lemma StepOne(graph: Graph, bounds: Budget, s: State, v: nat, d: nat)
    requires Legal(graph, s) && !s.truncated && s.head < |s.queue| && s.queue[s.head] == v
    requires graph[v] == [d] && d < |graph|
    requires s.Members() < bounds.nodes && s.examined < bounds.edges
    ensures Step(graph, bounds, s)
         == s.(head := s.head + 1, examined := s.examined + 1, queue := if d in s.queue then s.queue else s.queue + [d])
  {
    var popped := s.(head := s.head + 1);
    ExpandOne(graph, bounds, popped, d);
    assert Step(graph, bounds, s) == Expand(graph, bounds, popped, [d], 0);
  }

  /** One turn of the traversal at a vertex nothing depends on. */
  lemma StepNone(graph: Graph, bounds: Budget, s: State)
    requires Legal(graph, s) && !s.truncated && s.head < |s.queue| && graph[s.queue[s.head]] == []
    requires s.Members() < bounds.nodes && s.examined < bounds.edges
    ensures Step(graph, bounds, s) == s.(head := s.head + 1)
  {
  }

  /** From both roots, the traversal ends before it meets the edge bound. */
  lemma BothRoots(graph: Graph, bounds: Budget, s: State)
    requires Tied(graph) && Tight(bounds)
    requires Legal(graph, s) && s == State(0, s.queue, 0, 0, false) && s.queue == [0, 1]
    ensures !Run(graph, bounds, s).truncated
  {
    StepOne(graph, bounds, s, 0, 2);
    RunTurn(graph, bounds, s);
    var s1 := Step(graph, bounds, s);
    StepNone(graph, bounds, s1);
    RunTurn(graph, bounds, s1);
    var s2 := Step(graph, bounds, s1);
    StepOne(graph, bounds, s2, 2, 1);
    RunTurn(graph, bounds, s2);
  }

  /** From the first root alone it meets the bound with one vertex left, which has no dependents. */
  lemma FirstRoot(graph: Graph, bounds: Budget, s: State)
    requires Tied(graph) && Tight(bounds)
    requires Legal(graph, s) && s == State(0, s.queue, 0, 0, false) && s.queue == [0]
    ensures Run(graph, bounds, s).truncated
  {
    StepOne(graph, bounds, s, 0, 2);
    RunTurn(graph, bounds, s);
    var s1 := Step(graph, bounds, s);
    StepOne(graph, bounds, s1, 2, 1);
    RunTurn(graph, bounds, s1);
  }

  // ---- The inputs ----

  /** The service depends on the first generation, and the second generation on the service. */
  ghost predicate Cyclic(t: TopologySnapshot, a: ClosureNode, b: ClosureNode, s: ClosureNode) {
    t.nodes == [a, b, s] && t.reverse == [[s], [], [b]]
  }

  lemma CyclicTied(t: TopologySnapshot, a: ClosureNode, b: ClosureNode, s: ClosureNode)
    requires Topology.Valid(t) && Cyclic(t, a, b, s)
    ensures Tied(Indexed(t))
  {
    SortedPosition(t.nodes, 1);
    SortedPosition(t.nodes, 2);
  }

  lemma CyclicSeeds(t: TopologySnapshot, a: ClosureNode, b: ClosureNode, s: ClosureNode)
    requires Topology.Valid(t) && Cyclic(t, a, b, s)
    ensures List([a, b], NodeLess) == [a, b]
    ensures Seed(t.nodes, [a]) == State(0, [0], 0, 0, false)
    ensures Seed(t.nodes, [a, b]) == State(0, [0, 1], 0, 0, false)
  {
    NodeOrder();
    assert t.nodes[0] == a && t.nodes[1] == b;
    assert Sorted([a, b], NodeLess);
    ListUnique([a, b], [a, b], NodeLess);
    AloneIn(t.nodes, a);
    SortedPosition(t.nodes, 0);
    SortedPosition(t.nodes, 1);
    assert [a, b][..1] == [a];
  }

  lemma BothTraversed(t: TopologySnapshot, a: ClosureNode, b: ClosureNode, s: ClosureNode, limits: Budget)
    requires Topology.Valid(t) && Cyclic(t, a, b, s) && Tight(Bounds(t, limits))
    ensures !Traversed(t, [a, b], limits).truncated && Traversed(t, [a, b], limits).absent == 0
  {
    CyclicTied(t, a, b, s);
    CyclicSeeds(t, a, b, s);
    BothRoots(Indexed(t), Bounds(t, limits), Seed(t.nodes, [a, b]));
  }

  lemma FirstTraversed(t: TopologySnapshot, a: ClosureNode, b: ClosureNode, s: ClosureNode, limits: Budget)
    requires Topology.Valid(t) && Cyclic(t, a, b, s) && Tight(Bounds(t, limits))
    ensures Traversed(t, [a], limits).truncated
  {
    CyclicTied(t, a, b, s);
    CyclicSeeds(t, a, b, s);
    ListOne(a);
    FirstRoot(Indexed(t), Bounds(t, limits), Seed(t.nodes, [a]));
  }

  lemma CyclicFlags(inputs: PlanInputs, a: SwitchKey, b: SwitchKey, s: DependentRef)
    requires ValidInputs(inputs) && Cyclic(inputs.topology, SwitchNode(a), SwitchNode(b), DependentNode(s))
    requires Tight(Bounds(inputs.topology, ClosureBudget(inputs.limits)))
    ensures ClosureComplete(inputs, [a, b]) && Single(inputs, a).state.Truncated?
  {
    var budget := ClosureBudget(inputs.limits);
    BothTraversed(inputs.topology, SwitchNode(a), SwitchNode(b), DependentNode(s), budget);
    FirstTraversed(inputs.topology, SwitchNode(a), SwitchNode(b), DependentNode(s), budget);
    assert Roots([a, b]) == [SwitchNode(a), SwitchNode(b)];
    ReportFlags(inputs.topology, Roots([a, b]), budget);
    ReportFlags(inputs.topology, [SwitchNode(a)], budget);
  }

  /**
   On every such input the validator refuses whatever plan the planner makes, even with both
   generations fenced and every link known: one fence step is flagged truncated in a plan whose
   closure is complete.
   */
  lemma FencedPlanRefused(inputs: PlanInputs, a: SwitchKey, b: SwitchKey, s: DependentRef, plan: ReconstructionPlan,
                          choice: seq<nat>, proven: bool)
    requires ValidInputs(inputs) && Ready(inputs, [a, b]) && Realizes(inputs, [a, b], plan, choice, proven)
    requires Cyclic(inputs.topology, SwitchNode(a), SwitchNode(b), DependentNode(s))
    requires Tight(Bounds(inputs.topology, ClosureBudget(inputs.limits)))
    ensures !ValidPlan(inputs, plan)
  {
    CyclicFlags(inputs, a, b, s);
    assert plan.fences[0] == Fence(a, Single(inputs, a));
    assert !FenceOk(inputs, plan, plan.fences[0]);
  }

  // ---- They exist ----

  function GapTopology(a: SwitchKey, b: SwitchKey, s: DependentRef): (t: TopologySnapshot) {
    TopologySnapshot(
      map[a := SwitchDescriptor(a, 1, 0, 1), b := SwitchDescriptor(b, 2, 0, 1)],
      map[], map[],
      {DependencyEdge(DependentNode(s), SwitchNode(a)), DependencyEdge(SwitchNode(b), DependentNode(s))},
      [SwitchNode(a), SwitchNode(b), DependentNode(s)],
      [[DependentNode(s)], [], [SwitchNode(b)]],
      Budget(8, 2))
  }

  function GapInputs(a: SwitchKey, b: SwitchKey, s: DependentRef): (inputs: PlanInputs) {
    PlanInputs(
      GapTopology(a, b, s), [], (key: SwitchKey) => SwitchAssessment(Code.Unknown, UnknownHealth, false, false), {a, b},
      Limits(8, 2, 8, 8, 8, 8, 8, 8, 8, 8),
      AssessmentPolicy(true, false, true, true, 0), PlanningPolicy(false, true, true, true, false, 256), 1, 1, 1)
  }

  /** Two fenced generations, one service, no alternatives: an ordinary input of the planner. */
  lemma GapExists(a: SwitchKey, b: SwitchKey, s: DependentRef)
    requires a.Valid() && b.Valid() && s.Valid() && KeyLess(a, b)
    ensures var inputs := GapInputs(a, b, s);
            && ValidInputs(inputs) && Ready(inputs, [a, b]) && AllFenced(inputs, [a, b])
            && Cyclic(inputs.topology, SwitchNode(a), SwitchNode(b), DependentNode(s))
            && Tight(Bounds(inputs.topology, ClosureBudget(inputs.limits)))
  {
    var t := GapTopology(a, b, s);
    forall i | 0 <= i < |t.nodes|
      ensures Lists(t, i)
    {
    }
    assert t.nodes[0] in t.nodes && t.nodes[1] in t.nodes && t.nodes[2] in t.nodes;
  }

  lemma CyclicDemand(inputs: PlanInputs, a: SwitchKey, b: SwitchKey, s: DependentRef, d: Demand)
    requires ValidInputs(inputs) && Cyclic(inputs.topology, SwitchNode(a), SwitchNode(b), DependentNode(s))
    requires d in DemandsOf(inputs, [a, b])
    ensures d in {Demand(s, a), Demand(s, b)}
  {
    DemandsSound(inputs, [a, b], d);
    CyclicDependent(inputs.topology, a, b, s, d.failed, d.dependent);
  }

  lemma CyclicDependent(t: TopologySnapshot, a: SwitchKey, b: SwitchKey, s: DependentRef, failed: SwitchKey,
                        dependent: DependentRef)
    requires Topology.Valid(t) && Cyclic(t, SwitchNode(a), SwitchNode(b), DependentNode(s))
    requires Invalidates(t, SwitchNode(failed), DependentNode(dependent))
    ensures dependent == s
  {
    InvalidatedNode(t, SwitchNode(failed), DependentNode(dependent));
  }

  lemma InvalidatedNode(t: TopologySnapshot, root: ClosureNode, x: ClosureNode)
    requires Topology.Valid(t) && Invalidates(t, root, x) && x != root
    ensures x in t.nodes
  {
    var chain :| Chain(t, chain) && chain[0] == root && chain[|chain| - 1] == x;
    var k := |chain| - 2;
    assert DependencyEdge(chain[k + 1], chain[k]) in t.edges;
  }

  lemma CyclicDemandsFew(inputs: PlanInputs, a: SwitchKey, b: SwitchKey, s: DependentRef)
    requires ValidInputs(inputs) && Cyclic(inputs.topology, SwitchNode(a), SwitchNode(b), DependentNode(s))
    ensures |DemandsOf(inputs, [a, b])| <= 2
  {
    var demands := DemandsOf(inputs, [a, b]);
    DemandsSorted(inputs, [a, b]);
    DemandOrder();
    SortedLength(demands, DemandLess);
    forall d | d in demands
      ensures d in {Demand(s, a), Demand(s, b)}
    {
      CyclicDemand(inputs, a, b, s, d);
    }
    FewElements(Elements(demands), Demand(s, a), Demand(s, b));
  }

  lemma FewElements<T>(all: set<T>, x: T, y: T)
    requires all <= {x, y}
    ensures |all| <= 2
  {
    var rest := all - {x};
    assert rest <= {y};
    if y in rest {
      assert rest == {y};
    } else {
      assert rest == {};
    }
    assert all <= rest + {x};
    if x in all {
      assert all == rest + {x};
    } else {
      assert all == rest;
    }
  }

  /**
   On these inputs the planner returns a plan, within every bound, and the validator refuses every
   plan it could return.
   */
  lemma GapRefused(a: SwitchKey, b: SwitchKey, s: DependentRef)
    requires a.Valid() && b.Valid() && s.Valid() && KeyLess(a, b)
    ensures var inputs := GapInputs(a, b, s);
            && ValidInputs(inputs) && Ready(inputs, [a, b]) && AllFenced(inputs, [a, b])
            && (exists plan, choice, proven :: Realizes(inputs, [a, b], plan, choice, proven))
            && forall plan, choice, proven :: Realizes(inputs, [a, b], plan, choice, proven) ==>
                 |plan.unresolved| <= inputs.limits.maxUnresolvedDependents && !ValidPlan(inputs, plan)
  {
    var inputs := GapInputs(a, b, s);
    GapExists(a, b, s);
    CyclicDemandsFew(inputs, a, b, s);
    var options := OptionsOf(inputs, DemandsOf(inputs, [a, b]));
    var one, serving := OnlyRealized(inputs, [a, b], |options|, 0);
    forall plan, choice, proven | Realizes(inputs, [a, b], plan, choice, proven)
      ensures |plan.unresolved| <= inputs.limits.maxUnresolvedDependents && !ValidPlan(inputs, plan)
    {
      Accounting(options, choice, proven, |options|);
      FencedPlanRefused(inputs, a, b, s, plan, choice, proven);
    }
  }
}
