/**
 The bounded breadth-first traversal of the reverse dependency index (TopologySnapshot::closure_from,
 src/model/topology.cpp), on node indices. Vertex i has the indices of its direct dependents in
 graph[i]; an index at or past the end stands for a dependent that is not in the node table.
 */
module Traversal {

  type Graph = seq<seq<nat>>

  datatype Budget = Budget(nodes: nat, edges: nat)

  /** `absent` counts the roots that are members without being in the node table. */
  datatype State = State(absent: nat, queue: seq<nat>, head: nat, examined: nat, truncated: bool) {
    function Members(): (count: nat) {
      absent + |queue|
    }
  }

  // ---- Reachability ----

  predicate Edge(graph: Graph, i: nat, j: nat) {
    i < |graph| && j < |graph| && j in graph[i]
  }

  ghost predicate Walk(graph: Graph, walk: seq<nat>) {
    && |walk| > 0
    && (forall k :: 0 <= k < |walk| ==> walk[k] < |graph|)
    && (forall k :: 0 <= k < |walk| - 1 ==> Edge(graph, walk[k], walk[k + 1]))
  }

  ghost predicate Reachable(graph: Graph, roots: set<nat>, j: nat) {
    exists walk :: Walk(graph, walk) && walk[0] in roots && walk[|walk| - 1] == j
  }

  ghost function Reach(graph: Graph, roots: set<nat>): (reach: set<nat>) {
    set j: nat | j < |graph| && Reachable(graph, roots, j)
  }

  ghost predicate Closed(graph: Graph, vertices: set<nat>) {
    forall i, j :: i in vertices && Edge(graph, i, j) ==> j in vertices
  }

  lemma ReachRoot(graph: Graph, roots: set<nat>, i: nat)
    requires i in roots && i < |graph|
    ensures i in Reach(graph, roots)
  {
    assert Walk(graph, [i]);
  }

  lemma ReachEdge(graph: Graph, roots: set<nat>, i: nat, j: nat)
    requires i in Reach(graph, roots) && Edge(graph, i, j)
    ensures j in Reach(graph, roots)
  {
    var walk :| Walk(graph, walk) && walk[0] in roots && walk[|walk| - 1] == i;
    var longer := walk + [j];
    forall k | 0 <= k < |longer| - 1
      ensures Edge(graph, longer[k], longer[k + 1])
    {
      assert k < |walk| - 1 ==> longer[k + 1] == walk[k + 1];
    }
    assert Walk(graph, longer);
  }

  lemma {:induction false} WalkStays(graph: Graph, vertices: set<nat>, walk: seq<nat>)
    requires Closed(graph, vertices) && Walk(graph, walk) && walk[0] in vertices
    ensures walk[|walk| - 1] in vertices
  {
    if |walk| > 1 {
      var shorter := walk[..|walk| - 1];
      WalkStays(graph, vertices, shorter);
      assert Edge(graph, walk[|walk| - 2], walk[|walk| - 1]);
    }
  }

  /** The reachable vertices are the least closed set above the roots. */
  lemma ReachLeast(graph: Graph, roots: set<nat>, vertices: set<nat>)
    requires Closed(graph, vertices) && roots <= vertices
    ensures Reach(graph, roots) <= vertices
  {
    forall j | j in Reach(graph, roots)
      ensures j in vertices
    {
      var walk :| Walk(graph, walk) && walk[0] in roots && walk[|walk| - 1] == j;
      WalkStays(graph, vertices, walk);
    }
  }

  lemma ReachMonotone(graph: Graph, few: set<nat>, many: set<nat>)
    requires few <= many
    ensures Reach(graph, few) <= Reach(graph, many)
  {
  }

  // ---- In-degrees, summed independently of the visiting order ----

  ghost function Degrees(graph: Graph, vertices: set<nat>, n: nat): (sum: nat)
    requires n <= |graph|
  {
    if n == 0 then 0
    else Degrees(graph, vertices, n - 1) + if n - 1 in vertices then |graph[n - 1]| else 0
  }

  lemma {:induction false} DegreesAdd(graph: Graph, vertices: set<nat>, i: nat, n: nat)
    requires n <= |graph| && i !in vertices
    ensures Degrees(graph, vertices + {i}, n) == Degrees(graph, vertices, n) + if i < n then |graph[i]| else 0
  {
    if n > 0 {
      DegreesAdd(graph, vertices, i, n - 1);
    }
  }

  lemma {:induction false} DegreesMonotone(graph: Graph, few: set<nat>, many: set<nat>, n: nat)
    requires n <= |graph| && few <= many
    ensures Degrees(graph, few, n) <= Degrees(graph, many, n)
  {
    if n > 0 {
      DegreesMonotone(graph, few, many, n - 1);
    }
  }

  // ---- The traversal ----

  ghost predicate Distinct(queue: seq<nat>) {
    forall i, j :: 0 <= i < j < |queue| ==> queue[i] != queue[j]
  }

  function Vertices(queue: seq<nat>): (vertices: set<nat>)
    ensures forall i :: i in vertices <==> i in queue
  {
    set i | i in queue
  }

  lemma {:induction false} DistinctCount(queue: seq<nat>)
    requires Distinct(queue)
    ensures |Vertices(queue)| == |queue|
  {
    if queue != [] {
      var last := |queue| - 1;
      DistinctCount(queue[..last]);
      assert Vertices(queue) == Vertices(queue[..last]) + {queue[last]};
    }
  }

  lemma {:induction false} Pigeonhole(vertices: set<nat>, n: nat)
    requires forall i :: i in vertices ==> i < n
    ensures |vertices| <= n
  {
    if n > 0 {
      Pigeonhole(vertices - {n - 1}, n - 1);
    } else {
      assert vertices == {};
    }
  }

  /** No vertex is queued twice, and the queue holds only vertices of the graph. */
  ghost predicate Legal(graph: Graph, s: State) {
    && s.head <= |s.queue|
    && Distinct(s.queue)
    && (forall k :: 0 <= k < |s.queue| ==> s.queue[k] < |graph|)
  }

  lemma QueueBounded(graph: Graph, s: State)
    requires Legal(graph, s)
    ensures |s.queue| <= |graph|
  {
    DistinctCount(s.queue);
    Pigeonhole(Vertices(s.queue), |graph|);
  }

  /** Examines the direct dependents of one vertex, from position k on. */
  ghost function Expand(graph: Graph, budget: Budget, s: State, dependents: seq<nat>, k: nat): (t: State)
    requires Legal(graph, s) && k <= |dependents|
    ensures Legal(graph, t) && t.head == s.head && t.absent == s.absent && s.queue <= t.queue
    decreases |dependents| - k
  {
    if k == |dependents| then s
    else if s.examined >= budget.edges then s.(truncated := true)
    else
      var seen := s.(examined := s.examined + 1);
      var d := dependents[k];
      if d >= |graph| || d in s.queue then Expand(graph, budget, seen, dependents, k + 1)
      else if s.Members() >= budget.nodes then seen.(truncated := true)
      else Expand(graph, budget, seen.(queue := s.queue + [d]), dependents, k + 1)
  }

  /** One vertex taken from the queue, unless a bound has been met. */
  ghost function Step(graph: Graph, budget: Budget, s: State): (t: State)
    requires Legal(graph, s) && !s.truncated && s.head < |s.queue|
    ensures Legal(graph, t) && t.absent == s.absent && s.queue <= t.queue
    ensures !t.truncated ==> t.head == s.head + 1
  {
    if s.Members() >= budget.nodes || s.examined >= budget.edges then s.(truncated := true)
    else Expand(graph, budget, s.(head := s.head + 1), graph[s.queue[s.head]], 0)
  }

  /** The whole traversal from a given state. */
  ghost function Run(graph: Graph, budget: Budget, s: State): (t: State)
    requires Legal(graph, s)
    ensures Legal(graph, t) && t.absent == s.absent && s.queue <= t.queue
    decreases (QueueBounded(graph, s); |graph| - s.head), !s.truncated
  {
    if s.truncated || s.head == |s.queue| then s
    else
      QueueBounded(graph, s);
      Run(graph, budget, Step(graph, budget, s))
  }

  // ---- What the traversal finds ----

  function Max(a: nat, b: nat): (m: nat) {
    if a < b then b else a
  }

  /** Every root has been found, and nothing that is not reachable from a root. */
  ghost predicate Found(graph: Graph, roots: set<nat>, s: State) {
    roots <= Vertices(s.queue) <= Reach(graph, roots)
  }

  ghost predicate Within(budget: Budget, initial: nat, s: State) {
    s.examined <= budget.edges && s.Members() <= Max(budget.nodes, initial)
  }

  /** The vertices before the head have been fully examined, and everything they lead to is queued. */
  ghost predicate Examined(graph: Graph, s: State)
    requires s.head <= |s.queue|
  {
    && (forall i, j :: i in s.queue[..s.head] && Edge(graph, i, j) ==> j in s.queue)
    && s.examined == Degrees(graph, Vertices(s.queue[..s.head]), |graph|)
  }

  lemma {:induction false} ExpandWithin(graph: Graph, budget: Budget, bound: set<nat>, initial: nat,
                                        s: State, dependents: seq<nat>, k: nat)
    requires Legal(graph, s) && k <= |dependents|
    requires forall d :: d in dependents && d < |graph| ==> d in bound
    requires Vertices(s.queue) <= bound && Within(budget, initial, s)
    ensures var t := Expand(graph, budget, s, dependents, k);
            Vertices(t.queue) <= bound && Within(budget, initial, t)
    decreases |dependents| - k
  {
    if k < |dependents| && s.examined < budget.edges {
      var seen := s.(examined := s.examined + 1);
      var d := dependents[k];
      assert d in dependents;
      if d >= |graph| || d in s.queue {
        ExpandWithin(graph, budget, bound, initial, seen, dependents, k + 1);
      } else if s.Members() < budget.nodes {
        var longer := seen.(queue := s.queue + [d]);
        assert Vertices(longer.queue) == Vertices(s.queue) + {d};
        ExpandWithin(graph, budget, bound, initial, longer, dependents, k + 1);
      }
    }
  }

  /** Uncut, every dependent is examined and queued; cut, a bound was in the way. */
  lemma {:induction false} ExpandExamines(graph: Graph, budget: Budget, s: State, dependents: seq<nat>, k: nat)
    requires Legal(graph, s) && k <= |dependents| && !s.truncated
    ensures var t := Expand(graph, budget, s, dependents, k);
            && (!t.truncated ==>
                  && t.examined == s.examined + |dependents| - k
                  && forall m :: k <= m < |dependents| && dependents[m] < |graph| ==> dependents[m] in t.queue)
            && (t.truncated ==> t.Members() >= budget.nodes || s.examined + |dependents| - k > budget.edges)
    decreases |dependents| - k
  {
    if k < |dependents| && s.examined < budget.edges {
      var seen := s.(examined := s.examined + 1);
      var d := dependents[k];
      if d >= |graph| || d in s.queue {
        ExpandExamines(graph, budget, seen, dependents, k + 1);
      } else if s.Members() < budget.nodes {
        var longer := seen.(queue := s.queue + [d]);
        assert longer.queue[|s.queue|] == d;
        ExpandExamines(graph, budget, longer, dependents, k + 1);
      }
    }
  }

  lemma ExpandFinds(graph: Graph, budget: Budget, roots: set<nat>, initial: nat, s: State, v: nat)
    requires Legal(graph, s) && v in Reach(graph, roots) && Found(graph, roots, s) && Within(budget, initial, s)
    ensures var t := Expand(graph, budget, s, graph[v], 0);
            Found(graph, roots, t) && Within(budget, initial, t)
  {
    forall d | d in graph[v] && d < |graph|
      ensures d in Reach(graph, roots)
    {
      ReachEdge(graph, roots, v, d);
    }
    ExpandWithin(graph, budget, Reach(graph, roots), initial, s, graph[v], 0);
  }

  /** A traversal still under way. */
  ghost predicate Underway(graph: Graph, budget: Budget, roots: set<nat>, initial: nat, s: State) {
    && Legal(graph, s) && !s.truncated
    && Found(graph, roots, s) && Within(budget, initial, s) && Examined(graph, s)
    && (0 < s.head == |s.queue| ==> s.Members() < budget.nodes)
    && (0 < s.head == |s.queue| && EndsBare(graph, s.queue) ==> s.examined < budget.edges)
  }

  /** Nothing depends on the vertex found last. */
  ghost predicate EndsBare(graph: Graph, queue: seq<nat>) {
    queue != [] && queue[|queue| - 1] < |graph| && graph[queue[|queue| - 1]] == []
  }

  /** Everything has been found and every edge examined, and a vertex without dependents was left. */
  ghost predicate MetExactly(graph: Graph, budget: Budget, roots: set<nat>, t: State) {
    && Vertices(t.queue) == Reach(graph, roots)
    && Degrees(graph, Vertices(t.queue), |graph|) == budget.edges
    && EndsBare(graph, t.queue)
  }

  /**
   What a traversal establishes. Left uncut, it has found exactly the reachable vertices and
   examined each of their incoming edges once. Cut, it has met a bound: the node bound, or an
   edge bound below the in-degrees of what it found, or the edge bound exactly, after the last
   edge there was to examine.
   */
  ghost predicate Outcome(graph: Graph, budget: Budget, roots: set<nat>, initial: nat, t: State) {
    && Legal(graph, t) && Found(graph, roots, t) && Within(budget, initial, t)
    && (!t.truncated ==>
          && Vertices(t.queue) == Reach(graph, roots)
          && t.examined == Degrees(graph, Vertices(t.queue), |graph|)
          && (t.queue != [] ==> t.Members() < budget.nodes)
          && (EndsBare(graph, t.queue) ==> t.examined < budget.edges))
    && (t.truncated ==>
          || t.Members() >= budget.nodes
          || Degrees(graph, Vertices(t.queue), |graph|) > budget.edges
          || MetExactly(graph, budget, roots, t))
  }

  lemma ExaminedNext(graph: Graph, s: State)
    requires Legal(graph, s) && s.head < |s.queue|
    ensures var done := Vertices(s.queue[..s.head]);
            var v := s.queue[s.head];
            && Vertices(s.queue[..s.head + 1]) == done + {v}
            && Degrees(graph, done + {v}, |graph|) == Degrees(graph, done, |graph|) + |graph[v]|
  {
    var done := Vertices(s.queue[..s.head]);
    var v := s.queue[s.head];
    assert s.queue[..s.head + 1] == s.queue[..s.head] + [v];
    DegreesAdd(graph, done, v, |graph|);
  }

  lemma PrefixDegrees(graph: Graph, s: State, n: nat)
    requires n <= |s.queue|
    ensures Degrees(graph, Vertices(s.queue[..n]), |graph|) <= Degrees(graph, Vertices(s.queue), |graph|)
  {
    DegreesMonotone(graph, Vertices(s.queue[..n]), Vertices(s.queue), |graph|);
  }

  lemma Finished(graph: Graph, budget: Budget, roots: set<nat>, initial: nat, s: State)
    requires Underway(graph, budget, roots, initial, s) && s.head == |s.queue|
    ensures Outcome(graph, budget, roots, initial, s)
  {
    assert s.queue[..s.head] == s.queue;
    ReachLeast(graph, roots, Vertices(s.queue));
  }

  lemma BareRest(graph: Graph, s: State, i: nat)
    requires Legal(graph, s) && Examined(graph, s) && i in s.queue && i !in s.queue[..s.head]
    requires Degrees(graph, Vertices(s.queue), |graph|) <= s.examined
    ensures i < |graph| && graph[i] == []
  {
    var done := Vertices(s.queue[..s.head]);
    DegreesAdd(graph, done, i, |graph|);
    DegreesMonotone(graph, done + {i}, Vertices(s.queue), |graph|);
  }

  /** When the edge bound stops the traversal between vertices, the rest of the queue decides. */
  lemma StoppedBetween(graph: Graph, budget: Budget, roots: set<nat>, initial: nat, s: State)
    requires Underway(graph, budget, roots, initial, s) && s.head < |s.queue| && s.examined >= budget.edges
    ensures Degrees(graph, Vertices(s.queue), |graph|) > budget.edges || MetExactly(graph, budget, roots, s)
  {
    var all := Vertices(s.queue);
    if Degrees(graph, all, |graph|) <= budget.edges {
      forall i, j | i in all && Edge(graph, i, j)
        ensures j in all
      {
        if i !in s.queue[..s.head] {
          BareRest(graph, s, i);
        }
      }
      ReachLeast(graph, roots, all);
      PrefixDegrees(graph, s, s.head);
      var last := s.queue[|s.queue| - 1];
      assert last !in s.queue[..s.head];
      BareRest(graph, s, last);
    }
  }

  lemma StepKeeps(graph: Graph, budget: Budget, roots: set<nat>, initial: nat, s: State, t: State)
    requires Underway(graph, budget, roots, initial, s) && s.head < |s.queue|
    requires s.Members() < budget.nodes && s.examined < budget.edges
    requires t == Expand(graph, budget, s.(head := s.head + 1), graph[s.queue[s.head]], 0)
    ensures !t.truncated ==> Underway(graph, budget, roots, initial, t)
    ensures t.truncated ==> Outcome(graph, budget, roots, initial, t)
  {
    var popped := s.(head := s.head + 1);
    var v := s.queue[s.head];
    assert v in Vertices(s.queue);
    ExaminedNext(graph, s);
    ExpandFinds(graph, budget, roots, initial, popped, v);
    ExpandExamines(graph, budget, popped, graph[v], 0);
    assert t.queue[..t.head] == s.queue[..s.head + 1];
    if t.truncated {
      PrefixDegrees(graph, t, t.head);
    } else {
      assert t.queue[s.head] == v && t.head == s.head + 1;
      forall i, j | i in t.queue[..t.head] && Edge(graph, i, j)
        ensures j in t.queue
      {
        if i in s.queue[..s.head] {
          assert j in s.queue;
        } else {
          assert i == v;
          var m :| 0 <= m < |graph[v]| && graph[v][m] == j;
        }
      }
    }
  }

  lemma StepOutcome(graph: Graph, budget: Budget, roots: set<nat>, initial: nat, s: State)
    requires Underway(graph, budget, roots, initial, s) && s.head < |s.queue|
    ensures var t := Step(graph, budget, s);
            if t.truncated then Outcome(graph, budget, roots, initial, t)
            else Underway(graph, budget, roots, initial, t) && s.head < t.head
  {
    if s.examined >= budget.edges {
      StoppedBetween(graph, budget, roots, initial, s);
    } else if s.Members() < budget.nodes {
      var t := Expand(graph, budget, s.(head := s.head + 1), graph[s.queue[s.head]], 0);
      StepKeeps(graph, budget, roots, initial, s, t);
    }
  }

  lemma {:induction false} RunOutcome(graph: Graph, budget: Budget, roots: set<nat>, initial: nat, s: State)
    requires Underway(graph, budget, roots, initial, s)
    ensures Outcome(graph, budget, roots, initial, Run(graph, budget, s))
    decreases (QueueBounded(graph, s); |graph| - s.head)
  {
    QueueBounded(graph, s);
    if s.head == |s.queue| {
      Finished(graph, budget, roots, initial, s);
    } else {
      var t := Step(graph, budget, s);
      StepOutcome(graph, budget, roots, initial, s);
      if !t.truncated {
        RunOutcome(graph, budget, roots, initial, t);
      }
    }
  }

  // ---- One root against all of them ----

  lemma SubsetCount(few: set<nat>, many: set<nat>)
    requires few <= many
    ensures |few| <= |many|
  {
    assert many == few + (many - few);
  }

  /** Below an uncut traversal of all roots, that of one root stays clear of both bounds. */
  lemma OneRootClear(graph: Graph, budget: Budget, roots: set<nat>, all: State, root: nat, one: State, n: nat, m: nat)
    requires Outcome(graph, budget, roots, n, all) && !all.truncated && all.absent == 0
    requires Outcome(graph, budget, {root}, m, one) && one.absent == 0
    requires root in roots
    ensures one.queue != [] && one.Members() < budget.nodes
    ensures Degrees(graph, Vertices(one.queue), |graph|) <= budget.edges
  {
    var everything, some := Vertices(all.queue), Vertices(one.queue);
    ReachMonotone(graph, {root}, roots);
    DistinctCount(all.queue);
    DistinctCount(one.queue);
    SubsetCount(some, everything);
    DegreesMonotone(graph, some, everything, |graph|);
    assert root in everything && root in some;
  }

  /**
   When the traversal from all roots was not cut and every root is a vertex, the traversal from
   any one of them finds everything that root reaches. It may still be flagged as cut, by meeting
   the edge bound exactly, but nothing is missing from it.
   */
  lemma OneRootComplete(graph: Graph, budget: Budget, roots: set<nat>, all: State, root: nat, one: State, n: nat,
                        m: nat)
    requires Outcome(graph, budget, roots, n, all) && !all.truncated && all.absent == 0
    requires Outcome(graph, budget, {root}, m, one) && one.absent == 0
    requires root in roots
    ensures Vertices(one.queue) == Reach(graph, {root})
  {
    OneRootClear(graph, budget, roots, all, root, one, n, m);
  }

  /**
   Exactly when it is flagged: every edge below that root uses up the edge bound, and the vertex it
   finds last has no dependents of its own, so that it is left in the queue with nothing to do.
   */
  lemma OneRootFlag(graph: Graph, budget: Budget, roots: set<nat>, all: State, root: nat, one: State, n: nat, m: nat)
    requires Outcome(graph, budget, roots, n, all) && !all.truncated && all.absent == 0
    requires Outcome(graph, budget, {root}, m, one) && one.absent == 0
    requires root in roots
    ensures one.truncated <==>
              Degrees(graph, Reach(graph, {root}), |graph|) == budget.edges && EndsBare(graph, one.queue)
  {
    OneRootClear(graph, budget, roots, all, root, one, n, m);
    OneRootComplete(graph, budget, roots, all, root, one, n, m);
  }
}
