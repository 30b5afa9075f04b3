/**
 The assignment phase of planning (src/plan/planning_core.cpp:514-625): the fast path, or one
 bounded search per component out of one shared budget, merged by demand index.
 */
module Solver {
  import opened Assignment
  import opened Decomposition
  import opened Components
  import opened ComponentSearch
  import opened FastPath

  /** Writes a component's decisions back to the demands they belong to. */
  method Merge(choice: seq<nat>, members: seq<nat>, part: seq<nat>) returns (merged: seq<nat>)
    requires Indices(members, |choice|) && |part| == |members| && Distinct(members)
    ensures |merged| == |choice|
    ensures Pick(merged, members) == part
    ensures forall i :: 0 <= i < |choice| && i !in members ==> merged[i] == choice[i]
  {
    merged := choice;
    for position := 0 to |members|
      invariant |merged| == |choice|
      invariant forall p :: 0 <= p < position ==> merged[members[p]] == part[p]
      invariant forall i :: 0 <= i < |choice| && i !in members ==> merged[i] == choice[i]
    {
      merged := merged[members[position] := part[position]];
    }
  }

  /** The indices of group r, each once. */
  ghost predicate Selects(members: seq<nat>, group: seq<nat>, n: nat, r: nat)
    requires n <= |group|
  {
    && (forall p :: 0 <= p < |members| ==> members[p] < n && group[members[p]] == r)
    && Distinct(members)
  }

  lemma {:induction false} MembersSelect(group: seq<nat>, n: nat, r: nat)
    requires n <= |group|
    ensures Selects(Members(group, n, r), group, n, r)
  {
    if n > 0 {
      MembersSelect(group, n - 1, r);
    }
  }

  /** Merging one component leaves every other component's decisions alone. */
  lemma OthersUntouched(group: seq<nat>, before: seq<nat>, after: seq<nat>, r: nat, q: nat)
    requires |before| == |after| == |group| && r != q
    requires forall i :: 0 <= i < |group| && i !in Members(group, |group|, r) ==> after[i] == before[i]
    ensures Part(after, group, |group|, q) == Part(before, group, |group|, q)
  {
    MembersSelect(group, |group|, r);
    MembersSelect(group, |group|, q);
    var members := Members(group, |group|, q);
    forall p | 0 <= p < |members|
      ensures after[members[p]] == before[members[p]]
    {
      assert members[p] !in Members(group, |group|, r);
    }
  }

  lemma PartWellFormed(options: Options, group: seq<nat>, r: nat)
    requires WellFormed(options) && |group| == |options|
    ensures WellFormed(Part(options, group, |options|, r))
  {
  }

  /** A component without members has nothing to decide. */
  lemma EmptyPart(options: Options, capacity: Capacity, group: seq<nat>, choice: seq<nat>, r: nat)
    requires |choice| == |group| == |options| && Members(group, |options|, r) == []
    ensures PartOptimum(options, capacity, group, choice, r)
  {
    assert forall other :: Feasible([], Restrict(capacity, []), other) ==> other == [];
  }

  /** One component's search, out of what is left of the budget. */
  method SearchOne(options: Options, capacity: Capacity, members: seq<nat>, budget: nat, ghost group: seq<nat>,
                   ghost r: nat)
    returns (part: seq<nat>, complete: bool, nodes: nat)
    requires WellFormed(options) && |group| == |options| && members == Members(group, |options|, r)
    ensures var own := Part(options, group, |options|, r);
            && |part| == |members|
            && Feasible(own, Restrict(capacity, own), part)
            && (complete ==> Optimum(own, Restrict(capacity, own), part))
    ensures nodes <= budget && (!complete ==> nodes == budget)
  {
    var evaluations := Pick(options, members);
    PartWellFormed(options, group, r);
    var search := new ComponentSearch(evaluations, Restrict(capacity, evaluations), budget);
    var solution, exhausted := search.Run();
    part, complete, nodes := solution.choice, exhausted, search.nodes;
  }

  /** Searches one component and writes its decisions back. */
  method Decide(options: Options, capacity: Capacity, members: seq<nat>, budget: nat, before: seq<nat>,
                ghost group: seq<nat>, ghost r: nat)
    returns (choice: seq<nat>, complete: bool, nodes: nat)
    requires WellFormed(options) && |before| == |group| == |options| && members == Members(group, |options|, r)
    ensures |choice| == |options|
    ensures forall q :: 0 <= q < r ==> Part(choice, group, |options|, q) == Part(before, group, |options|, q)
    ensures PartFeasible(options, capacity, group, choice, r)
    ensures complete ==> PartOptimum(options, capacity, group, choice, r)
    ensures nodes <= budget && (!complete ==> nodes == budget)
  {
    var part;
    part, complete, nodes := SearchOne(options, capacity, members, budget, group, r);
    MembersSelect(group, |options|, r);
    choice := Merge(before, members, part);
    forall q | 0 <= q < r
      ensures Part(choice, group, |options|, q) == Part(before, group, |options|, q)
    {
      OthersUntouched(group, before, choice, r, q);
    }
  }

  /** The components below r are decided within capacity. */
  ghost predicate FeasibleBelow(options: Options, capacity: Capacity, group: seq<nat>, choice: seq<nat>, r: nat)
    requires |choice| == |group| == |options|
  {
    forall q :: 0 <= q < r ==> PartFeasible(options, capacity, group, choice, q)
  }

  /** The components below r are decided optimally. */
  ghost predicate OptimalBelow(options: Options, capacity: Capacity, group: seq<nat>, choice: seq<nat>, r: nat)
    requires |choice| == |group| == |options|
  {
    forall q :: 0 <= q < r ==> PartOptimum(options, capacity, group, choice, q)
  }

  lemma FeasibleNext(options: Options, capacity: Capacity, group: seq<nat>, before: seq<nat>, after: seq<nat>, r: nat)
    requires |before| == |after| == |group| == |options|
    requires forall q :: 0 <= q < r ==> Part(after, group, |options|, q) == Part(before, group, |options|, q)
    requires FeasibleBelow(options, capacity, group, before, r) && PartFeasible(options, capacity, group, after, r)
    ensures FeasibleBelow(options, capacity, group, after, r + 1)
  {
    forall q | 0 <= q < r
      ensures PartFeasible(options, capacity, group, after, q)
    {
      assert PartFeasible(options, capacity, group, before, q);
    }
  }

  lemma OptimalNext(options: Options, capacity: Capacity, group: seq<nat>, before: seq<nat>, after: seq<nat>, r: nat)
    requires |before| == |after| == |group| == |options|
    requires forall q :: 0 <= q < r ==> Part(after, group, |options|, q) == Part(before, group, |options|, q)
    requires OptimalBelow(options, capacity, group, before, r) && PartOptimum(options, capacity, group, after, r)
    ensures OptimalBelow(options, capacity, group, after, r + 1)
  {
    forall q | 0 <= q < r
      ensures PartOptimum(options, capacity, group, after, q)
    {
      assert PartOptimum(options, capacity, group, before, q);
    }
  }

  /** Decides component r, if it has members. */
  method DecideNext(options: Options, capacity: Capacity, components: map<nat, seq<nat>>, r: nat, budget: nat,
                    before: seq<nat>,
                    ghost group: seq<nat>)
    returns (choice: seq<nat>, complete: bool, nodes: nat)
    requires WellFormed(options) && |before| == |group| == |options| && Lists(components, group, |options|)
    requires FeasibleBelow(options, capacity, group, before, r)
    ensures |choice| == |options| && FeasibleBelow(options, capacity, group, choice, r + 1)
    ensures complete && OptimalBelow(options, capacity, group, before, r) ==>
              OptimalBelow(options, capacity, group, choice, r + 1)
    ensures nodes <= budget && (!complete ==> nodes == budget)
  {
    if r in components {
      choice, complete, nodes := Decide(options, capacity, components[r], budget, before, group, r);
    } else {
      choice, complete, nodes := before, true, 0;
      EmptyPart(options, capacity, group, choice, r);
    }
    FeasibleNext(options, capacity, group, before, choice, r);
    if complete && OptimalBelow(options, capacity, group, before, r) {
      OptimalNext(options, capacity, group, before, choice, r);
    }
  }

  /**
   Searches the components in ascending order of their smallest index. The merged vector is
   feasible whatever the budget, and the global optimum when no search was cut; a cut search has
   consumed the whole budget.
   */
  method SearchComponents(options: Options, capacity: Capacity, budget: nat)
    returns (choice: seq<nat>, proven: bool, nodes: nat)
    requires WellFormed(options) && |options| <= MAX_DEMANDS
    ensures Feasible(options, capacity, choice)
    ensures proven ==> Optimum(options, capacity, choice)
    ensures nodes <= budget && (!proven ==> nodes == budget)
  {
    var components, group := Split(options);
    choice := seq(|options|, _ => SKIPPED);
    proven, nodes := true, 0;
    for r := 0 to |options|
      invariant |choice| == |options| && nodes <= budget && (!proven ==> nodes == budget)
      invariant FeasibleBelow(options, capacity, group, choice, r)
      invariant proven ==> OptimalBelow(options, capacity, group, choice, r)
    {
      var complete, visited;
      choice, complete, visited := DecideNext(options, capacity, components, r, budget - nodes, choice, group);
      nodes := nodes + visited;
      proven := proven && complete;
    }
    MergeFeasible(options, capacity, group, choice);
    if proven {
      MergeOptimum(options, capacity, group, choice);
    }
  }

  /**
   The whole assignment phase. Reference mode skips the fast path. For every budget the result
   respects every capacity; it is the unique optimum unless the search was cut.
   */
  method Assign(options: Options, capacity: Capacity, budget: nat, referenceMode: bool)
    returns (choice: seq<nat>, proven: bool, nodes: nat)
    requires WellFormed(options) && FrontsMinimal(options) && |options| <= MAX_DEMANDS
    ensures Feasible(options, capacity, choice)
    ensures proven ==> Optimum(options, capacity, choice)
    ensures nodes <= budget && (!proven ==> nodes == budget)
    ensures Unbinding(options, capacity) && !referenceMode ==> proven && nodes == 0
  {
    var binding := CapacityBinding(options, capacity);
    if !binding && !referenceMode {
      choice := TakeFronts(options);
      FrontsOptimum(options, capacity);
      return choice, true, 0;
    }
    choice, proven, nodes := SearchComponents(options, capacity, budget);
  }
}
