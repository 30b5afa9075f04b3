/**
 Why solving each connected component on its own is exact: merging per-component optima by index
 gives the optimum of the whole assignment problem, tie-break included.
 */
module Decomposition {
  import opened Identity
  import opened Assignment

  /** Every demand index of a run fits in 32 bits, so 64-bit cost sums never saturate. */
  const MAX_DEMANDS: nat := 0x1_0000_0000

  /** The switch generations one demand could charge. */
  function Touched(alternatives: seq<Use>): (keys: set<SwitchKey>) {
    set j, key | 0 <= j < |alternatives| && key in alternatives[j].capacityKeys :: key
  }

  /** Demands that can charge a common generation belong to the same group. */
  ghost predicate Respects(options: Options, group: seq<nat>) {
    && |group| == |options|
    && forall i, j :: 0 <= i < |options| && 0 <= j < |options| && Touched(options[i]) * Touched(options[j]) != {} ==>
         group[i] == group[j]
  }

  /** Two demands are linked when no labelling that respects sharing can tell them apart. */
  ghost predicate Linked(options: Options, i: nat, j: nat)
    requires i < |options| && j < |options|
  {
    forall group :: Respects(options, group) ==> group[i] == group[j]
  }

  /** The classes of a grouping are exactly the connected components of "share a generation". */
  ghost predicate Finest(options: Options, group: seq<nat>) {
    && Respects(options, group)
    && forall i, j :: 0 <= i < |options| && 0 <= j < |options| ==> (group[i] == group[j] <==> Linked(options, i, j))
  }

  /** The indices below n that belong to group r, in ascending order. */
  ghost function Members(group: seq<nat>, n: nat, r: nat): (members: seq<nat>)
    requires n <= |group|
    ensures Indices(members, n)
  {
    if n == 0 then []
    else if group[n - 1] == r then Members(group, n - 1, r) + [n - 1]
    else Members(group, n - 1, r)
  }

  predicate Indices(members: seq<nat>, n: nat) {
    forall p :: 0 <= p < |members| ==> members[p] < n
  }

  function Pick<T>(s: seq<T>, members: seq<nat>): (picked: seq<T>)
    requires Indices(members, |s|)
    ensures |picked| == |members|
    ensures forall p :: 0 <= p < |members| ==> picked[p] == s[members[p]]
  {
    seq(|members|, p requires 0 <= p < |members| => s[members[p]])
  }

  /** The sub-problem made of the indices below n in group r. */
  ghost function Part<T>(s: seq<T>, group: seq<nat>, n: nat, r: nat): (part: seq<T>)
    requires n <= |group| == |s|
  {
    Pick(s, Members(group, n, r))
  }

  lemma PartGrow<T>(s: seq<T>, group: seq<nat>, n: nat, r: nat)
    requires 0 < n <= |group| == |s|
    ensures Part(s, group, n, r) ==
            if group[n - 1] == r then Part(s, group, n - 1, r) + [s[n - 1]] else Part(s, group, n - 1, r)
  {
  }

  /** Usage and score of a prefix depend on that prefix of options and choices only. */
  lemma {:induction false} SubAgree(options: Options, choice: seq<nat>, options': Options, choice': seq<nat>, n: nat)
    requires Typed(options, choice, n) && n <= |options'| == |choice'|
    requires options[..n] == options'[..n] && choice[..n] == choice'[..n]
    ensures Typed(options', choice', n)
    ensures ScoreOf(options, choice, n) == ScoreOf(options', choice', n)
    ensures forall key :: Usage(options, choice, n, key) == Usage(options', choice', n, key)
  {
    forall i | 0 <= i < n
      ensures options'[i] == options[i] && choice'[i] == choice[i]
      ensures ChoiceAt(options', choice', i)
    {
      assert options[..n][i] == options'[..n][i] && choice[..n][i] == choice'[..n][i];
      assert ChoiceAt(options, choice, i);
    }
    if n > 0 {
      assert options[..n - 1] == options[..n][..n - 1] == options'[..n - 1];
      assert choice[..n - 1] == choice[..n][..n - 1] == choice'[..n - 1];
      SubAgree(options, choice, options', choice', n - 1);
    }
  }

  /** What appending one demand adds to usage and score. */
  lemma AppendDemand(options: Options, choice: seq<nat>, alternatives: seq<Use>, decision: nat)
    requires Typed(options, choice, |options|)
    requires decision == SKIPPED || decision < |alternatives|
    ensures var o, c, n := options + [alternatives], choice + [decision], |options|;
            && Typed(o, c, n + 1)
            && ScoreOf(o, c, n + 1) == Extend(o, c, n, ScoreOf(options, choice, n))
            && forall key ::
                 Usage(o, c, n + 1, key) == Usage(options, choice, n, key) + (if Charges(o, c, n, key) then 1 else 0)
  {
    var o, c, n := options + [alternatives], choice + [decision], |options|;
    assert options[..n] == o[..n] && choice[..n] == c[..n];
    SubAgree(options, choice, o, c, n);
    assert ChoiceAt(o, c, n);
  }

  // ---- Usage of one component ----

  lemma {:induction false} PartTyped(options: Options, choice: seq<nat>, group: seq<nat>, n: nat, r: nat)
    requires Typed(options, choice, |options|) && n <= |options| == |group|
    ensures var o, c := Part(options, group, n, r), Part(choice, group, n, r); Typed(o, c, |o|)
  {
    var o, c := Part(options, group, n, r), Part(choice, group, n, r);
    forall p | 0 <= p < |o|
      ensures ChoiceAt(o, c, p)
    {
      assert ChoiceAt(options, choice, Members(group, n, r)[p]);
    }
  }

  ghost function PartUsage(options: Options, choice: seq<nat>, group: seq<nat>, n: nat, r: nat,
                           key: SwitchKey): (count: nat)
    requires Typed(options, choice, |options|) && n <= |options| == |group|
  {
    PartTyped(options, choice, group, n, r);
    Usage(Part(options, group, n, r), Part(choice, group, n, r), |Part(options, group, n, r)|, key)
  }

  /** One more demand adds to its own component only. */
  lemma PartUsageNext(options: Options, choice: seq<nat>, group: seq<nat>, n: nat, r: nat, key: SwitchKey)
    requires Typed(options, choice, |options|) && 0 < n <= |options| == |group|
    ensures ChoiceAt(options, choice, n - 1)
    ensures PartUsage(options, choice, group, n, r, key)
         == PartUsage(options, choice, group, n - 1, r, key) +
           if group[n - 1] == r && Charges(options, choice, n - 1, key) then 1 else 0
  {
    assert ChoiceAt(options, choice, n - 1);
    PartTyped(options, choice, group, n - 1, r);
    PartGrow(options, group, n, r);
    PartGrow(choice, group, n, r);
    UsageStep(Part(options, group, n - 1, r), Part(choice, group, n - 1, r), Part(options, group, n, r),
              Part(choice, group, n, r),
              options, choice, n - 1, group[n - 1] == r, key);
  }

  lemma UsageStep(o: Options, c: seq<nat>, grownO: Options, grownC: seq<nat>, options: Options, choice: seq<nat>,
                  i: nat, own: bool, key: SwitchKey)
    requires Typed(o, c, |o|) && i < |options| == |choice| && ChoiceAt(options, choice, i)
    requires grownO == (if own then o + [options[i]] else o) && grownC == (if own then c + [choice[i]] else c)
    ensures Typed(grownO, grownC, |grownO|)
    ensures Usage(grownO, grownC, |grownO|, key) ==
            Usage(o, c, |o|, key) + if own && Charges(options, choice, i, key) then 1 else 0
  {
    if own {
      UsageAppend(o, c, options, choice, i, key);
    }
  }

  lemma UsageAppend(o: Options, c: seq<nat>, options: Options, choice: seq<nat>, i: nat, key: SwitchKey)
    requires Typed(o, c, |o|) && i < |options| == |choice| && ChoiceAt(options, choice, i)
    ensures Typed(o + [options[i]], c + [choice[i]], |o| + 1)
    ensures Usage(o + [options[i]], c + [choice[i]], |o| + 1, key)
         == Usage(o, c, |o|, key) + if Charges(options, choice, i, key) then 1 else 0
  {
    AppendDemand(o, c, options[i], choice[i]);
  }

  /**
   A component never uses more of a generation than the whole assignment does, and just as much
   when no demand outside it can charge that generation.
   */
  lemma {:induction false} ComponentUsage(options: Options, choice: seq<nat>, group: seq<nat>, n: nat, r: nat,
                                          key: SwitchKey)
    requires Typed(options, choice, |options|) && n <= |options| == |group|
    ensures Typed(options, choice, n)
    ensures PartUsage(options, choice, group, n, r, key) <= Usage(options, choice, n, key)
    ensures (forall i :: 0 <= i < n && key in Touched(options[i]) ==> group[i] == r) ==>
              PartUsage(options, choice, group, n, r, key) == Usage(options, choice, n, key)
  {
    if n > 0 {
      ComponentUsage(options, choice, group, n - 1, r, key);
      PartUsageNext(options, choice, group, n, r, key);
      assert Charges(options, choice, n - 1, key) ==> key in Touched(options[n - 1]);
    }
  }

  // ---- Objective along a subset of the demands ----

  /** An objective value with an unbounded cost. */
  datatype Weight = Weight(skipped: nat, cost: nat, hops: nat) {
    ghost function Plus(other: Weight): (sum: Weight) {
      Weight(skipped + other.skipped, cost + other.cost, hops + other.hops)
    }

    ghost predicate AtMost(other: Weight) {
      || skipped < other.skipped
      || (skipped == other.skipped && cost < other.cost)
      || (skipped == other.skipped && cost == other.cost && hops <= other.hops)
    }
  }

  ghost function Exact(score: Score): (weight: Weight) {
    Weight(score.skipped, score.cost, score.hops)
  }

  ghost function WeightAt(options: Options, choice: seq<nat>, i: nat): (weight: Weight)
    requires i < |options| == |choice| && ChoiceAt(options, choice, i)
  {
    if choice[i] == SKIPPED then Weight(1, 0, 0)
    else Weight(0, options[i][choice[i]].cost, options[i][choice[i]].hops)
  }

  ghost function Weights(options: Options, choice: seq<nat>): (weights: seq<Weight>)
    requires Typed(options, choice, |options|)
    ensures |weights| == |options|
    ensures forall i :: 0 <= i < |options| ==>
              ChoiceAt(options, choice, i) && weights[i] == WeightAt(options, choice, i)
  {
    seq(|options|, i requires 0 <= i < |options| =>
      assert ChoiceAt(options, choice, i); WeightAt(options, choice, i))
  }

  /** The total over the indices below n whose group lies in lo..hi. */
  ghost function Sum(weights: seq<Weight>, group: seq<nat>, n: nat, lo: nat, hi: nat): (total: Weight)
    requires n <= |weights| == |group|
  {
    if n == 0 then Weight(0, 0, 0)
    else if lo <= group[n - 1] < hi then Sum(weights, group, n - 1, lo, hi).Plus(weights[n - 1])
    else Sum(weights, group, n - 1, lo, hi)
  }

  /** Adding one component to the components before it adds its total. */
  lemma {:induction false} SumSplit(weights: seq<Weight>, group: seq<nat>, n: nat, r: nat)
    requires n <= |weights| == |group|
    ensures Sum(weights, group, n, 0, r + 1) == Sum(weights, group, n, 0, r).Plus(Sum(weights, group, n, r, r + 1))
  {
    if n > 0 {
      SumSplit(weights, group, n - 1, r);
    }
  }

  lemma {:induction false} SumNone(weights: seq<Weight>, group: seq<nat>, n: nat)
    requires n <= |weights| == |group|
    ensures Sum(weights, group, n, 0, 0) == Weight(0, 0, 0)
  {
    if n > 0 {
      SumNone(weights, group, n - 1);
    }
  }

  lemma AddAtMost(a: Weight, b: Weight, c: Weight, d: Weight)
    requires a.AtMost(b) && c.AtMost(d)
    ensures a.Plus(c).AtMost(b.Plus(d))
    ensures a.Plus(c) == b.Plus(d) ==> a == b && c == d
  {
  }

  ghost function ComponentTotal(weights: seq<Weight>, group: seq<nat>, r: nat): (total: Weight)
    requires |group| == |weights|
  {
    Sum(weights, group, |weights|, r, r + 1)
  }

  /** No-worse components add up to a no-worse whole, equal only if all of them are equal. */
  lemma {:induction false} SumComponents(ours: seq<Weight>, theirs: seq<Weight>, group: seq<nat>, r: nat)
    requires |ours| == |theirs| == |group|
    requires forall q :: 0 <= q < r ==> ComponentTotal(ours, group, q).AtMost(ComponentTotal(theirs, group, q))
    ensures var a, b := Sum(ours, group, |group|, 0, r), Sum(theirs, group, |group|, 0, r);
            && a.AtMost(b)
            && (a == b ==> forall q :: 0 <= q < r ==>
                  ComponentTotal(ours, group, q) == ComponentTotal(theirs, group, q))
  {
    if r == 0 {
      SumNone(ours, group, |group|);
      SumNone(theirs, group, |group|);
    } else {
      SumComponents(ours, theirs, group, r - 1);
      SumSplit(ours, group, |group|, r - 1);
      SumSplit(theirs, group, |group|, r - 1);
      AddAtMost(Sum(ours, group, |group|, 0, r - 1), Sum(theirs, group, |group|, 0, r - 1),
                ComponentTotal(ours, group, r - 1), ComponentTotal(theirs, group, r - 1));
    }
  }

  /** The score of the whole vector is the total over all indices. */
  lemma {:induction false} WholeScore(options: Options, choice: seq<nat>, group: seq<nat>, n: nat, r: nat)
    requires Typed(options, choice, |options|) && n <= |options| == |group| && |options| <= MAX_DEMANDS
    requires forall i :: 0 <= i < n ==> group[i] < r
    ensures Typed(options, choice, n)
    ensures var total := Sum(Weights(options, choice), group, n, 0, r);
            total.cost <= n * 0xFFFF_FFFF && Exact(ScoreOf(options, choice, n)) == total
  {
    if n > 0 {
      WholeScore(options, choice, group, n - 1, r);
      var score := ScoreOf(options, choice, n - 1);
      assert ChoiceAt(options, choice, n - 1);
      CostRoom(n);
      ExtendExact(options, choice, n - 1, score);
    }
  }

  lemma CostRoom(n: nat)
    requires 0 < n <= MAX_DEMANDS
    ensures (n - 1) * 0xFFFF_FFFF + 0xFFFF_FFFF == n * 0xFFFF_FFFF <= U64_MAX
  {
  }

  lemma ExtendExact(options: Options, choice: seq<nat>, i: nat, score: Score)
    requires i < |options| == |choice| && ChoiceAt(options, choice, i)
    requires score.cost + 0xFFFF_FFFF <= U64_MAX
    ensures Exact(Extend(options, choice, i, score)) == Exact(score).Plus(WeightAt(options, choice, i))
  {
  }

  /** Below the demand bound the saturating score of a component is its exact total. */
  lemma {:induction false} PartScore(options: Options, choice: seq<nat>, group: seq<nat>, n: nat, r: nat)
    requires Typed(options, choice, |options|) && n <= |options| == |group| && |options| <= MAX_DEMANDS
    ensures PartScored(options, choice, group, n, r, Sum(Weights(options, choice), group, n, r, r + 1))
  {
    if n > 0 {
      var weights := Weights(options, choice);
      PartScore(options, choice, group, n - 1, r);
      if group[n - 1] == r {
        PartScoreStep(options, choice, group, n, r, Sum(weights, group, n - 1, r, r + 1));
      } else {
        PartGrow(options, group, n, r);
        PartGrow(choice, group, n, r);
      }
    }
  }

  ghost predicate PartScored(options: Options, choice: seq<nat>, group: seq<nat>, n: nat, r: nat, total: Weight)
    requires n <= |options| == |group| == |choice|
  {
    var o, c := Part(options, group, n, r), Part(choice, group, n, r);
    Typed(o, c, |o|) && total.cost <= n * 0xFFFF_FFFF && Exact(ScoreOf(o, c, |o|)) == total
  }

  lemma PartScoreStep(options: Options, choice: seq<nat>, group: seq<nat>, n: nat, r: nat, total: Weight)
    requires Typed(options, choice, |options|) && 0 < n <= |options| == |group| && group[n - 1] == r
    requires n <= MAX_DEMANDS && PartScored(options, choice, group, n - 1, r, total)
    ensures ChoiceAt(options, choice, n - 1)
    ensures PartScored(options, choice, group, n, r, total.Plus(WeightAt(options, choice, n - 1)))
  {
    var o, c := Part(options, group, n - 1, r), Part(choice, group, n - 1, r);
    PartGrow(options, group, n, r);
    PartGrow(choice, group, n, r);
    assert ChoiceAt(options, choice, n - 1);
    AppendDemand(o, c, options[n - 1], choice[n - 1]);
    ExtendExact(o + [options[n - 1]], c + [choice[n - 1]], |o|, ScoreOf(o, c, |o|));
  }

  // ---- Merging ----

  function Restrict(capacity: Capacity, options: Options): (restricted: Capacity) {
    map key | key in capacity && exists i :: 0 <= i < |options| && key in Touched(options[i]) :: capacity[key]
  }

  ghost predicate PartFeasible(options: Options, capacity: Capacity, group: seq<nat>, choice: seq<nat>, r: nat)
    requires |choice| == |group| == |options|
  {
    var part := Part(options, group, |options|, r);
    Feasible(part, Restrict(capacity, part), Part(choice, group, |options|, r))
  }

  ghost predicate PartOptimum(options: Options, capacity: Capacity, group: seq<nat>, choice: seq<nat>, r: nat)
    requires |choice| == |group| == |options|
  {
    var part := Part(options, group, |options|, r);
    Optimum(part, Restrict(capacity, part), Part(choice, group, |options|, r))
  }

  /** Where an index sits in its component; everything before it there is a smaller index. */
  lemma {:induction false} Locate(group: seq<nat>, n: nat, i: nat) returns (p: nat)
    requires i < n <= |group|
    ensures var members := Members(group, n, group[i]);
            p < |members| && members[p] == i && forall q :: 0 <= q < p ==> members[q] < i
  {
    if i == n - 1 {
      p := |Members(group, n - 1, group[i])|;
    } else {
      p := Locate(group, n - 1, i);
    }
  }

  lemma PartsTyped(options: Options, capacity: Capacity, group: seq<nat>, choice: seq<nat>)
    requires |choice| == |group| == |options|
    requires forall i :: 0 <= i < |options| ==> group[i] < |options|
    requires forall r :: 0 <= r < |options| ==> PartFeasible(options, capacity, group, choice, r)
    ensures Typed(options, choice, |options|)
  {
    forall i | 0 <= i < |options|
      ensures ChoiceAt(options, choice, i)
    {
      var p := Locate(group, |options|, i);
      assert PartFeasible(options, capacity, group, choice, group[i]);
      assert ChoiceAt(Part(options, group, |options|, group[i]), Part(choice, group, |options|, group[i]), p);
    }
  }

  lemma {:induction false} Untouched(options: Options, choice: seq<nat>, n: nat, key: SwitchKey)
    requires Typed(options, choice, n)
    requires forall i :: 0 <= i < |options| ==> key !in Touched(options[i])
    ensures Usage(options, choice, n, key) == 0
  {
    if n > 0 {
      Untouched(options, choice, n - 1, key);
      assert ChoiceAt(options, choice, n - 1) && key !in Touched(options[n - 1]);
    }
  }

  /** Component-wise feasibility is global feasibility when components share no generation. */
  lemma MergeFeasible(options: Options, capacity: Capacity, group: seq<nat>, choice: seq<nat>)
    requires |choice| == |options| && Respects(options, group)
    requires forall i :: 0 <= i < |options| ==> group[i] < |options|
    requires forall r :: 0 <= r < |options| ==> PartFeasible(options, capacity, group, choice, r)
    ensures Feasible(options, capacity, choice)
  {
    PartsTyped(options, capacity, group, choice);
    forall key | key in capacity
      ensures Usage(options, choice, |options|, key) <= capacity[key]
    {
      if i: nat :| i < |options| && key in Touched(options[i]) {
        KeyWithinCapacity(options, capacity, group, choice, i, key);
      } else {
        Untouched(options, choice, |options|, key);
      }
    }
  }

  lemma KeyWithinCapacity(options: Options, capacity: Capacity, group: seq<nat>, choice: seq<nat>, i: nat,
                          key: SwitchKey)
    requires Typed(options, choice, |options|) && Respects(options, group)
    requires i < |options| && key in Touched(options[i]) && key in capacity
    requires PartFeasible(options, capacity, group, choice, group[i])
    ensures Usage(options, choice, |options|, key) <= capacity[key]
  {
    forall j | 0 <= j < |options| && key in Touched(options[j])
      ensures group[j] == group[i]
    {
      assert key in Touched(options[i]) * Touched(options[j]);
    }
    ComponentUsage(options, choice, group, |options|, group[i], key);
    var p := Locate(group, |options|, i);
    var part := Part(options, group, |options|, group[i]);
    assert part[p] == options[i] && key in Restrict(capacity, part);
  }

  /** Every feasible assignment is feasible on each component. */
  lemma PartsFeasible(options: Options, capacity: Capacity, group: seq<nat>, other: seq<nat>, r: nat)
    requires Feasible(options, capacity, other) && |group| == |options|
    ensures PartFeasible(options, capacity, group, other, r)
  {
    PartTyped(options, other, group, |options|, r);
    var part := Part(options, group, |options|, r);
    forall key | key in Restrict(capacity, part)
      ensures PartUsage(options, other, group, |options|, r, key) <= Restrict(capacity, part)[key]
    {
      ComponentUsage(options, other, group, |options|, r, key);
    }
  }

  /** On each component the merged vector is no worse than any feasible assignment. */
  lemma PartNoWorse(options: Options, capacity: Capacity, group: seq<nat>, choice: seq<nat>, other: seq<nat>, r: nat)
    requires |options| <= MAX_DEMANDS && |group| == |options|
    requires Feasible(options, capacity, choice) && Feasible(options, capacity, other)
    requires PartOptimum(options, capacity, group, choice, r)
    ensures var ours, theirs := Weights(options, choice), Weights(options, other);
            var c, d := Part(choice, group, |options|, r), Part(other, group, |options|, r);
            && ComponentTotal(ours, group, r).AtMost(ComponentTotal(theirs, group, r))
            && (ComponentTotal(ours, group, r) == ComponentTotal(theirs, group, r) && c != d ==> LexLess(c, d))
  {
    PartsFeasible(options, capacity, group, other, r);
    PartScore(options, choice, group, |options|, r);
    PartScore(options, other, group, |options|, r);
    var part := Part(options, group, |options|, r);
    var c, d := Part(choice, group, |options|, r), Part(other, group, |options|, r);
    assert c != d ==> Better(Summary(part, c), Summary(part, d));
  }

  /** A component-wise tie is broken globally the way the component that differs first breaks it. */
  lemma MergeTieBreak(group: seq<nat>, choice: seq<nat>, other: seq<nat>)
    requires |choice| == |other| == |group| && choice != other
    requires forall r :: 0 <= r < |group| ==>
               Part(choice, group, |group|, r) == Part(other, group, |group|, r)
               || LexLess(Part(choice, group, |group|, r), Part(other, group, |group|, r))
    requires forall i :: 0 <= i < |group| ==> group[i] < |group|
    ensures LexLess(choice, other)
  {
    var i := FirstDifference(choice, other);
    var r := group[i];
    var p := Locate(group, |group|, i);
    var members := Members(group, |group|, r);
    var c, d := Part(choice, group, |group|, r), Part(other, group, |group|, r);
    assert c[..p] == d[..p] by {
      forall q | 0 <= q < p
        ensures c[q] == d[q]
      {
        assert choice[..i][members[q]] == other[..i][members[q]];
      }
    }
    assert c[p] == choice[i] && d[p] == other[i];
    LexFirstDifference(c, d, p);
    LexFirstDifference(choice, other, i);
  }

  /**
   Decomposition is exact: per-component optima, merged by index, are the unique global optimum
   of (skipped, cost, hops, choice vector).
   */
  lemma MergeOptimum(options: Options, capacity: Capacity, group: seq<nat>, choice: seq<nat>)
    requires |options| <= MAX_DEMANDS && |choice| == |options| && Respects(options, group)
    requires forall i :: 0 <= i < |options| ==> group[i] < |options|
    requires forall r :: 0 <= r < |options| ==> PartOptimum(options, capacity, group, choice, r)
    ensures Optimum(options, capacity, choice)
  {
    forall r | 0 <= r < |options|
      ensures PartFeasible(options, capacity, group, choice, r)
    {
      assert PartOptimum(options, capacity, group, choice, r);
    }
    MergeFeasible(options, capacity, group, choice);
    forall other | Feasible(options, capacity, other) && other != choice
      ensures Better(Summary(options, choice), Summary(options, other))
    {
      MergeBetter(options, capacity, group, choice, other);
    }
  }

  lemma MergeBetter(options: Options, capacity: Capacity, group: seq<nat>, choice: seq<nat>, other: seq<nat>)
    requires |options| <= MAX_DEMANDS && |choice| == |group| == |options|
    requires forall i :: 0 <= i < |options| ==> group[i] < |options|
    requires forall r :: 0 <= r < |options| ==> PartOptimum(options, capacity, group, choice, r)
    requires Feasible(options, capacity, choice) && Feasible(options, capacity, other) && other != choice
    ensures Better(Summary(options, choice), Summary(options, other))
  {
    var ours, theirs, n := Weights(options, choice), Weights(options, other), |options|;
    forall r | 0 <= r < n
      ensures ComponentTotal(ours, group, r).AtMost(ComponentTotal(theirs, group, r))
    {
      PartNoWorse(options, capacity, group, choice, other, r);
    }
    SumComponents(ours, theirs, group, n);
    WholeScore(options, choice, group, n, n);
    WholeScore(options, other, group, n, n);
    if ScoreOf(options, choice, n) == ScoreOf(options, other, n) {
      forall r | 0 <= r < n
        ensures Part(choice, group, n, r) == Part(other, group, n, r) ||
                LexLess(Part(choice, group, n, r), Part(other, group, n, r))
      {
        PartNoWorse(options, capacity, group, choice, other, r);
      }
      MergeTieBreak(group, choice, other);
    }
  }
}
