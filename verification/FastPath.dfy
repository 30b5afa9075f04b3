/**
 The capacity fast path (src/plan/planning_core.cpp:523-565): when no generation can be
 oversubscribed by any assignment, the first alternative of every demand is the global optimum.
 */
module FastPath {
  import opened Identity
  import opened Assignment
  import opened Decomposition

  /** No alternative precedes the front one by (cost, hop count). */
  ghost predicate FrontsMinimal(options: Options) {
    forall i, j :: 0 <= i < |options| && 0 <= j < |options[i]| ==>
      || options[i][0].cost < options[i][j].cost
      || (options[i][0].cost == options[i][j].cost && options[i][0].hops <= options[i][j].hops)
  }

  /** The choice vector the fast path takes. */
  function Fronts(options: Options): (choice: seq<nat>)
    ensures |choice| == |options|
  {
    seq(|options|, i requires 0 <= i < |options| => if |options[i]| == 0 then SKIPPED else 0)
  }

  /** How many of the first n demands could charge a generation. */
  ghost function Potential(options: Options, n: nat, key: SwitchKey): (count: nat)
    requires n <= |options|
  {
    if n == 0 then 0 else Potential(options, n - 1, key) + (if key in Touched(options[n - 1]) then 1 else 0)
  }

  /** No generation has more potential users than capacity. */
  ghost predicate Unbinding(options: Options, capacity: Capacity) {
    forall key :: Potential(options, |options|, key) > 0 ==>
      key in capacity && Potential(options, |options|, key) <= capacity[key]
  }

  lemma {:induction false} UsageWithinPotential(options: Options, choice: seq<nat>, n: nat, key: SwitchKey)
    requires Typed(options, choice, n)
    ensures Usage(options, choice, n, key) <= Potential(options, n, key)
  {
    if n > 0 {
      UsageWithinPotential(options, choice, n - 1, key);
      assert ChoiceAt(options, choice, n - 1);
      assert Charges(options, choice, n - 1, key) ==> key in Touched(options[n - 1]);
    }
  }

  /** Without binding capacity every typed vector is feasible. */
  lemma UnbindingFeasible(options: Options, capacity: Capacity, choice: seq<nat>)
    requires Unbinding(options, capacity) && Typed(options, choice, |options|)
    ensures Feasible(options, capacity, choice)
  {
    forall key | key in capacity
      ensures Usage(options, choice, |options|, key) <= capacity[key]
    {
      UsageWithinPotential(options, choice, |options|, key);
    }
  }

  /** The grouping that puts every demand on its own. */
  ghost function Alone(n: nat): (group: seq<nat>) {
    seq(n, i => i)
  }

  lemma {:induction false} AloneTotal(weights: seq<Weight>, n: nat, r: nat)
    requires n <= |weights| && r < |weights|
    ensures Sum(weights, Alone(|weights|), n, r, r + 1) == if r < n then weights[r] else Weight(0, 0, 0)
  {
    if n > 0 {
      AloneTotal(weights, n - 1, r);
    }
  }

  lemma FrontNoWorse(options: Options, other: seq<nat>, i: nat)
    requires FrontsMinimal(options) && i < |options| && |other| == |options|
    requires ChoiceAt(options, other, i) && |options[i]| < SKIPPED
    ensures ChoiceAt(options, Fronts(options), i)
    ensures WeightAt(options, Fronts(options), i).AtMost(WeightAt(options, other, i))
    ensures Fronts(options)[i] <= other[i] || options[i] == []
    ensures options[i] == [] ==> other[i] == Fronts(options)[i]
  {
  }

  lemma FrontsTyped(options: Options)
    ensures Typed(options, Fronts(options), |options|)
  {
    forall i | 0 <= i < |options|
      ensures ChoiceAt(options, Fronts(options), i)
    {
    }
  }

  /** The fast path takes the unique optimum, so it agrees with every completed search. */
  lemma FrontsOptimum(options: Options, capacity: Capacity)
    requires WellFormed(options) && FrontsMinimal(options) && |options| <= MAX_DEMANDS
    requires Unbinding(options, capacity)
    ensures Optimum(options, capacity, Fronts(options))
  {
    FrontsTyped(options);
    UnbindingFeasible(options, capacity, Fronts(options));
    forall other | Feasible(options, capacity, other) && other != Fronts(options)
      ensures Better(Summary(options, Fronts(options)), Summary(options, other))
    {
      FrontsBetter(options, other);
    }
  }

  lemma FrontsBetter(options: Options, other: seq<nat>)
    requires WellFormed(options) && FrontsMinimal(options) && |options| <= MAX_DEMANDS
    requires Typed(options, other, |options|) && other != Fronts(options)
    ensures Typed(options, Fronts(options), |options|)
    ensures Better(Summary(options, Fronts(options)), Summary(options, other))
  {
    FrontsTyped(options);
    var n, group := |options|, Alone(|options|);
    var ours, theirs := Weights(options, Fronts(options)), Weights(options, other);
    forall r | 0 <= r < n
      ensures ComponentTotal(ours, group, r).AtMost(ComponentTotal(theirs, group, r))
    {
      AloneTotal(ours, n, r);
      AloneTotal(theirs, n, r);
      FrontNoWorse(options, other, r);
    }
    SumComponents(ours, theirs, group, n);
    WholeScore(options, Fronts(options), group, n, n);
    WholeScore(options, other, group, n, n);
    var i := FirstDifference(Fronts(options), other);
    assert ChoiceAt(options, other, i);
    FrontNoWorse(options, other, i);
    LexFirstDifference(Fronts(options), other, i);
  }

  /** Fast path equals search: any vector a completed search returns is the fast-path vector. */
  lemma FastPathEqualsSearch(options: Options, capacity: Capacity, searched: seq<nat>)
    requires WellFormed(options) && FrontsMinimal(options) && |options| <= MAX_DEMANDS
    requires Unbinding(options, capacity) && Optimum(options, capacity, searched)
    ensures searched == Fronts(options)
  {
    FrontsOptimum(options, capacity);
    OptimumUnique(options, capacity, searched, Fronts(options));
  }

  function Tally(potential: map<SwitchKey, nat>, key: SwitchKey): (count: nat) {
    if key in potential then potential[key] else 0
  }

  /** Whether some generation has more potential users than capacity. */
  method CapacityBinding(options: Options, capacity: Capacity) returns (binding: bool)
    ensures binding <==> !Unbinding(options, capacity)
  {
    var potential: map<SwitchKey, nat> := map[];
    for index := 0 to |options|
      invariant forall key :: key in potential ==> potential[key] > 0
      invariant forall key :: Tally(potential, key) == Potential(options, index, key)
    {
      var touched := Touched(options[index]);
      potential := map key | key in potential.Keys + touched :: Tally(potential, key) +
        (if key in touched then 1 else 0);
    }
    binding := exists key :: key in potential && (key !in capacity || potential[key] > capacity[key]);
    assert forall key :: key in potential <==> Tally(potential, key) > 0;
  }

  method TakeFronts(options: Options) returns (choice: seq<nat>)
    ensures choice == Fronts(options)
  {
    choice := seq(|options|, _ => SKIPPED);
    for index := 0 to |options|
      invariant |choice| == |options|
      invariant forall i :: 0 <= i < index ==> choice[i] == Fronts(options)[i]
      invariant forall i :: index <= i < |options| ==> choice[i] == SKIPPED
    {
      if |options[index]| != 0 {
        choice := choice[index := 0];
      }
    }
  }
}
