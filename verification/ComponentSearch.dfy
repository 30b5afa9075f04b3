/**
 The bounded backtracking search over one connected component of demands
 (class ComponentSearch of src/plan/planning_core.cpp), proved exact when it completes and
 safe for every budget when it is cut.
 */
module ComponentSearch {
  import opened Identity
  import opened Assignment

  function Count(used: map<SwitchKey, nat>, key: SwitchKey): (count: nat) {
    if key in used then used[key] else 0
  }

  datatype Incumbent = None | Some(value: Solution)

  /** The incumbent exists and is at least as good as the feasible vector `choice`. */
  ghost predicate Beaten(options: Options, best: Incumbent, choice: seq<nat>)
    requires Typed(options, choice, |options|)
  {
    best.Some? && Beats(options, best.value, choice)
  }

  /** Incumbents only improve. */
  ghost predicate Improves(previous: Incumbent, best: Incumbent) {
    previous.Some? ==> best.Some? && (best == previous || Better(best.value, previous.value))
  }

  /** Every feasible vector that starts with `prefix` is no better than the incumbent. */
  ghost predicate Covered(options: Options, capacity: Capacity, prefix: seq<nat>, best: Incumbent) {
    forall other :: Feasible(options, capacity, other) && prefix <= other ==> Beaten(options, best, other)
  }

  /** The same, for the vectors whose next decision is one of the first `index` alternatives. */
  ghost predicate CoveredBelow(options: Options, capacity: Capacity, prefix: seq<nat>, index: nat, best: Incumbent) {
    forall other ::
      Feasible(options, capacity, other) && prefix <= other && |prefix| < |other| && other[|prefix|] < index ==>
        Beaten(options, best, other)
  }

  lemma ImprovesTransitive(a: Incumbent, b: Incumbent, c: Incumbent)
    requires Improves(a, b) && Improves(b, c)
    ensures Improves(a, c)
  {
    if a.Some? && a != b && b != c {
      BetterTransitive(c.value, b.value, a.value);
    }
  }

  /** Improving the incumbent keeps everything it beat beaten. */
  lemma CoveredMonotone(options: Options, capacity: Capacity, prefix: seq<nat>, index: nat,
                        previous: Incumbent, best: Incumbent)
    requires Improves(previous, best)
    requires CoveredBelow(options, capacity, prefix, index, previous)
    ensures CoveredBelow(options, capacity, prefix, index, best)
  {
    forall other | Feasible(options, capacity, other) && prefix <= other && |prefix| < |other| &&
      other[|prefix|] < index
      ensures Beaten(options, best, other)
    {
      assert Beaten(options, previous, other);
      if best != previous && previous.value != Summary(options, other) {
        BetterTransitive(best.value, previous.value, Summary(options, other));
      }
    }
  }

  /** An incumbent strictly ahead on (skipped, cost) already beats every completion. */
  lemma PruneSound(options: Options, capacity: Capacity, choice: seq<nat>, n: nat, best: Solution)
    requires Typed(options, choice, n)
    requires var partial := ScoreOf(options, choice, n);
             partial.skipped > best.score.skipped
             || (partial.skipped == best.score.skipped && partial.cost > best.score.cost)
    ensures Covered(options, capacity, choice[..n], Some(best))
  {
    forall other | Feasible(options, capacity, other) && choice[..n] <= other
      ensures Beaten(options, Some(best), other)
    {
      assert other[..n] == choice[..n];
      PrefixAgree(options, choice, other, n);
      PrefixMonotone(options, other, n, |options|);
    }
  }

  /** An alternative that no longer fits cannot start any feasible completion. */
  lemma OversubscribedSound(options: Options, capacity: Capacity, choice: seq<nat>, n: nat, index: nat,
                            key: SwitchKey, best: Incumbent)
    requires Typed(options, choice, n) && n < |options| && index < |options[n]| < SKIPPED
    requires key in options[n][index].capacityKeys && key in capacity
    requires Usage(options, choice, n, key) >= capacity[key]
    requires CoveredBelow(options, capacity, choice[..n], index, best)
    ensures CoveredBelow(options, capacity, choice[..n], index + 1, best)
  {
    forall other | Feasible(options, capacity, other) && choice[..n] <= other && other[n] == index
      ensures false
    {
      assert other[..n] == choice[..n];
      PrefixAgree(options, choice, other, n);
      PrefixMonotone(options, other, n + 1, |options|);
      assert Usage(options, other, n + 1, key) == Usage(options, other, n, key) + 1;
    }
  }

  /** Covering one more alternative at position n. */
  lemma CoverNext(options: Options, capacity: Capacity, choice: seq<nat>, n: nat, best: Incumbent)
    requires n < |options| == |choice|
    requires CoveredBelow(options, capacity, choice[..n], choice[n], best)
    requires Covered(options, capacity, choice[..n + 1], best)
    ensures CoveredBelow(options, capacity, choice[..n], choice[n] + 1, best)
  {
    forall other | Feasible(options, capacity, other) && choice[..n] <= other && other[n] == choice[n]
      ensures Beaten(options, best, other)
    {
      assert other[..n + 1] == other[..n] + [choice[n]] == choice[..n + 1];
    }
  }

  /** All alternatives and the skip branch cover every completion of the prefix. */
  lemma CoverAll(options: Options, capacity: Capacity, choice: seq<nat>, n: nat, best: Incumbent)
    requires n < |options| == |choice| && choice[n] == SKIPPED
    requires CoveredBelow(options, capacity, choice[..n], |options[n]|, best)
    requires Covered(options, capacity, choice[..n + 1], best)
    ensures Covered(options, capacity, choice[..n], best)
  {
    forall other | Feasible(options, capacity, other) && choice[..n] <= other
      ensures Beaten(options, best, other)
    {
      assert ChoiceAt(options, other, n);
      if other[n] == SKIPPED {
        assert other[..n + 1] == other[..n] + [SKIPPED] == choice[..n + 1];
      }
    }
  }

  /** A complete vector covers itself once the incumbent is at least as good. */
  lemma CoverLeaf(options: Options, capacity: Capacity, choice: seq<nat>, best: Incumbent)
    requires Feasible(options, capacity, choice) && Beaten(options, best, choice)
    ensures Covered(options, capacity, choice[..|options|], best)
  {
    assert choice[..|options|] == choice;
    assert forall other :: Feasible(options, capacity, other) && choice <= other ==> other == choice;
  }

  /** Usage maps without zero entries are determined by their counts. */
  lemma SameCounts(a: map<SwitchKey, nat>, b: map<SwitchKey, nat>)
    requires forall key :: key in a ==> a[key] > 0
    requires forall key :: key in b ==> b[key] > 0
    requires forall key :: Count(a, key) == Count(b, key)
    ensures a == b
  {
    assert forall key :: key in a ==> Count(a, key) == Count(b, key);
    assert forall key :: key in b ==> Count(a, key) == Count(b, key);
  }

  lemma SamePrefix(a: seq<nat>, b: seq<nat>, n: nat)
    requires n + 1 <= |a| && n + 1 <= |b| && a[..n + 1] == b[..n + 1]
    ensures a[..n] == b[..n] && a[n] == b[n]
  {
    assert a[..n] == a[..n + 1][..n] && b[..n] == b[..n + 1][..n];
    assert a[n] == a[..n + 1][n] && b[n] == b[..n + 1][n];
  }

  /** What deciding position n adds to the usage and to the score. */
  lemma Decide(options: Options, before: seq<nat>, after: seq<nat>, n: nat, decision: nat)
    requires n < |options| && Typed(options, before, n)
    requires decision == SKIPPED || decision < |options[n]| < SKIPPED
    requires after == before[n := decision]
    ensures Typed(options, after, n + 1) && after[..n] == before[..n]
    ensures ScoreOf(options, after, n + 1) == Extend(options, after, n, ScoreOf(options, before, n))
    ensures forall key :: Usage(options, after, n + 1, key) == Usage(options, before, n, key)
                          + (if decision != SKIPPED && key in options[n][decision].capacityKeys then 1 else 0)
  {
    PrefixAgree(options, before, after, n);
    assert ChoiceAt(options, after, n);
  }

  /** `used` counts exactly the first n decisions, holds no zero entry and respects the capacity. */
  ghost predicate Consistent(options: Options, capacity: Capacity, used: map<SwitchKey, nat>, choice: seq<nat>,
                             n: nat) {
    && Typed(options, choice, n)
    && (forall key :: key in used ==> used[key] > 0)
    && (forall key :: Count(used, key) == Usage(options, choice, n, key))
    && WithinCapacity(options, capacity, choice, n)
  }

  lemma ConsistentPrefix(options: Options, capacity: Capacity, used: map<SwitchKey, nat>, a: seq<nat>, b: seq<nat>,
                         n: nat)
    requires Consistent(options, capacity, used, a, n)
    requires |b| == |options| && a[..n] == b[..n]
    ensures Consistent(options, capacity, used, b, n)
    ensures ScoreOf(options, a, n) == ScoreOf(options, b, n)
  {
    PrefixAgree(options, a, b, n);
  }

  /** Charging an alternative that fits keeps the counters consistent. */
  lemma ConsistentPush(options: Options, capacity: Capacity, used: map<SwitchKey, nat>, used': map<SwitchKey, nat>,
                       choice: seq<nat>, n: nat, index: nat)
    requires Consistent(options, capacity, used, choice, n)
    requires n < |options| && index < |options[n]| < SKIPPED
    requires var keys := options[n][index].capacityKeys;
             && (forall key :: key in keys && key in capacity ==> Count(used, key) < capacity[key])
             && (forall key :: key in used' ==> used'[key] > 0)
             && forall key :: Count(used', key) == Count(used, key) + (if key in keys then 1 else 0)
    ensures Consistent(options, capacity, used', choice[n := index], n + 1)
  {
    Decide(options, choice, choice[n := index], n, index);
    forall key | key in capacity
      ensures Usage(options, choice[n := index], n + 1, key) <= capacity[key]
    {
      assert Count(used', key) == Usage(options, choice[n := index], n + 1, key);
    }
  }

  lemma CoveredEverything(options: Options, capacity: Capacity, best: Solution)
    requires Feasible(options, capacity, best.choice) && best == Summary(options, best.choice)
    requires Covered(options, capacity, [], Some(best))
    ensures Optimum(options, capacity, best.choice)
  {
    forall other | Feasible(options, capacity, other) && other != best.choice
      ensures Better(best, Summary(options, other))
    {
      assert [] <= other;
      assert Beaten(options, Some(best), other);
    }
  }

  class ComponentSearch {
    const options: Options
    const capacity: Capacity
    var used: map<SwitchKey, nat>
    var remaining: nat
    var nodes: nat
    var exhausted: bool
    var haveBest: bool
    var choices: seq<nat>
    var best: Solution

    constructor (options: Options, capacity: Capacity, budget: nat)
      ensures this.options == options && this.capacity == capacity
      ensures remaining == budget && nodes == 0 && used == map[]
      ensures exhausted && !haveBest && best.score == Score(0, 0, 0)
    {
      this.options := options;
      this.capacity := capacity;
      used := map[];
      remaining, nodes := budget, 0;
      exhausted, haveBest := true, false;
      choices := [];
      best := Solution([], Score(0, 0, 0));
    }

    /** The incumbent, when there is one, is a feasible vector with its true score. */
    ghost predicate BestValid()
      reads this
    {
      haveBest ==> Feasible(options, capacity, best.choice) && best == Summary(options, best.choice)
    }

    ghost predicate Ready(position: nat)
      reads this
    {
      && WellFormed(options)
      && Consistent(options, capacity, used, choices, position)
      && BestValid()
    }

    /** Whether an alternative still fits under every capacity it charges. */
    method Fits(use: Use) returns (fits: bool)
      ensures fits <==> forall key :: key in use.capacityKeys && key in capacity ==> Count(used, key) < capacity[key]
    {
      for i := 0 to |use.capacityKeys|
        invariant forall key :: key in use.capacityKeys[..i] && key in capacity ==> Count(used, key) < capacity[key]
      {
        var key := use.capacityKeys[i];
        if key in capacity && Count(used, key) >= capacity[key] {
          return false;
        }
        assert use.capacityKeys[..i + 1] == use.capacityKeys[..i] + [key];
      }
      assert use.capacityKeys[..|use.capacityKeys|] == use.capacityKeys;
      return true;
    }

    method Push(use: Use)
      requires Distinct(use.capacityKeys)
      requires forall key :: key in used ==> used[key] > 0
      modifies this`used
      ensures forall key :: key in used ==> used[key] > 0
      ensures forall key :: Count(used, key) == Count(old(used), key) + (if key in use.capacityKeys then 1 else 0)
    {
      var keys := use.capacityKeys;
      for i := 0 to |keys|
        invariant forall key :: key in used ==> used[key] > 0
        invariant forall key :: Count(used, key) == Count(old(used), key) + (if key in keys[..i] then 1 else 0)
      {
        assert keys[i] !in keys[..i];
        assert keys[..i + 1] == keys[..i] + [keys[i]];
        used := used[keys[i] := Count(used, keys[i]) + 1];
      }
      assert keys[..|keys|] == keys;
    }

    method Pop(use: Use)
      requires Distinct(use.capacityKeys)
      requires forall key :: key in used ==> used[key] > 0
      requires forall key :: key in use.capacityKeys ==> Count(used, key) > 0
      modifies this`used
      ensures forall key :: key in used ==> used[key] > 0
      ensures forall key :: Count(used, key) == Count(old(used), key) - (if key in use.capacityKeys then 1 else 0)
    {
      var keys := use.capacityKeys;
      for i := 0 to |keys|
        invariant forall key :: key in used ==> used[key] > 0
        invariant forall key :: Count(used, key) == Count(old(used), key) - (if key in keys[..i] then 1 else 0)
      {
        var key := keys[i];
        assert key !in keys[..i];
        assert keys[..i + 1] == keys[..i] + [key];
        used := used[key := Count(used, key) - 1];
        if used[key] == 0 {
          used := used - {key};
        }
      }
      assert keys[..|keys|] == keys;
    }

    /** The summary of the current vector, accumulated position by position. */
    method Summarise() returns (solution: Solution)
      requires Typed(options, choices, |options|)
      ensures solution == Summary(options, choices)
    {
      var score := Score(0, 0, 0);
      for position := 0 to |options|
        invariant Typed(options, choices, position) && score == ScoreOf(options, choices, position)
      {
        assert ChoiceAt(options, choices, position);
        var selected := choices[position];
        if selected == SKIPPED {
          score := score.(skipped := score.skipped + 1);
        } else {
          var use := options[position][selected];
          score := Score(score.skipped, SaturatingAdd(score.cost, use.cost), score.hops + use.hops);
        }
      }
      solution := Solution(choices, score);
    }

    ghost function Best(): (best: Incumbent)
      reads this
    {
      if haveBest then Some(this.best) else None
    }

    /** What one exploration of the completions of the first `position` decisions leaves behind. */
    twostate predicate Explored(position: nat)
      reads this
    {
      && Ready(position)
      && |old(choices)| == |choices|
      && choices[..position] == old(choices[..position]) && used == old(used)
      && remaining + nodes == old(remaining + nodes)
      && Improves(old(Best()), Best())
      && (!haveBest ==> best == old(best))
      && (exhausted ==> old(exhausted))
      && (old(exhausted) && !exhausted ==> remaining == 0)
    }

    /** Adopts the completed vector when it is strictly better than the incumbent. */
    method Leaf()
      requires Ready(|options|)
      modifies this`best, this`haveBest
      ensures Ready(|options|) && haveBest
      ensures Improves(old(Best()), Best()) && Covered(options, capacity, choices[..|options|], Best())
    {
      var candidate := Summarise();
      if !haveBest || Better(candidate, best) {
        best := candidate;
        haveBest := true;
      } else if candidate != best {
        BetterTotal(options, candidate.choice, best.choice);
      }
      CoverLeaf(options, capacity, choices, Best());
    }

    /** Takes an alternative that fits: push its usage, recurse, pop its usage. */
    method Take(position: nat, partial: Score, index: nat)
      requires exhausted && Ready(position) && partial == ScoreOf(options, choices, position)
      requires position < |options| && index < |options[position]|
      requires forall key :: key in options[position][index].capacityKeys && key in capacity ==>
                 Count(used, key) < capacity[key]
      modifies this
      ensures Explored(position) && choices[position] == index
      ensures exhausted ==> haveBest && Covered(options, capacity, choices[..position + 1], Best())
      decreases |options| - position, 0
    {
      var use := options[position][index];
      Push(use);
      ConsistentPush(options, capacity, old(used), used, choices, position, index);
      Decide(options, choices, choices[position := index], position, index);
      choices := choices[position := index];
      ghost var pushed := choices;
      Dfs(position + 1, Score(partial.skipped, SaturatingAdd(partial.cost, use.cost), partial.hops + use.hops));
      SamePrefix(choices, pushed, position);
      Pop(use);
      SameCounts(used, old(used));
      ConsistentPrefix(options, capacity, used, old(choices), choices, position);
    }

    /** Tries one alternative of one demand, if it fits. */
    method Branch(position: nat, partial: Score, index: nat)
      requires exhausted && Ready(position) && partial == ScoreOf(options, choices, position)
      requires position < |options| && index < |options[position]|
      requires CoveredBelow(options, capacity, choices[..position], index, Best())
      modifies this
      ensures Explored(position)
      ensures exhausted ==> CoveredBelow(options, capacity, choices[..position], index + 1, Best())
      decreases |options| - position, 1
    {
      var use := options[position][index];
      var fits := Fits(use);
      if !fits {
        ghost var key :| key in use.capacityKeys && key in capacity && Count(used, key) >= capacity[key];
        OversubscribedSound(options, capacity, choices, position, index, key, Best());
        return;
      }
      Take(position, partial, index);
      if exhausted {
        CoveredMonotone(options, capacity, choices[..position], index, old(Best()), Best());
        CoverNext(options, capacity, choices, position, Best());
      }
    }

    /** Spends one unit of the budget on one alternative; a cut leaves the demand skipped. */
    method Attempt(position: nat, partial: Score, index: nat)
      requires exhausted && Ready(position) && partial == ScoreOf(options, choices, position)
      requires position < |options| && index < |options[position]|
      requires CoveredBelow(options, capacity, choices[..position], index, Best())
      modifies this
      ensures Explored(position)
      ensures exhausted ==> CoveredBelow(options, capacity, choices[..position], index + 1, Best())
      decreases |options| - position, 2
    {
      if remaining == 0 {
        exhausted := false;
        return;
      }
      remaining, nodes := remaining - 1, nodes + 1;
      Branch(position, partial, index);
      if !exhausted {
        ConsistentPrefix(options, capacity, used, choices, choices[position := SKIPPED], position);
        choices := choices[position := SKIPPED];
      }
    }

    /** Tries every alternative of one demand, in canonical order, while the budget lasts. */
    method Alternatives(position: nat, partial: Score)
      requires exhausted && Ready(position) && partial == ScoreOf(options, choices, position)
      requires position < |options|
      modifies this
      ensures Explored(position)
      ensures exhausted ==> CoveredBelow(options, capacity, choices[..position], |options[position]|, Best())
      decreases |options| - position, 3
    {
      var index := 0;
      while index < |options[position]|
        invariant index <= |options[position]|
        invariant exhausted && Explored(position) && partial == ScoreOf(options, choices, position)
        invariant CoveredBelow(options, capacity, choices[..position], index, Best())
      {
        ghost var incumbent, before := Best(), choices;
        Attempt(position, partial, index);
        ImprovesTransitive(old(Best()), incumbent, Best());
        ConsistentPrefix(options, capacity, used, before, choices, position);
        if !exhausted {
          return;
        }
        index := index + 1;
      }
    }

    /** Leaves one demand unassigned and explores the rest. */
    method Skip(position: nat, partial: Score)
      requires exhausted && Ready(position) && partial == ScoreOf(options, choices, position)
      requires position < |options|
      requires CoveredBelow(options, capacity, choices[..position], |options[position]|, Best())
      modifies this
      ensures Explored(position)
      ensures exhausted ==> haveBest && Covered(options, capacity, choices[..position], Best())
      decreases |options| - position, 0
    {
      Decide(options, choices, choices[position := SKIPPED], position, SKIPPED);
      choices := choices[position := SKIPPED];
      ghost var skipping := choices;
      Dfs(position + 1, partial.(skipped := partial.skipped + 1));
      SamePrefix(choices, skipping, position);
      ConsistentPrefix(options, capacity, used, old(choices), choices, position);
      if exhausted {
        CoveredMonotone(options, capacity, choices[..position], |options[position]|, old(Best()), Best());
        CoverAll(options, capacity, choices, position, Best());
      }
    }

    /**
     Explores every completion of the first `position` decisions, unless pruned or cut.
     The usage counters come back exactly as they were.
     */
    method Dfs(position: nat, partial: Score)
      requires Ready(position) && partial == ScoreOf(options, choices, position)
      modifies this
      ensures Explored(position)
      ensures exhausted ==> haveBest && Covered(options, capacity, choices[..position], Best())
      decreases |options| - position, 4
    {
      if !exhausted {
        return;
      }
      if haveBest && partial.skipped > best.score.skipped {
        PruneSound(options, capacity, choices, position, best);
        return;
      }
      if haveBest && partial.skipped == best.score.skipped && partial.cost > best.score.cost {
        PruneSound(options, capacity, choices, position, best);
        return;
      }
      if position == |options| {
        Leaf();
        return;
      }
      Alternatives(position, partial);
      if !exhausted {
        return;
      }
      ghost var incumbent := Best();
      ConsistentPrefix(options, capacity, used, old(choices), choices, position);
      if remaining == 0 {
        exhausted := false;
        return;
      }
      remaining, nodes := remaining - 1, nodes + 1;
      Skip(position, partial);
      ImprovesTransitive(old(Best()), incumbent, Best());
    }

    /**
     Runs the search from the empty decision. A completed run returns the unique optimum; a cut
     run still returns a feasible vector and has spent the whole budget.
     */
    method Run() returns (solution: Solution, complete: bool)
      requires WellFormed(options) && used == map[] && exhausted && !haveBest
      modifies this
      ensures Feasible(options, capacity, solution.choice)
      ensures complete ==> Optimum(options, capacity, solution.choice) && solution == Summary(options, solution.choice)
      ensures !complete ==> remaining == 0
      ensures remaining + nodes == old(remaining + nodes)
    {
      choices := AllSkipped(|options|);
      best := best.(choice := AllSkipped(|options|));
      Dfs(0, Score(0, 0, 0));
      AllSkippedFeasible(options, capacity, |options|);
      if exhausted {
        CoveredEverything(options, capacity, best);
      }
      return best, exhausted;
    }
  }
}
