/**
 What an optimal assignment certifies about the demands it leaves out
 (src/plan/planning_core.cpp:627-647).
 */
module Certificates {
  import opened Identity
  import opened Assignment

  lemma {:induction false} UsageSwap(options: Options, choice: seq<nat>, other: seq<nat>, i: nat, j: nat, n: nat,
                                     key: SwitchKey)
    requires Typed(options, choice, n) && Typed(options, other, n)
    requires i < |choice| && choice[i] == SKIPPED && other == choice[i := j] && j < |options[i]| && j != SKIPPED
    ensures Usage(options, other, n, key)
         == Usage(options, choice, n, key) + if i < n && key in options[i][j].capacityKeys then 1 else 0
  {
    if n > 0 {
      UsageSwap(options, choice, other, i, j, n - 1, key);
    }
  }

  lemma {:induction false} SkippedSwap(options: Options, choice: seq<nat>, other: seq<nat>, i: nat, j: nat, n: nat)
    requires Typed(options, choice, n) && Typed(options, other, n)
    requires i < |choice| && choice[i] == SKIPPED && other == choice[i := j] && j < |options[i]| && j != SKIPPED
    ensures ScoreOf(options, choice, n).skipped == ScoreOf(options, other, n).skipped + if i < n then 1 else 0
  {
    if n > 0 {
      SkippedSwap(options, choice, other, i, j, n - 1);
    }
  }

  /** A generation with no spare capacity left under an assignment. */
  ghost predicate Saturated(options: Options, capacity: Capacity, choice: seq<nat>, key: SwitchKey)
    requires Typed(options, choice, |options|)
  {
    key in capacity && Usage(options, choice, |options|, key) >= capacity[key]
  }

  ghost predicate Blocked(options: Options, capacity: Capacity, choice: seq<nat>, use: Use)
    requires Typed(options, choice, |options|)
  {
    exists key :: key in use.capacityKeys && Saturated(options, capacity, choice, key)
  }

  /** A demand the optimum leaves out has every alternative blocked by a saturated generation. */
  lemma LeftOutIsBlocked(options: Options, capacity: Capacity, choice: seq<nat>, i: nat, j: nat)
    requires WellFormed(options) && Optimum(options, capacity, choice)
    requires i < |options| && choice[i] == SKIPPED && j < |options[i]|
    ensures Blocked(options, capacity, choice, options[i][j])
  {
    var other := choice[i := j];
    assert Typed(options, other, |options|) by {
      forall k | 0 <= k < |options|
        ensures ChoiceAt(options, other, k)
      {
        assert ChoiceAt(options, choice, k);
      }
    }
    if !Blocked(options, capacity, choice, options[i][j]) {
      forall key | key in capacity
        ensures Usage(options, other, |options|, key) <= capacity[key]
      {
        UsageSwap(options, choice, other, i, j, |options|, key);
        assert key in options[i][j].capacityKeys ==> !Saturated(options, capacity, choice, key);
      }
      SkippedSwap(options, choice, other, i, j, |options|);
      assert Feasible(options, capacity, other);
    }
  }

  lemma {:induction false} NothingUsed(options: Options, choice: seq<nat>, n: nat, key: SwitchKey)
    requires Typed(options, choice, n) && forall i :: 0 <= i < n ==> choice[i] == SKIPPED
    ensures Usage(options, choice, n, key) == 0
  {
    if n > 0 {
      NothingUsed(options, choice, n - 1, key);
    }
  }

  /** With spare capacity everywhere, the optimum serves someone as soon as anyone can be served. */
  lemma OptimumServes(options: Options, capacity: Capacity, choice: seq<nat>, i: nat)
    requires WellFormed(options) && Optimum(options, capacity, choice)
    requires forall key :: key in capacity ==> capacity[key] > 0
    requires i < |options| && options[i] != []
    ensures exists k :: 0 <= k < |options| && choice[k] != SKIPPED
  {
    if forall k :: 0 <= k < |options| ==> choice[k] == SKIPPED {
      LeftOutIsBlocked(options, capacity, choice, i, 0);
      var key :| key in options[i][0].capacityKeys && Saturated(options, capacity, choice, key);
      NothingUsed(options, choice, |options|, key);
    }
  }
}
