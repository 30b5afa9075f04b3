/**
 The assignment problem the planner solves, as a specification: choice vectors over the
 admissible alternatives of each demand, capacity feasibility, and the total objective
 (skipped, cost, hops, choice vector) minimised lexicographically.
 */
module Assignment {
  import opened Identity

  /** The choice that leaves a demand unassigned; larger than every alternative index. */
  const SKIPPED: nat := 0xFFFF_FFFF_FFFF_FFFF

  /** The part of an admissible alternative the search looks at. */
  datatype Use = Use(cost: U32, hops: nat, capacityKeys: seq<SwitchKey>)

  /** The admissible alternatives of each demand, in canonical order. */
  type Options = seq<seq<Use>>

  type Capacity = map<SwitchKey, nat>

  datatype Score = Score(skipped: nat, cost: U64, hops: nat)

  datatype Solution = Solution(choice: seq<nat>, score: Score)

  predicate Distinct<T(==)>(s: seq<T>) {
    forall i, j :: 0 <= i < j < |s| ==> s[i] != s[j]
  }

  /** Alternatives charge a switch generation at most once, and indices stay below SKIPPED. */
  ghost predicate WellFormed(options: Options) {
    forall i :: 0 <= i < |options| ==>
      && |options[i]| < SKIPPED
      && forall j :: 0 <= j < |options[i]| ==> Distinct(options[i][j].capacityKeys)
  }

  ghost predicate ChoiceAt(options: Options, choice: seq<nat>, i: nat)
    requires i < |options| && i < |choice|
  {
    choice[i] == SKIPPED || choice[i] < |options[i]|
  }

  /** The first n entries of a choice vector name existing alternatives. */
  ghost predicate Typed(options: Options, choice: seq<nat>, n: nat) {
    && n <= |options| == |choice|
    && forall i :: 0 <= i < n ==> ChoiceAt(options, choice, i)
  }

  ghost predicate Charges(options: Options, choice: seq<nat>, i: nat, key: SwitchKey)
    requires i < |options| == |choice| && ChoiceAt(options, choice, i)
  {
    choice[i] != SKIPPED && key in options[i][choice[i]].capacityKeys
  }

  /** How many of the first n demands consume capacity of one switch generation. */
  ghost function Usage(options: Options, choice: seq<nat>, n: nat, key: SwitchKey): (count: nat)
    requires Typed(options, choice, n)
  {
    if n == 0 then 0
    else Usage(options, choice, n - 1, key) + (if Charges(options, choice, n - 1, key) then 1 else 0)
  }

  ghost predicate WithinCapacity(options: Options, capacity: Capacity, choice: seq<nat>, n: nat)
    requires Typed(options, choice, n)
  {
    forall key :: key in capacity ==> Usage(options, choice, n, key) <= capacity[key]
  }

  ghost predicate Feasible(options: Options, capacity: Capacity, choice: seq<nat>) {
    && Typed(options, choice, |options|)
    && WithinCapacity(options, capacity, choice, |options|)
  }

  /** Addition of a cost to a 64-bit accumulator that saturates instead of wrapping. */
  function SaturatingAdd(total: U64, added: U32): (sum: U64) {
    if total + added > U64_MAX then U64_MAX else total + added
  }

  ghost function Extend(options: Options, choice: seq<nat>, i: nat, score: Score): (extended: Score)
    requires i < |options| == |choice| && ChoiceAt(options, choice, i)
  {
    if choice[i] == SKIPPED then score.(skipped := score.skipped + 1)
    else
      var use := options[i][choice[i]];
      Score(score.skipped, SaturatingAdd(score.cost, use.cost), score.hops + use.hops)
  }

  /** The objective value of the first n decisions. */
  ghost function ScoreOf(options: Options, choice: seq<nat>, n: nat): (score: Score)
    requires Typed(options, choice, n)
  {
    if n == 0 then Score(0, 0, 0)
    else Extend(options, choice, n - 1, ScoreOf(options, choice, n - 1))
  }

  predicate ScoreLess(a: Score, b: Score) {
    || a.skipped < b.skipped
    || (a.skipped == b.skipped && a.cost < b.cost)
    || (a.skipped == b.skipped && a.cost == b.cost && a.hops < b.hops)
  }

  /** Lexicographic order of choice vectors. */
  predicate LexLess(a: seq<nat>, b: seq<nat>) {
    |b| > 0 && (|a| == 0 || a[0] < b[0] || (a[0] == b[0] && LexLess(a[1..], b[1..])))
  }

  /** The planner's strict total preference between assignments. */
  predicate Better(a: Solution, b: Solution) {
    ScoreLess(a.score, b.score) || (a.score == b.score && LexLess(a.choice, b.choice))
  }

  ghost function Summary(options: Options, choice: seq<nat>): (solution: Solution)
    requires Typed(options, choice, |options|)
  {
    Solution(choice, ScoreOf(options, choice, |options|))
  }

  /** `solution` is at least as good as the feasible vector `choice`. */
  ghost predicate Beats(options: Options, solution: Solution, choice: seq<nat>)
    requires Typed(options, choice, |options|)
  {
    solution == Summary(options, choice) || Better(solution, Summary(options, choice))
  }

  /** The unique minimum of the objective over all capacity-feasible choice vectors. */
  ghost predicate Optimum(options: Options, capacity: Capacity, choice: seq<nat>) {
    && Feasible(options, capacity, choice)
    && forall other :: Feasible(options, capacity, other) && other != choice ==>
         Better(Summary(options, choice), Summary(options, other))
  }

  // ---- Order facts ----

  lemma {:induction false} LexFirstDifference(a: seq<nat>, b: seq<nat>, i: nat)
    requires i < |a| == |b| && a[..i] == b[..i] && a[i] != b[i]
    ensures LexLess(a, b) <==> a[i] < b[i]
  {
    if i > 0 {
      assert a[0] == a[..i][0] == b[..i][0] == b[0];
      assert a[1..][..i - 1] == a[..i][1..] == b[..i][1..] == b[1..][..i - 1];
      LexFirstDifference(a[1..], b[1..], i - 1);
    }
  }

  lemma {:induction false} FirstDifference(a: seq<nat>, b: seq<nat>) returns (i: nat)
    requires |a| == |b| && a != b
    ensures i < |a| && a[..i] == b[..i] && a[i] != b[i]
  {
    var j :| 0 <= j < |a| && a[j] != b[j];
    i := 0;
    while a[i] == b[i]
      invariant i <= j && a[..i] == b[..i]
      decreases j - i
    {
      i := i + 1;
    }
  }

  lemma {:induction false} LexTransitive(a: seq<nat>, b: seq<nat>, c: seq<nat>)
    requires LexLess(a, b) && LexLess(b, c)
    ensures LexLess(a, c)
  {
    if |a| > 0 && a[0] == b[0] == c[0] {
      LexTransitive(a[1..], b[1..], c[1..]);
    }
  }

  lemma {:induction false} LexIrreflexive(a: seq<nat>)
    ensures !LexLess(a, a)
  {
    if |a| > 0 {
      LexIrreflexive(a[1..]);
    }
  }

  lemma BetterTransitive(a: Solution, b: Solution, c: Solution)
    requires Better(a, b) && Better(b, c)
    ensures Better(a, c)
  {
    if a.score == b.score == c.score {
      LexTransitive(a.choice, b.choice, c.choice);
    }
  }

  /** The preference is total: two summaries of different vectors are strictly ordered. */
  lemma BetterTotal(options: Options, a: seq<nat>, b: seq<nat>)
    requires Typed(options, a, |options|) && Typed(options, b, |options|)
    requires a != b && !Better(Summary(options, a), Summary(options, b))
    ensures Better(Summary(options, b), Summary(options, a))
  {
    var i := FirstDifference(a, b);
    LexFirstDifference(a, b, i);
    LexFirstDifference(b, a, i);
  }

  /** At most one vector is an optimum. */
  lemma OptimumUnique(options: Options, capacity: Capacity, a: seq<nat>, b: seq<nat>)
    requires Optimum(options, capacity, a) && Optimum(options, capacity, b)
    ensures a == b
  {
    if a != b {
      BetterTransitive(Summary(options, a), Summary(options, b), Summary(options, a));
      LexIrreflexive(a);
    }
  }

  // ---- The optimum exists ----

  function AllSkipped(count: nat): (choice: seq<nat>) {
    seq(count, _ => SKIPPED)
  }

  /** Every vector over the first n demands. */
  ghost function Vectors(options: Options, n: nat): (vectors: set<seq<nat>>)
    requires n <= |options|
  {
    if n == 0 then {[]}
    else
      set v, c | v in Vectors(options, n - 1) && c in Entries(|options[n - 1]|) :: v + [c]
  }

  /** What one position may hold. */
  ghost function Entries(count: nat): (entries: set<nat>)
    ensures forall c: nat :: c in entries <==> c < count || c == SKIPPED
  {
    if count == 0 then {SKIPPED} else Entries(count - 1) + {count - 1}
  }

  lemma {:induction false} VectorsHold(options: Options, choice: seq<nat>, n: nat)
    requires Typed(options, choice, |options|) && n <= |options|
    ensures choice[..n] in Vectors(options, n)
  {
    if n > 0 {
      VectorsHold(options, choice, n - 1);
      assert ChoiceAt(options, choice, n - 1);
      assert choice[..n] == choice[..n - 1] + [choice[n - 1]];
    }
  }

  ghost predicate AllFeasible(options: Options, capacity: Capacity, vectors: set<seq<nat>>) {
    forall v :: v in vectors ==> Feasible(options, capacity, v)
  }

  /** One of finitely many feasible vectors is better than all the others. */
  lemma {:induction false} BestOf(options: Options, capacity: Capacity, vectors: set<seq<nat>>)
    returns (best: seq<nat>)
    requires vectors != {} && AllFeasible(options, capacity, vectors)
    ensures best in vectors && Feasible(options, capacity, best)
    ensures forall v :: v in vectors && v != best ==>
              Feasible(options, capacity, v) && Better(Summary(options, best), Summary(options, v))
    decreases |vectors|
  {
    var one :| one in vectors;
    best := one;
    var rest := vectors - {one};
    if rest != {} {
      var other := BestOf(options, capacity, rest);
      if !Better(Summary(options, one), Summary(options, other)) {
        BetterTotal(options, one, other);
        best := other;
      } else {
        forall v | v in rest && v != other
          ensures Better(Summary(options, one), Summary(options, v))
        {
          BetterTransitive(Summary(options, one), Summary(options, other), Summary(options, v));
        }
      }
    }
    assert forall v :: v in vectors ==> v == one || v in rest;
  }

  /** Skipping every demand uses no capacity. */
  lemma {:induction false} AllSkippedFeasible(options: Options, capacity: Capacity, n: nat)
    requires n <= |options|
    ensures var none := AllSkipped(|options|);
            && Typed(options, none, n)
            && (forall key :: Usage(options, none, n, key) == 0)
            && WithinCapacity(options, capacity, none, n)
  {
    if n > 0 {
      AllSkippedFeasible(options, capacity, n - 1);
    }
  }

  /** Serving nothing is always feasible, so there is an optimum. */
  lemma OptimumExists(options: Options, capacity: Capacity) returns (choice: seq<nat>)
    ensures Optimum(options, capacity, choice)
  {
    var vectors := set v | v in Vectors(options, |options|) && Feasible(options, capacity, v);
    forall v | Feasible(options, capacity, v)
      ensures v in vectors
    {
      VectorsHold(options, v, |options|);
      assert v[..|options|] == v;
    }
    AllSkippedFeasible(options, capacity, |options|);
    assert AllSkipped(|options|) in vectors;
    choice := BestOf(options, capacity, vectors);
  }

  // ---- Prefix facts ----

  /** Usage and score of a prefix depend on that prefix only. */
  lemma {:induction false} PrefixAgree(options: Options, a: seq<nat>, b: seq<nat>, n: nat)
    requires Typed(options, a, n) && |b| == |options| && a[..n] == b[..n]
    ensures Typed(options, b, n)
    ensures ScoreOf(options, a, n) == ScoreOf(options, b, n)
    ensures forall key :: Usage(options, a, n, key) == Usage(options, b, n, key)
  {
    forall i | 0 <= i < n ensures ChoiceAt(options, b, i) {
      assert a[..n][i] == b[..n][i];
      assert ChoiceAt(options, a, i);
    }
    if n > 0 {
      assert a[..n - 1] == a[..n][..n - 1] == b[..n][..n - 1] == b[..n - 1];
      assert a[n - 1] == a[..n][n - 1] == b[..n][n - 1] == b[n - 1];
      PrefixAgree(options, a, b, n - 1);
    }
  }

  /** Usage never falls, and the score never improves, as more decisions are made. */
  lemma {:induction false} PrefixMonotone(options: Options, choice: seq<nat>, m: nat, n: nat)
    requires m <= n && Typed(options, choice, n)
    ensures Typed(options, choice, m)
    ensures forall key :: Usage(options, choice, m, key) <= Usage(options, choice, n, key)
    ensures var a, b := ScoreOf(options, choice, m), ScoreOf(options, choice, n);
            a.skipped <= b.skipped && a.cost <= b.cost && a.hops <= b.hops
    decreases n
  {
    if m < n {
      assert ChoiceAt(options, choice, n - 1);
      PrefixMonotone(options, choice, m, n - 1);
    }
  }
}
