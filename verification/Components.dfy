/**
 Splitting the demands into connected components of "could charge a common generation"
 (src/plan/planning_core.cpp:567-587).
 */
module Components {
  import opened Identity
  import opened Assignment
  import opened Decomposition
  import opened UnionFind

  /** A grouping that every root agrees with. */
  ghost predicate Stable(group: seq<nat>, parent: seq<nat>)
    requires Forest(parent)
  {
    && |group| == |parent|
    && forall i :: 0 <= i < |parent| ==> group[i] == group[Root(parent, i)]
  }

  ghost predicate ConstantOn(group: seq<nat>, list: seq<nat>) {
    && Indices(list, |group|)
    && forall p, q :: 0 <= p < |list| && 0 <= q < |list| ==> group[list[p]] == group[list[q]]
  }

  ghost predicate SameRoots(parent: seq<nat>, list: seq<nat>)
    requires Forest(parent)
  {
    && Indices(list, |parent|)
    && forall p :: 0 <= p < |list| ==> Root(parent, list[p]) == Root(parent, list[0])
  }

  /** Classes only grow. */
  ghost predicate Coarser(before: seq<nat>, after: seq<nat>)
    requires Forest(before) && Forest(after)
  {
    && |before| == |after|
    && forall i, j :: 0 <= i < |before| && 0 <= j < |before| && Root(before, i) == Root(before, j) ==>
         Root(after, i) == Root(after, j)
  }

  /** Nothing is merged that some sharing-respecting grouping keeps apart. */
  ghost predicate Sound(before: seq<nat>, after: seq<nat>, list: seq<nat>)
    requires Forest(before) && Forest(after)
  {
    forall group :: Stable(group, before) && ConstantOn(group, list) ==> Stable(group, after)
  }

  /** Puts all users of one generation into one class, and merges nothing else. */
  method UniteUsers(sets: DisjointSet, list: seq<nat>)
    requires sets.Valid() && Indices(list, |sets.parent|)
    modifies sets
    ensures sets.Valid() && |sets.parent| == |old(sets.parent)|
    ensures SameRoots(sets.parent, list)
    ensures Coarser(old(sets.parent), sets.parent)
    ensures Sound(old(sets.parent), sets.parent, list)
  {
    var index := 1;
    while index < |list|
      invariant 0 < index && (index <= |list| || |list| == 0)
      invariant sets.Valid() && |sets.parent| == |old(sets.parent)|
      invariant |list| > 0 ==> SameRoots(sets.parent, list[..index])
      invariant Coarser(old(sets.parent), sets.parent)
      invariant Sound(old(sets.parent), sets.parent, list)
    {
      ghost var before := sets.parent;
      sets.Unite(list[0], list[index]);
      UniteStep(old(sets.parent), before, sets.parent, list, index);
      index := index + 1;
    }
    assert list[..|list|] == list;
  }

  lemma UniteStep(initial: seq<nat>, before: seq<nat>, after: seq<nat>, list: seq<nat>, index: nat)
    requires Forest(initial) && Forest(before) && Forest(after)
    requires 0 < index < |list| && Indices(list, |before|) && Merged(before, after, list[0], list[index])
    requires SameRoots(before, list[..index]) && Coarser(initial, before) && Sound(initial, before, list)
    ensures SameRoots(after, list[..index + 1]) && Coarser(initial, after) && Sound(initial, after, list)
  {
    forall p | 0 <= p < index + 1
      ensures Root(after, list[p]) == Root(after, list[0])
    {
      assert p < index ==> list[..index][p] == list[p];
    }
    forall group | Stable(group, initial) && ConstantOn(group, list)
      ensures Stable(group, after)
    {
      assert Stable(group, before);
      assert group[list[0]] == group[list[index]];
      forall i | 0 <= i < |after|
        ensures group[i] == group[Root(after, i)]
      {
      }
    }
  }

  /** The demands below n that could charge a generation, in ascending order. */
  ghost function UsersOf(options: Options, n: nat, key: SwitchKey): (users: seq<nat>)
    requires n <= |options|
    ensures Indices(users, n)
    ensures forall p :: 0 <= p < |users| ==> key in Touched(options[users[p]])
  {
    if n == 0 then []
    else if key in Touched(options[n - 1]) then UsersOf(options, n - 1, key) + [n - 1]
    else UsersOf(options, n - 1, key)
  }

  lemma {:induction false} UserListed(options: Options, n: nat, key: SwitchKey, i: nat) returns (p: nat)
    requires i < n <= |options| && key in Touched(options[i])
    ensures p < |UsersOf(options, n, key)| && UsersOf(options, n, key)[p] == i
  {
    if i == n - 1 {
      p := |UsersOf(options, n - 1, key)|;
    } else {
      p := UserListed(options, n - 1, key, i);
    }
  }

  function Listed(users: map<SwitchKey, seq<nat>>, key: SwitchKey): (list: seq<nat>) {
    if key in users then users[key] else []
  }

  method Users(options: Options) returns (users: map<SwitchKey, seq<nat>>)
    ensures forall key :: Listed(users, key) == UsersOf(options, |options|, key)
  {
    users := map[];
    for index := 0 to |options|
      invariant forall key :: Listed(users, key) == UsersOf(options, index, key)
    {
      var touched := Touched(options[index]);
      UsersNext(users, options, index);
      users := Enlist(users, touched, index);
    }
  }

  /** Every touched generation gains one user. */
  function Enlist(users: map<SwitchKey, seq<nat>>, touched: set<SwitchKey>, index: nat)
    : (next: map<SwitchKey, seq<nat>>)
  {
    map key | key in users.Keys + touched :: if key in touched then Listed(users, key) + [index] else Listed(users, key)
  }

  lemma UsersNext(users: map<SwitchKey, seq<nat>>, options: Options, n: nat)
    requires n < |options| && forall key :: Listed(users, key) == UsersOf(options, n, key)
    ensures forall key :: Listed(Enlist(users, Touched(options[n]), n), key) == UsersOf(options, n + 1, key)
  {
    var touched := Touched(options[n]);
    var next := Enlist(users, touched, n);
    forall key
      ensures Listed(next, key) == UsersOf(options, n + 1, key)
    {
      assert Listed(users, key) == UsersOf(options, n, key);
    }
  }

  /** Demands sharing a generation respect a grouping exactly on the user lists. */
  lemma RespectsUsers(options: Options, group: seq<nat>, key: SwitchKey)
    requires Respects(options, group)
    ensures ConstantOn(group, UsersOf(options, |options|, key))
  {
    var list := UsersOf(options, |options|, key);
    forall p, q | 0 <= p < |list| && 0 <= q < |list|
      ensures group[list[p]] == group[list[q]]
    {
      assert key in Touched(options[list[p]]) * Touched(options[list[q]]);
    }
  }

  /** Everything merged so far is forced by sharing. */
  ghost predicate Forced(options: Options, parent: seq<nat>)
    requires Forest(parent)
  {
    forall group :: Respects(options, group) ==> Stable(group, parent)
  }

  lemma ForcedStep(options: Options, before: seq<nat>, after: seq<nat>, key: SwitchKey)
    requires Forest(before) && Forest(after) && Forced(options, before)
    requires Sound(before, after, UsersOf(options, |options|, key))
    ensures Forced(options, after)
  {
    forall group | Respects(options, group)
      ensures Stable(group, after)
    {
      RespectsUsers(options, group, key);
    }
  }

  lemma SameRootsKept(before: seq<nat>, after: seq<nat>, list: seq<nat>)
    requires Forest(before) && Forest(after) && Coarser(before, after) && SameRoots(before, list)
    ensures SameRoots(after, list)
  {
  }

  /** The classes after uniting the users of every generation. */
  method Partition(options: Options) returns (sets: DisjointSet)
    ensures fresh(sets) && sets.Valid() && |sets.parent| == |options|
    ensures Forced(options, sets.parent)
    ensures forall key :: SameRoots(sets.parent, UsersOf(options, |options|, key))
  {
    sets := new DisjointSet(|options|);
    var users := Users(options);
    var pending := users.Keys;
    while pending != {}
      invariant pending <= users.Keys && fresh(sets) && sets.Valid() && |sets.parent| == |options|
      invariant Forced(options, sets.parent)
      invariant forall key :: key in users.Keys - pending ==> SameRoots(sets.parent, users[key])
    {
      var key :| key in pending;
      ghost var before := sets.parent;
      assert Listed(users, key) == users[key];
      UniteUsers(sets, users[key]);
      ForcedStep(options, before, sets.parent, key);
      forall done | done in users.Keys - pending
        ensures SameRoots(sets.parent, users[done])
      {
        SameRootsKept(before, sets.parent, users[done]);
      }
      pending := pending - {key};
    }
    forall key
      ensures SameRoots(sets.parent, UsersOf(options, |options|, key))
    {
      assert Listed(users, key) == UsersOf(options, |options|, key);
    }
  }

  /** The root of every demand, as a grouping. */
  ghost function Roots(parent: seq<nat>): (group: seq<nat>)
    requires Forest(parent)
  {
    seq(|parent|, i requires 0 <= i < |parent| => Root(parent, i))
  }

  lemma RootsRespect(options: Options, parent: seq<nat>)
    requires Forest(parent) && |parent| == |options|
    requires forall key :: SameRoots(parent, UsersOf(options, |options|, key))
    ensures Respects(options, Roots(parent))
  {
    forall i, j | 0 <= i < |options| && 0 <= j < |options| && Touched(options[i]) * Touched(options[j]) != {}
      ensures Root(parent, i) == Root(parent, j)
    {
      var key :| key in Touched(options[i]) * Touched(options[j]);
      var list := UsersOf(options, |options|, key);
      var p := UserListed(options, |options|, key, i);
      var q := UserListed(options, |options|, key, j);
      assert SameRoots(parent, list);
      assert Root(parent, list[p]) == Root(parent, list[0]) == Root(parent, list[q]);
    }
  }

  lemma RootsLinked(options: Options, parent: seq<nat>, i: nat, j: nat)
    requires Forest(parent) && |parent| == |options| && Forced(options, parent)
    requires i < |options| && j < |options| && Root(parent, i) == Root(parent, j)
    ensures Linked(options, i, j)
  {
    forall other | Respects(options, other)
      ensures other[i] == other[j]
    {
      assert Stable(other, parent);
      assert other[i] == other[Root(parent, i)] && other[j] == other[Root(parent, j)];
    }
  }

  /** The classes are the finest grouping that respects sharing. */
  lemma PartitionExact(options: Options, parent: seq<nat>)
    requires Forest(parent) && |parent| == |options| && Forced(options, parent)
    requires forall key :: SameRoots(parent, UsersOf(options, |options|, key))
    ensures Finest(options, Roots(parent))
  {
    RootsRespect(options, parent);
    var group := Roots(parent);
    forall i, j | 0 <= i < |options| && 0 <= j < |options|
      ensures group[i] == group[j] <==> Linked(options, i, j)
    {
      if Root(parent, i) == Root(parent, j) {
        RootsLinked(options, parent, i, j);
      }
    }
  }

  /** Each component lists its members among the first n demands, in ascending order. */
  ghost predicate Lists(components: map<nat, seq<nat>>, group: seq<nat>, n: nat)
    requires n <= |group|
  {
    && (forall r :: r in components ==> components[r] == Members(group, n, r))
    && (forall r :: r !in components ==> Members(group, n, r) == [])
  }

  function Append(components: map<nat, seq<nat>>, root: nat, index: nat): (appended: map<nat, seq<nat>>) {
    components[root := (if root in components then components[root] else []) + [index]]
  }

  lemma ListNext(components: map<nat, seq<nat>>, group: seq<nat>, n: nat)
    requires n < |group| && Lists(components, group, n)
    ensures Lists(Append(components, group[n], n), group, n + 1)
  {
  }

  /**
   The components, keyed by their smallest index. Two demands are in one component exactly when
   sharing links them.
   */
  method Split(options: Options) returns (components: map<nat, seq<nat>>, ghost group: seq<nat>)
    ensures Finest(options, group)
    ensures forall i :: 0 <= i < |options| ==> group[i] < |options|
    ensures Lists(components, group, |options|)
  {
    var sets := Partition(options);
    PartitionExact(options, sets.parent);
    group := Roots(sets.parent);
    components := Collect(sets, |options|, group);
  }

  /** Files every demand under its root. */
  method Collect(sets: DisjointSet, n: nat, ghost group: seq<nat>) returns (components: map<nat, seq<nat>>)
    requires sets.Valid() && |sets.parent| == n && group == Roots(sets.parent)
    modifies sets
    ensures Lists(components, group, n)
  {
    ghost var initial := sets.parent;
    components := map[];
    for index := 0 to n
      invariant sets.Valid() && SameForest(initial, sets.parent)
      invariant Lists(components, group, index)
    {
      var root := sets.Find(index);
      ListNext(components, group, index);
      components := Append(components, root, index);
    }
  }
}
