/** The order in which workspace crates are published: rounds that take every package whose
    dependencies are all gone, until nothing is left or too many rounds have passed. */
module CrateOrder {
  type Name = string

  /** A package and the crates it depends on, some of which may lie outside the workspace. */
  datatype Package = Package(name: Name, dependencies: seq<Name>)

  datatype Outcome = CircularPair | CycleSuspected | Ordered(packages: seq<Name>)

  // ---------------------------------------------------------------------------------------
  // Graphs

  function Names(graph: seq<Package>): set<Name> {
    set p | p in graph :: p.name
  }

  /** A graph is keyed by name. */
  ghost predicate Keyed(graph: seq<Package>) {
    forall i, j :: 0 <= i < j < |graph| ==> graph[i].name != graph[j].name
  }

  ghost predicate DependsOn(graph: seq<Package>, a: Name, b: Name) {
    b in Names(graph) && exists p :: p in graph && p.name == a && b in p.dependencies
  }

  ghost predicate Link(graph: seq<Package>, path: seq<Name>, i: nat) {
    i + 1 < |path| && DependsOn(graph, path[i], path[i + 1])
  }

  ghost predicate IsPath(graph: seq<Package>, path: seq<Name>) {
    forall i: nat :: i + 1 < |path| ==> Link(graph, path, i)
  }

  lemma {:induction false} PathSuffix(graph: seq<Package>, path: seq<Name>, k: nat)
    requires IsPath(graph, path) && k <= |path|
    ensures IsPath(graph, path[k..])
  {
    forall i: nat | i + 1 < |path[k..]| ensures Link(graph, path[k..], i) {
      assert Link(graph, path, k + i);
    }
  }

  lemma {:induction false} PathExtend(graph: seq<Package>, path: seq<Name>, b: Name)
    requires IsPath(graph, path) && path != [] && DependsOn(graph, path[|path| - 1], b)
    ensures IsPath(graph, path + [b])
  {
    var longer := path + [b];
    forall i: nat | i + 1 < |longer| ensures Link(graph, longer, i) {
      assert i + 1 < |path| ==> Link(graph, path, i);
    }
  }

  ghost predicate IsCycle(graph: seq<Package>, path: seq<Name>) {
    |path| >= 2 && path[0] == path[|path| - 1] && IsPath(graph, path)
  }

  ghost predicate Acyclic(graph: seq<Package>) {
    forall path :: !IsCycle(graph, path)
  }

  /** Every package once, each after all its dependencies in the workspace. */
  ghost predicate IsOrder(graph: seq<Package>, order: seq<Name>) {
    && NoRepeats(order)
    && (forall n :: n in order <==> n in Names(graph))
    && DependenciesFirst(graph, order)
  }

  /** Along a path, positions in the order go down. */
  lemma {:induction false} PathDescends(graph: seq<Package>, order: seq<Name>, path: seq<Name>, i: nat) returns (j: nat)
    requires IsOrder(graph, order) && IsPath(graph, path) && path != [] && i < |order| && path[0] == order[i]
    ensures j <= i && order[j] == path[|path| - 1] && (|path| >= 2 ==> j < i)
    decreases |path|
  {
    if |path| == 1 {
      j := i;
    } else {
      assert Link(graph, path, 0);
      var k :| 0 <= k < i && order[k] == path[1];
      PathSuffix(graph, path, 1);
      j := PathDescends(graph, order, path[1..], k);
    }
  }

  /** A graph that has an order has no cycle. */
  lemma {:induction false} OrderedIsAcyclic(graph: seq<Package>, order: seq<Name>)
    requires IsOrder(graph, order)
    ensures Acyclic(graph)
  {
    forall path | IsCycle(graph, path) ensures false {
      assert Link(graph, path, 0);
      assert path[0] in Names(graph);
      var i :| 0 <= i < |order| && order[i] == path[0];
      var j := PathDescends(graph, order, path, i);
    }
  }

  /** The package waits for another one of `left`. */
  predicate Waits(p: Package, left: set<Name>) {
    exists i :: 0 <= i < |p.dependencies| && p.dependencies[i] in left
  }

  ghost predicate Stuck(left: seq<Package>) {
    forall p {:trigger Waits(p, Names(left))} :: p in left ==> Waits(p, Names(left))
  }

  ghost predicate PartOf(left: seq<Package>, graph: seq<Package>) {
    forall p {:trigger p in left} :: p in left ==> p in graph
  }

  /** A stuck package depends on another package that is left. */
  lemma {:induction false} NextOnWalk(graph: seq<Package>, left: seq<Package>, a: Name) returns (b: Name)
    requires Stuck(left) && PartOf(left, graph) && a in Names(left)
    ensures b in Names(left) && DependsOn(graph, a, b)
  {
    var p :| p in left && p.name == a;
    assert Waits(p, Names(left));
    var i :| 0 <= i < |p.dependencies| && p.dependencies[i] in Names(left);
    b := p.dependencies[i];
    var q :| q in left && q.name == b;
    assert q in graph && p in graph;
  }

  lemma {:induction false} WalkFindsCycle(graph: seq<Package>, left: seq<Package>, path: seq<Name>)
    returns (cycle: seq<Name>)
    requires Stuck(left) && PartOf(left, graph)
    requires path != [] && IsPath(graph, path) && (set n | n in path) <= Names(left)
    ensures IsCycle(graph, cycle)
    decreases Names(left) - (set n | n in path)
  {
    var last := path[|path| - 1];
    assert last in (set n | n in path);
    var b := NextOnWalk(graph, left, last);
    PathExtend(graph, path, b);
    var longer := path + [b];
    if b in path {
      var i :| 0 <= i < |path| && path[i] == b;
      PathSuffix(graph, longer, i);
      cycle := longer[i..];
    } else {
      assert (set n | n in longer) == (set n | n in path) + {b};
      cycle := WalkFindsCycle(graph, left, longer);
    }
  }

  /** A round that takes nothing means there is a cycle. */
  lemma {:induction false} StuckHasCycle(graph: seq<Package>, left: seq<Package>)
    requires left != [] && Stuck(left) && PartOf(left, graph)
    ensures !Acyclic(graph)
  {
    var first := left[0].name;
    assert first in Names(left);
    assert (set n | n in [first]) == {first};
    var cycle := WalkFindsCycle(graph, left, [first]);
  }

  // ---------------------------------------------------------------------------------------
  // The script

  /** Two packages that depend on each other, or one that depends on itself. */
  ghost predicate HasCircularPair(graph: seq<Package>) {
    exists a, b :: DependsOn(graph, a, b) && DependsOn(graph, b, a)
  }

  /** The direct circular dependencies. */
  method FindCircularPair(graph: seq<Package>) returns (found: bool)
    requires Keyed(graph)
    ensures found <==> HasCircularPair(graph)
    ensures found <==> exists a, b :: DependsOn(graph, a, b) && DependsOn(graph, b, a)
  {
    for i := 0 to |graph|
      invariant forall p, q :: p in graph[..i] && q in graph && q.name in p.dependencies ==> p.name !in q.dependencies
    {
      for k := 0 to |graph|
        invariant forall q :: q in graph[..k] && q.name in graph[i].dependencies ==> graph[i].name !in q.dependencies
      {
        if graph[k].name in graph[i].dependencies && graph[i].name in graph[k].dependencies {
          assert DependsOn(graph, graph[i].name, graph[k].name) && DependsOn(graph, graph[k].name, graph[i].name);
          return true;
        }
      }
    }
    found := false;
    NoPairFound(graph);
  }

  lemma {:induction false} NoPairFound(graph: seq<Package>)
    requires Keyed(graph)
    requires forall p, q ::
      p in graph[..|graph|] && q in graph && q.name in p.dependencies ==> p.name !in q.dependencies
    ensures !HasCircularPair(graph)
  {
    forall a, b | DependsOn(graph, a, b) ensures !DependsOn(graph, b, a) {
      var p :| p in graph && p.name == a && b in p.dependencies;
      assert p in graph[..|graph|];
      forall q | q in graph && q.name == b ensures a !in q.dependencies {
      }
    }
  }

  lemma {:induction false} PairIsCycle(graph: seq<Package>)
    requires HasCircularPair(graph)
    ensures !Acyclic(graph)
  {
    var a, b :| DependsOn(graph, a, b) && DependsOn(graph, b, a);
    var path := [a, b, a];
    assert Link(graph, path, 0) && Link(graph, path, 1);
    assert IsCycle(graph, path);
  }

  /** Each package comes after what it depends on. */
  ghost predicate DependenciesFirst(graph: seq<Package>, order: seq<Name>) {
    forall i, b :: 0 <= i < |order| && DependsOn(graph, order[i], b) ==> b in order[..i]
  }

  ghost predicate NoRepeats(order: seq<Name>) {
    forall i, j :: 0 <= i < j < |order| ==> order[i] != order[j]
  }

  /** `order` holds the packages taken so far, dependencies first, and `left` the others. */
  ghost predicate Progress(graph: seq<Package>, left: seq<Package>, order: seq<Name>) {
    && Keyed(left) && PartOf(left, graph)
    && NoRepeats(order)
    && Names(graph) == ToSet(order) + Names(left) && ToSet(order) !! Names(left)
    && DependenciesFirst(graph, order)
  }

  ghost function ToSet(order: seq<Name>): set<Name> {
    set n | n in order
  }

  lemma {:induction false} NoRepeatsJoin(a: seq<Name>, b: seq<Name>)
    requires NoRepeats(a) && NoRepeats(b) && ToSet(a) !! ToSet(b)
    ensures NoRepeats(a + b) && ToSet(a + b) == ToSet(a) + ToSet(b)
  {
    forall i, j | 0 <= i < j < |a + b| ensures (a + b)[i] != (a + b)[j] {
      if i < |a| <= j {
        assert a[i] in ToSet(a) && b[j - |a|] in ToSet(b);
      }
    }
  }

  function Without(left: seq<Package>, taken: seq<Name>): seq<Package> {
    if left == [] then []
    else Without(left[..|left| - 1], taken) + if left[|left| - 1].name in taken then [] else [left[|left| - 1]]
  }

  lemma {:induction false} WithoutHas(left: seq<Package>, taken: seq<Name>, p: Package)
    ensures p in Without(left, taken) <==> p in left && p.name !in taken
    decreases |left|
  {
    if left != [] {
      var n := |left| - 1;
      WithoutHas(left[..n], taken, p);
      assert left == left[..n] + [left[n]];
    }
  }

  lemma {:induction false} WithoutKeyed(left: seq<Package>, taken: seq<Name>)
    requires Keyed(left)
    ensures Keyed(Without(left, taken))
    decreases |left|
  {
    if left != [] {
      var n := |left| - 1;
      var rest := Without(left[..n], taken);
      WithoutKeyed(left[..n], taken);
      forall i | 0 <= i < |rest| ensures rest[i].name != left[n].name {
        WithoutHas(left[..n], taken, rest[i]);
      }
    }
  }

  lemma {:induction false} WithoutShrinks(left: seq<Package>, taken: seq<Name>)
    ensures |Without(left, taken)| <= |left|
    ensures (exists i :: 0 <= i < |left| && left[i].name in taken) ==> |Without(left, taken)| < |left|
    decreases |left|
  {
    if left != [] {
      WithoutShrinks(left[..|left| - 1], taken);
    }
  }

  /** The packages of one round: those of the first `k` that wait for nobody. */
  function Ready(left: seq<Package>, k: nat): seq<Name>
    requires k <= |left|
  {
    if k == 0 then []
    else Ready(left, k - 1) + if Waits(left[k - 1], Names(left)) then [] else [left[k - 1].name]
  }

  lemma {:induction false} ReadyHas(left: seq<Package>, k: nat, n: Name)
    requires k <= |left|
    ensures n in Ready(left, k) <==> exists i :: 0 <= i < k && left[i].name == n && !Waits(left[i], Names(left))
    decreases k
  {
    if k > 0 {
      ReadyHas(left, k - 1, n);
    }
  }

  lemma {:induction false} ReadyHasNoRepeats(left: seq<Package>, k: nat)
    requires Keyed(left) && k <= |left|
    ensures NoRepeats(Ready(left, k))
    decreases k
  {
    if k > 0 {
      ReadyHasNoRepeats(left, k - 1);
      ReadyHas(left, k - 1, left[k - 1].name);
    }
  }

  method TakeRound(left: seq<Package>) returns (taken: seq<Name>)
    ensures taken == Ready(left, |left|)
  {
    taken := [];
    for k := 0 to |left|
      invariant taken == Ready(left, k)
    {
      if !Waits(left[k], Names(left)) {
        taken := taken + [left[k].name];
      }
    }
  }

  /** What a taken package depends on has been taken in an earlier round. */
  lemma {:induction false} TakenHasDependencies(graph: seq<Package>, left: seq<Package>, order: seq<Name>, p: Package,
                                                b: Name)
    requires Keyed(graph) && Progress(graph, left, order) && p in left && !Waits(p, Names(left))
    requires DependsOn(graph, p.name, b)
    ensures b in order
  {
    var q :| q in graph && q.name == p.name && b in q.dependencies;
    assert p in graph;
    var i, j :| 0 <= i < |graph| && 0 <= j < |graph| && graph[i] == p && graph[j] == q;
    assert i == j;
    assert b in ToSet(order) + Names(left);
  }

  /** A taken package is one of those left that wait for nobody. */
  lemma {:induction false} TakenWaitsForNobody(left: seq<Package>, n: Name) returns (p: Package)
    requires n in Ready(left, |left|)
    ensures p in left && p.name == n && !Waits(p, Names(left))
  {
    ReadyHas(left, |left|, n);
    var i :| 0 <= i < |left| && left[i].name == n && !Waits(left[i], Names(left));
    p := left[i];
  }

  lemma {:induction false} RoundKeepsOrder(graph: seq<Package>, left: seq<Package>, order: seq<Name>)
    requires Keyed(graph) && Progress(graph, left, order)
    ensures DependenciesFirst(graph, order + Ready(left, |left|))
  {
    var taken := Ready(left, |left|);
    var order' := order + taken;
    forall i, b | 0 <= i < |order'| && DependsOn(graph, order'[i], b) ensures b in order'[..i] {
      if i < |order| {
        assert order'[i] == order[i] && order'[..i] == order[..i];
      } else {
        assert order'[i] in taken;
        var p := TakenWaitsForNobody(left, order'[i]);
        TakenHasDependencies(graph, left, order, p, b);
        assert order'[..i][..|order|] == order;
      }
    }
  }

  lemma {:induction false} RoundKeepsNames(left: seq<Package>)
    ensures var taken := Ready(left, |left|);
      Names(Without(left, taken)) == Names(left) - ToSet(taken) && ToSet(taken) <= Names(left)
  {
    var taken := Ready(left, |left|);
    forall p ensures p in Without(left, taken) <==> p in left && p.name !in taken {
      WithoutHas(left, taken, p);
    }
    forall n | n in taken ensures n in Names(left) {
      var p := TakenWaitsForNobody(left, n);
    }
    forall n | n in Names(left) && n !in taken ensures n in Names(Without(left, taken)) {
      var p :| p in left && p.name == n;
      assert p in Without(left, taken);
    }
  }

  lemma {:induction false} RoundKeepsProgress(graph: seq<Package>, left: seq<Package>, order: seq<Name>)
    requires Keyed(graph) && Progress(graph, left, order)
    ensures Progress(graph, Without(left, Ready(left, |left|)), order + Ready(left, |left|))
  {
    var taken := Ready(left, |left|);
    RoundKeepsOrder(graph, left, order);
    WithoutKeyed(left, taken);
    ReadyHasNoRepeats(left, |left|);
    RoundKeepsNames(left);
    NoRepeatsJoin(order, taken);
    forall p | p in Without(left, taken) ensures p in graph {
      WithoutHas(left, taken, p);
    }
  }

  /** In an acyclic graph every round takes a package. */
  lemma {:induction false} RoundTakes(graph: seq<Package>, left: seq<Package>, order: seq<Name>)
    requires Acyclic(graph) && Progress(graph, left, order) && left != []
    ensures |Without(left, Ready(left, |left|))| < |left|
  {
    WithoutShrinks(left, Ready(left, |left|));
    if Stuck(left) {
      StuckHasCycle(graph, left);
    } else {
      var p :| p in left && !Waits(p, Names(left));
      var i :| 0 <= i < |left| && left[i] == p;
      ReadyHas(left, |left|, p.name);
    }
  }

  lemma {:induction false} BudgetSuffices(n: nat, left: nat, budget: nat)
    requires 0 < left <= n && budget + (n - left) >= n * n
    ensures budget > 0
  {
    assert n * n >= n;
  }

  /** The list exists exactly when the workspace has no dependency cycle, and then holds every
      package once, after its dependencies. The bound of n*n rounds never rejects a good graph. */
  method OrderPackages(graph: seq<Package>) returns (r: Outcome)
    requires Keyed(graph)
    ensures r.CircularPair? <==> HasCircularPair(graph)
    ensures r.Ordered? <==> Acyclic(graph)
    ensures r.Ordered? ==> IsOrder(graph, r.packages)
  {
    var circular := FindCircularPair(graph);
    if circular {
      PairIsCycle(graph);
      return CircularPair;
    }
    var left, order := graph, [];
    var budget: nat := |graph| * |graph|;
    while left != []
      invariant Progress(graph, left, order) && |left| <= |graph|
      invariant Acyclic(graph) ==> budget + (|graph| - |left|) >= |graph| * |graph|
      decreases budget
    {
      if budget == 0 {
        if Acyclic(graph) {
          BudgetSuffices(|graph|, |left|, budget);
        }
        return CycleSuspected;
      }
      budget := budget - 1;
      var taken := TakeRound(left);
      RoundKeepsProgress(graph, left, order);
      WithoutShrinks(left, taken);
      if Acyclic(graph) {
        RoundTakes(graph, left, order);
      }
      left, order := Without(left, taken), order + taken;
    }
    assert forall n :: n in order <==> n in ToSet(order);
    OrderedIsAcyclic(graph, order);
    r := Ordered(order);
  }
}
