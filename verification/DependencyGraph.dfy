/** The cycle search of the dependency gate (scripts/check-deps.ts, check 1).

  The workspace graph maps a package name to its production dependencies. The search is a
  depth-first walk that keeps a `visited` set, a `stack` set and the `path` that led to the
  current node, and reports a cycle whenever it meets a node that is on the stack. */
module DependencyGraph {
  import opened Collections

  datatype Package = Package(name: string, dir: string, deps: seq<string>, devDeps: seq<string>)

  type Graph<!N> = map<N, seq<N>>

  /** The graph the gate builds: of two packages with one name, the later one wins. */
  function GraphOf(packages: seq<Package>): Graph<string> {
    if packages == [] then map[] else
    var last := packages[|packages| - 1];
    GraphOf(packages[..|packages| - 1])[last.name := last.deps]
  }

  /** `b` is a dependency of `a` and both are workspace packages. */
  ghost predicate Edge<N(!new)>(g: Graph<N>, a: N, b: N) {
    a in g && b in g && b in g[a]
  }

  ghost predicate IsWalk<N(!new)>(g: Graph<N>, w: seq<N>) {
    forall i :: 0 <= i < |w| - 1 ==> StepsAlong(g, w, i)
  }

  ghost predicate StepsAlong<N(!new)>(g: Graph<N>, w: seq<N>, i: nat)
    requires i < |w| - 1
  {
    Edge(g, w[i], w[i + 1])
  }

  /** A closed walk with at least one edge. */
  ghost predicate IsCycle<N(!new)>(g: Graph<N>, w: seq<N>) {
    |w| >= 2 && w[0] == w[|w| - 1] && IsWalk(g, w)
  }

  /** A cycle that visits no node twice, apart from closing on its first node. */
  ghost predicate IsSimpleCycle<N(!new)>(g: Graph<N>, w: seq<N>) {
    IsCycle(g, w) && Distinct(w[..|w| - 1])
  }

  /** The last edge of some reported cycle goes from `a` to `b`. */
  ghost predicate Closes<N(!new)>(reports: seq<seq<N>>, a: N, b: N) {
    exists k :: 0 <= k < |reports| && ClosesBy(reports[k], a, b)
  }

  ghost predicate ClosesBy<N(!new)>(cycle: seq<N>, a: N, b: N) {
    |cycle| >= 2 && cycle[|cycle| - 2] == a && cycle[|cycle| - 1] == b
  }

  /** Some edge of the walk `w` is the closing edge of a reported cycle. */
  ghost predicate IsCut<N(!new)>(reports: seq<seq<N>>, w: seq<N>) {
    exists i :: 0 <= i < |w| - 1 && IsCutAt(reports, w, i)
  }

  ghost predicate IsCutAt<N(!new)>(reports: seq<seq<N>>, w: seq<N>, i: nat)
    requires i < |w| - 1
  {
    Closes(reports, w[i], w[i + 1])
  }

  /** Every edge out of a finished node leads to an earlier finished node or was reported. */
  ghost predicate Ordered<N(!new)>(g: Graph<N>, finished: seq<N>, reports: seq<seq<N>>) {
    forall i, b :: 0 <= i < |finished| && Edge(g, finished[i], b) ==>
      b in finished[..i] || Closes(reports, finished[i], b)
  }

  /** The search state: the closure variables of `checkCircularDeps`. */
  class CycleSearch<N(==,!new)> {
    const graph: Graph<N>
    var visited: set<N>
    var stack: set<N>
    var reports: seq<seq<N>>
    ghost var finished: seq<N>

    constructor (g: Graph<N>)
      ensures graph == g && visited == {} && stack == {} && reports == [] && finished == []
      ensures Valid([])
    {
      graph, visited, stack, reports, finished := g, {}, {}, [], [];
    }

    /** What every call of the search keeps; in particular `stack` is the set of nodes on `path`. */
    ghost predicate Valid(path: seq<N>)
      reads this
    {
      && stack == Elements(path)
      && Distinct(path)
      && IsWalk(graph, path)
      && visited == stack + Elements(finished)
      && stack !! Elements(finished)
      && visited <= graph.Keys
      && (forall r :: r in reports ==> IsSimpleCycle(graph, r))
      && Ordered(graph, finished, reports)
    }

    method Dfs(node: N, path: seq<N>)
      requires Valid(path)
      requires node in graph
      requires path != [] ==> Edge(graph, path[|path| - 1], node)
      modifies this
      ensures Valid(path)
      ensures old(visited) <= visited && stack == old(stack)
      ensures old(reports) <= reports && old(finished) <= finished
      ensures node in finished || (path != [] && Closes(reports, path[|path| - 1], node))
      decreases graph.Keys - visited
    {
      if node in stack {
        Report(node, path);
        return;
      }
      if node in visited {
        return;
      }
      Enter(node, path);
      ghost var entered := visited;
      var deps := graph[node];
      for i := 0 to |deps|
        invariant Valid(path + [node]) && entered <= visited
        invariant old(reports) <= reports && old(finished) <= finished
        invariant Explored(node, i)
      {
        if deps[i] in graph {
          label Before:
          assert Edge(graph, (path + [node])[|path|], deps[i]);
          Dfs(deps[i], path + [node]);
          StillExplored(node, i, old@Before(finished), finished, old@Before(reports), reports);
        }
      }
      Leave(node, path);
    }

    /** The first `n` dependencies of `node` are finished or their edge was reported. */
    ghost predicate Explored(node: N, n: nat)
      reads this
      requires node in graph && n <= |graph[node]|
    {
      ExploredIn(graph, node, n, finished, reports)
    }

    lemma StillExplored(node: N, n: nat, f: seq<N>, f': seq<N>, r: seq<seq<N>>, r': seq<seq<N>>)
      requires node in graph && n <= |graph[node]| && f <= f' && r <= r'
      requires ExploredIn(graph, node, n, f, r)
      ensures ExploredIn(graph, node, n, f', r')
    {
    }

    method Enter(node: N, path: seq<N>)
      requires Valid(path)
      requires node in graph && node !in visited
      requires path != [] ==> Edge(graph, path[|path| - 1], node)
      modifies this`visited, this`stack
      ensures Valid(path + [node])
      ensures visited == old(visited) + {node}
      ensures graph.Keys - visited < old(graph.Keys - visited)
    {
      visited := visited + {node};
      stack := stack + {node};
      assert node in old(graph.Keys - visited);
      WalkExtends(graph, path, node);
    }

    /** All dependencies are explored: the node leaves the stack and joins the finishing order. */
    method Leave(node: N, path: seq<N>)
      requires Valid(path + [node])
      requires node in graph && Explored(node, |graph[node]|)
      modifies this`stack, this`finished
      ensures Valid(path)
      ensures finished == old(finished) + [node]
    {
      WalkShortens(graph, path, node);
      OrderedExtends(graph, finished, node, reports);
      stack := stack - {node};
      finished := finished + [node];
      assert Elements(finished) == Elements(old(finished)) + {node};
    }

    /** The node is on the stack: push the cycle from its position on the path. */
    method Report(node: N, path: seq<N>)
      requires Valid(path)
      requires node in stack && path != [] && Edge(graph, path[|path| - 1], node)
      modifies this`reports
      ensures Valid(path)
      ensures old(reports) <= reports && Closes(reports, path[|path| - 1], node)
    {
      var start := IndexOf(path, node);
      var cycle := path[start..] + [node];
      reports := reports + [cycle];
      assert ClosesBy(reports[|reports| - 1], path[|path| - 1], node);
      ClosesIsMonotone(old(reports), reports);
      SuffixIsSimpleCycle(graph, path, start, node);
    }
  }

  ghost predicate ExploredIn<N(!new)>(g: Graph<N>, node: N, n: nat, finished: seq<N>, reports: seq<seq<N>>)
    requires node in g && n <= |g[node]|
  {
    forall j :: 0 <= j < n && g[node][j] in g ==>
      g[node][j] in finished || Closes(reports, node, g[node][j])
  }

  lemma OrderedExtends<N(!new)>(g: Graph<N>, finished: seq<N>, node: N, reports: seq<seq<N>>)
    requires Ordered(g, finished, reports)
    requires node in g && ExploredIn(g, node, |g[node]|, finished, reports)
    ensures Ordered(g, finished + [node], reports)
  {
    var longer := finished + [node];
    forall i, b | 0 <= i < |longer| && Edge(g, longer[i], b)
      ensures b in longer[..i] || Closes(reports, longer[i], b)
    {
      assert longer[..i] == finished[..i];
      if i == |finished| {
        assert finished[..i] == finished;
      }
    }
  }

  lemma WalkExtends<N(!new)>(g: Graph<N>, path: seq<N>, node: N)
    requires IsWalk(g, path) && Distinct(path) && node !in path
    requires path != [] ==> Edge(g, path[|path| - 1], node)
    ensures IsWalk(g, path + [node]) && Distinct(path + [node])
    ensures Elements(path + [node]) == Elements(path) + {node}
  {
    var w := path + [node];
    forall i | 0 <= i < |w| - 1
      ensures StepsAlong(g, w, i)
    {
      if i + 1 < |path| {
        assert StepsAlong(g, path, i);
      }
    }
  }

  lemma WalkShortens<N(!new)>(g: Graph<N>, path: seq<N>, node: N)
    requires IsWalk(g, path + [node]) && Distinct(path + [node])
    ensures IsWalk(g, path) && Distinct(path) && node !in path
    ensures Elements(path + [node]) == Elements(path) + {node}
  {
    var w := path + [node];
    assert forall i :: 0 <= i < |path| ==> w[i] == path[i];
    forall i | 0 <= i < |path| - 1
      ensures StepsAlong(g, path, i)
    {
      assert StepsAlong(g, w, i);
    }
    assert w[|path|] == node;
  }

  method IndexOf<N(==,!new)>(path: seq<N>, node: N) returns (k: nat)
    requires node in path
    ensures k < |path| && path[k] == node && node !in path[..k]
  {
    k := 0;
    while path[k] != node
      invariant k < |path| && node !in path[..k]
      decreases |path| - k
    {
      k := k + 1;
    }
  }

  lemma SuffixIsSimpleCycle<N(!new)>(g: Graph<N>, path: seq<N>, start: nat, node: N)
    requires start < |path| && path[start] == node
    requires Distinct(path) && IsWalk(g, path) && Edge(g, path[|path| - 1], node)
    ensures IsSimpleCycle(g, path[start..] + [node])
  {
    var w := path[start..] + [node];
    forall i | 0 <= i < |w| - 1
      ensures StepsAlong(g, w, i)
    {
      if start + i + 1 < |path| {
        assert StepsAlong(g, path, start + i);
      }
    }
    assert w[..|w| - 1] == path[start..];
  }

  lemma ClosesIsMonotone<N(!new)>(before: seq<seq<N>>, after: seq<seq<N>>)
    requires before <= after
    ensures forall a, b :: Closes(before, a, b) ==> Closes(after, a, b)
  {
  }

  /** The position a finishing order gives to a node. */
  ghost function Position<N(!new)>(order: seq<N>, x: N): (k: nat)
    requires x in order
    ensures k < |order| && order[k] == x && x !in order[..k]
  {
    if order[0] == x then 0 else
    var k := 1 + Position(order[1..], x);
    assert order[..k] == [order[0]] + order[1..][..k - 1];
    k
  }

  /** With every node finished, a closed walk cannot avoid the reported closing edges: along
      unreported edges the finishing position falls at every step. */
  lemma CyclesAreCut<N(!new)>(g: Graph<N>, finished: seq<N>, reports: seq<seq<N>>, w: seq<N>)
    requires Ordered(g, finished, reports)
    requires forall a :: a in g ==> a in finished
    requires IsCycle(g, w)
    ensures IsCut(reports, w)
  {
    if !IsCut(reports, w) {
      PositionFalls(g, finished, reports, w, |w| - 1);
    }
  }

  lemma {:induction false} PositionFalls<N(!new)>(g: Graph<N>, finished: seq<N>, reports: seq<seq<N>>, w: seq<N>,
                                                  n: nat)
    requires Ordered(g, finished, reports)
    requires forall a :: a in g ==> a in finished
    requires IsWalk(g, w) && !IsCut(reports, w)
    requires 1 <= n < |w|
    ensures w[0] in finished && w[n] in finished
    ensures Position(finished, w[n]) < Position(finished, w[0])
  {
    var a, b := w[n - 1], w[n];
    assert StepsAlong(g, w, n - 1);
    var k := Position(finished, a);
    assert !IsCutAt(reports, w, n - 1);
    assert b in finished[..k];
    PositionWithin(finished, b, k);
    if n > 1 {
      PositionFalls(g, finished, reports, w, n - 1);
    }
  }

  lemma PositionWithin<N(!new)>(order: seq<N>, x: N, k: nat)
    requires k <= |order| && x in order[..k]
    ensures x in order && Position(order, x) < k
  {
  }

  lemma GraphOfPrefix(packages: seq<Package>, i: nat)
    requires i < |packages|
    ensures GraphOf(packages[..i + 1]) == GraphOf(packages[..i])[packages[i].name := packages[i].deps]
  {
    assert packages[..i + 1][..i] == packages[..i];
  }

  /** Every entry of the graph is the dependency list of a package of that name. */
  lemma {:induction false} GraphEntryIsPackage(packages: seq<Package>, name: string) returns (p: Package)
    requires name in GraphOf(packages)
    ensures p in packages && p.name == name && p.deps == GraphOf(packages)[name]
  {
    var n := |packages| - 1;
    p := packages[n];
    if p.name != name {
      p := GraphEntryIsPackage(packages[..n], name);
    }
  }

  /** Of the packages of one name the last gives the entry. */
  lemma {:induction false} GraphHoldsTheLast(packages: seq<Package>, name: string) returns (i: nat)
    requires name in GraphOf(packages)
    ensures i < |packages| && packages[i].name == name && GraphOf(packages)[name] == packages[i].deps
    ensures forall j :: i < j < |packages| ==> packages[j].name != name
  {
    i := |packages| - 1;
    if packages[i].name != name {
      i := GraphHoldsTheLast(packages[..i], name);
    }
  }

  /** Some package of name `a` comes before every package of name `b`. */
  ghost predicate AppearsBefore(packages: seq<Package>, a: string, b: string) {
    exists p :: 0 <= p < |packages| && packages[p].name == a && LacksName(packages[..p + 1], b)
  }

  ghost predicate LacksName(packages: seq<Package>, name: string) {
    forall q :: 0 <= q < |packages| ==> packages[q].name != name
  }

  /** The names appear in the packages in this order; so none is listed twice. */
  ghost predicate InInsertionOrder(packages: seq<Package>, keys: seq<string>) {
    forall i, j :: 0 <= i < j < |keys| ==> AppearsBefore(packages, keys[i], keys[j])
  }

  lemma {:induction false} GraphHoldsTheNames(packages: seq<Package>, name: string)
    ensures name in GraphOf(packages) <==> !LacksName(packages, name)
  {
    if packages != [] {
      var n := |packages| - 1;
      GraphHoldsTheNames(packages[..n], name);
      assert packages == packages[..n] + [packages[n]];
    }
  }

  /** A name the graph does not hold yet appears after all the names it holds. */
  lemma NewNameComesLast(packages: seq<Package>, i: nat, held: string, name: string)
    requires i <= |packages| && held in GraphOf(packages[..i]) && name !in GraphOf(packages[..i])
    ensures AppearsBefore(packages, held, name)
  {
    GraphHoldsTheNames(packages[..i], held);
    GraphHoldsTheNames(packages[..i], name);
    var p :| 0 <= p < i && packages[..i][p].name == held;
    assert packages[..p + 1] == packages[..i][..p + 1];
  }

  lemma InsertionOrderIsDistinct(packages: seq<Package>, keys: seq<string>)
    requires InInsertionOrder(packages, keys)
    ensures Distinct(keys)
  {
    forall i, j | 0 <= i < j < |keys|
      ensures keys[i] != keys[j]
    {
      assert AppearsBefore(packages, keys[i], keys[j]);
      var p :| 0 <= p < |packages| && packages[p].name == keys[i] && LacksName(packages[..p + 1], keys[j]);
      assert packages[..p + 1][p] == packages[p];
    }
  }

  /** The graph and its keys in insertion order, as the gate's `Map` holds them. */
  method BuildGraph(packages: seq<Package>) returns (g: Graph<string>, keys: seq<string>)
    ensures g == GraphOf(packages)
    ensures forall a :: a in keys <==> a in g
    ensures InInsertionOrder(packages, keys) && Distinct(keys)
  {
    g, keys := map[], [];
    for i := 0 to |packages|
      invariant g == GraphOf(packages[..i])
      invariant forall a :: a in keys <==> a in g
      invariant InInsertionOrder(packages, keys)
    {
      if packages[i].name !in g {
        forall j | 0 <= j < |keys|
          ensures AppearsBefore(packages, keys[j], packages[i].name)
        {
          NewNameComesLast(packages, i, keys[j], packages[i].name);
        }
        keys := keys + [packages[i].name];
      }
      GraphOfPrefix(packages, i);
      g := g[packages[i].name := packages[i].deps];
    }
    assert packages[..|packages|] == packages;
    InsertionOrderIsDistinct(packages, keys);
  }

  /** The whole check. What it pushes is sound and complete: each report is a simple cycle of the
      workspace graph, and no cycle of the graph avoids all the reported closing edges, so
      nothing is reported exactly when the graph has no cycle. */
  method CheckCircularDeps(packages: seq<Package>) returns (reports: seq<seq<string>>)
    ensures forall r :: r in reports ==> IsSimpleCycle(GraphOf(packages), r)
    ensures forall w :: IsCycle(GraphOf(packages), w) ==> IsCut(reports, w)
    ensures reports == [] <==> forall w :: !IsCycle(GraphOf(packages), w)
  {
    var g, keys := BuildGraph(packages);
    var search := new CycleSearch(g);
    for i := 0 to |keys|
      invariant search.graph == g && search.Valid([])
      invariant forall j :: 0 <= j < i ==> keys[j] in search.finished
    {
      search.Dfs(keys[i], []);
    }
    reports := search.reports;
    forall w | IsCycle(g, w)
      ensures IsCut(reports, w)
    {
      CyclesAreCut(g, search.finished, reports, w);
    }
    ReportsDecideCyclicity(g, reports);
  }

  lemma ReportsDecideCyclicity<N(!new)>(g: Graph<N>, reports: seq<seq<N>>)
    requires forall r :: r in reports ==> IsSimpleCycle(g, r)
    requires forall w :: IsCycle(g, w) ==> IsCut(reports, w)
    ensures reports == [] <==> forall w :: !IsCycle(g, w)
  {
    if reports != [] {
      assert reports[0] in reports;
    }
  }
}
