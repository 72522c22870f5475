/** The layer check of the dependency gate (scripts/check-deps.ts, check 3), and what its
  silence implies for the cycle search. */
module LayerOrder {
  import opened Options
  import opened DependencyGraph
  import Text

  type LayerTable = map<string, nat>

  /** The application tier: above every package layer. */
  const APP_LAYER: nat := 7

  const SDK := "@motebit/sdk"
  const PROTOCOL := "@motebit/protocol"
  const ARROW := "->"

  /** The registered package layers, layer by layer. */
  const LAYERS: seq<set<string>> := [
    {"@motebit/protocol", "@motebit/sdk", "@motebit/crypto", "@motebit/crypto-openpgp"},
    {"@motebit/verifier", "@motebit/state-export-client", "create-motebit", "@motebit/voice",
     "@motebit/encryption", "@motebit/gradient", "@motebit/event-log", "@motebit/policy", "@motebit/tools",
     "@motebit/semiring", "@motebit/policy-invariants", "@motebit/wallet-solana", "@motebit/circuit-breaker",
     "@motebit/runtime-host", "@motebit/sqlite-migrations", "@motebit/settlement-rails", "@motebit/evm-rpc",
     "@motebit/virtual-accounts", "@motebit/deposit-detector", "@motebit/treasury-reconciliation",
     "@motebit/self-knowledge", "@motebit/wire-schemas"},
    {"@motebit/crypto-android-keystore", "@motebit/crypto-appattest", "@motebit/crypto-tpm",
     "@motebit/crypto-webauthn", "@motebit/market", "@motebit/behavior-engine", "@motebit/state-vector",
     "@motebit/render-engine", "@motebit/memory-graph", "@motebit/core-identity", "@motebit/sync-engine",
     "@motebit/mcp-client", "@motebit/relay-client", "@motebit/identity-file", "@motebit/skills"},
    {"@motebit/verify", "@motebit/privacy-layer", "@motebit/ai-core", "@motebit/mcp-server",
     "@motebit/surface-kit"},
    {"@motebit/persistence", "@motebit/planner", "@motebit/reflection"},
    {"@motebit/runtime", "@motebit/browser-persistence", "@motebit/panels"},
    {"@motebit/molecule-runner"}
  ]

  const LAYER: LayerTable := TableOf(LAYERS)

  /** The table that registers each name of `layers[i]` at layer `i`. */
  function TableOf(layers: seq<set<string>>): (table: LayerTable)
    ensures forall name :: name in table ==> table[name] < |layers| && name in layers[table[name]]
    ensures forall i, name :: 0 <= i < |layers| && name in layers[i] ==> name in table
  {
    if layers == [] then map[] else
    var n := |layers| - 1;
    var lower := TableOf(layers[..n]);
    lower + map name | name in layers[n] :: n
  }

  ghost predicate BelowApps(table: LayerTable) {
    forall name :: name in table ==> table[name] < APP_LAYER
  }

  lemma RegisteredLayersAreBelowApps()
    ensures BelowApps(LAYER)
  {
  }

  // ----- The check -----

  predicate Includes(s: string, part: string) {
    Text.IndexOf(s, part, 0) != -1
  }

  /** Packages under these two directories are applications without being in the table. */
  predicate IsAppDir(dir: string) {
    Includes(dir, "/apps/") || Includes(dir, "/services/")
  }

  function EffectiveLayer(table: LayerTable, p: Package): Option<nat> {
    if p.name in table then Some(table[p.name])
    else if IsAppDir(p.dir) then Some(APP_LAYER)
    else None
  }

  /** The layer of every resolved package, by name; a later package overwrites an earlier one. */
  function LayerOfDep(table: LayerTable, packages: seq<Package>): map<string, nat> {
    if packages == [] then map[] else
    var last := packages[|packages| - 1];
    var rest := LayerOfDep(table, packages[..|packages| - 1]);
    match EffectiveLayer(table, last)
    case None => rest
    case Some(l) => rest[last.name := l]
  }

  datatype LayerViolation =
    | Unregistered(pkg: string)
    | ProductionDep(pkg: string, layer: nat, dep: string, depLayer: nat)
    | DevDep(pkg: string, layer: nat, dep: string, depLayer: nat)

  function Pair(pkg: string, dep: string): string {
    pkg + ARROW + dep
  }

  const SAME_LAYER_PROD_ALLOWED := {Pair(SDK, PROTOCOL)}
  const DEV_DEP_LAYER_ALLOWED := {Pair("create-motebit", "motebit")}

  /** A production dependency of a library must lie strictly lower, one same-layer pair excepted. */
  predicate ProductionInverted(pkg: string, layer: nat, dep: string, depLayer: nat) {
    && depLayer >= layer
    && layer != APP_LAYER
    && !(depLayer == layer && Pair(pkg, dep) in SAME_LAYER_PROD_ALLOWED)
  }

  /** A dev dependency of a library must not lie higher, one recorded pair excepted. */
  predicate DevInverted(pkg: string, layer: nat, dep: string, depLayer: nat) {
    && Pair(pkg, dep) !in DEV_DEP_LAYER_ALLOWED
    && depLayer > layer
    && layer != APP_LAYER
  }

  /** What it means for the package `p` to earn the violation `v`, given the resolved layers. */
  predicate Earns(table: LayerTable, layers: map<string, nat>, p: Package, v: LayerViolation) {
    && v.pkg == p.name
    && match v
       case Unregistered(_) =>
         EffectiveLayer(table, p).None?
       case ProductionDep(_, l, d, dl) =>
         && EffectiveLayer(table, p) == Some(l) && d in p.deps
         && d in layers && layers[d] == dl && ProductionInverted(p.name, l, d, dl)
       case DevDep(_, l, d, dl) =>
         && EffectiveLayer(table, p) == Some(l) && d in p.devDeps
         && d in layers && layers[d] == dl && DevInverted(p.name, l, d, dl)
  }

  method ResolveLayers(table: LayerTable, packages: seq<Package>) returns (layers: map<string, nat>)
    ensures layers == LayerOfDep(table, packages)
  {
    layers := map[];
    for i := 0 to |packages|
      invariant layers == LayerOfDep(table, packages[..i])
    {
      assert packages[..i + 1][..i] == packages[..i];
      var l := EffectiveLayer(table, packages[i]);
      if l.Some? {
        layers := layers[packages[i].name := l.value];
      }
    }
    assert packages[..|packages|] == packages;
  }

  method CheckPackage(table: LayerTable, layers: map<string, nat>, p: Package)
    returns (violations: seq<LayerViolation>)
    ensures forall v :: v in violations <==> Earns(table, layers, p, v)
  {
    violations := [];
    var effective := EffectiveLayer(table, p);
    if effective.None? {
      violations := [Unregistered(p.name)];
      return;
    }
    var l := effective.value;
    for i := 0 to |p.deps|
      invariant forall v :: v in violations <==>
        v.ProductionDep? && v.dep in p.deps[..i] && Earns(table, layers, p, v)
    {
      var d := p.deps[i];
      if d in layers && ProductionInverted(p.name, l, d, layers[d]) {
        violations := violations + [ProductionDep(p.name, l, d, layers[d])];
      }
    }
    for i := 0 to |p.devDeps|
      invariant forall v :: v in violations <==>
        Earns(table, layers, p, v) && (v.ProductionDep? || (v.DevDep? && v.dep in p.devDeps[..i]))
    {
      var d := p.devDeps[i];
      if d in layers && DevInverted(p.name, l, d, layers[d]) {
        violations := violations + [DevDep(p.name, l, d, layers[d])];
      }
    }
  }

  /** The whole check reports exactly what some package earns. */
  method CheckLayerOrdering(table: LayerTable, packages: seq<Package>) returns (violations: seq<LayerViolation>)
    ensures forall v :: v in violations <==>
      exists i :: 0 <= i < |packages| && Earns(table, LayerOfDep(table, packages), packages[i], v)
    ensures violations == [] <==> LayerClean(table, packages)
  {
    var layers := ResolveLayers(table, packages);
    violations := [];
    for i := 0 to |packages|
      invariant forall v :: v in violations <==>
        exists j :: 0 <= j < i && Earns(table, layers, packages[j], v)
    {
      var more := CheckPackage(table, layers, packages[i]);
      violations := violations + more;
    }
    if violations == [] {
      forall i, v | 0 <= i < |packages|
        ensures !Earns(table, layers, packages[i], v)
      {
        assert v !in violations;
      }
    } else {
      assert violations[0] in violations;
    }
  }

  // ----- What silence implies -----

  ghost predicate LayerClean(table: LayerTable, packages: seq<Package>) {
    forall i, v :: 0 <= i < |packages| ==> !Earns(table, LayerOfDep(table, packages), packages[i], v)
  }

  /** The layer a name has by the table alone. */
  function LayerOfName(table: LayerTable, name: string): nat {
    if name in table then table[name] else APP_LAYER
  }

  /** A measure that falls along the permitted same-layer edge too. */
  function Rank(table: LayerTable, name: string): nat {
    2 * LayerOfName(table, name) + if name == SDK then 1 else 0
  }

  predicate IsLibrary(table: LayerTable, name: string) {
    LayerOfName(table, name) < APP_LAYER
  }

  lemma PairIsInjective(a: string, b: string, c: string, d: string)
    requires Pair(a, b) == Pair(c, d)
    requires '>' !in c && '>' !in d
    ensures a == c && b == d
  {
    var s := Pair(c, d);
    assert s[|a| + 1] == '>' by {
      assert s == Pair(a, b);
    }
    assert forall k :: 0 <= k < |s| && s[k] == '>' ==> k == |c| + 1;
    assert a == s[..|a|] && c == s[..|c|];
    assert b == s[|a| + 2..] && d == s[|c| + 2..];
  }

  /** With every package registered, resolving by directory and resolving by name agree. */
  lemma {:induction false} ResolvedLayers(table: LayerTable, packages: seq<Package>)
    requires forall p :: p in packages ==> EffectiveLayer(table, p).Some?
    ensures LayerOfDep(table, packages).Keys == GraphOf(packages).Keys
    ensures forall name :: name in LayerOfDep(table, packages) ==>
      LayerOfDep(table, packages)[name] == LayerOfName(table, name)
  {
    if packages != [] {
      var n := |packages| - 1;
      assert packages[n] in packages;
      ResolvedLayers(table, packages[..n]);
    }
  }

  /** A name resolves exactly when some package of that name is registered or an application. */
  lemma {:induction false} ResolvingIsExact(table: LayerTable, packages: seq<Package>, name: string)
    ensures name in LayerOfDep(table, packages) <==>
      exists i :: 0 <= i < |packages| && packages[i].name == name && (name in table || IsAppDir(packages[i].dir))
    ensures name in LayerOfDep(table, packages) ==> LayerOfDep(table, packages)[name] == LayerOfName(table, name)
  {
    hide IsAppDir;
    if packages != [] {
      var n := |packages| - 1;
      ResolvingIsExact(table, packages[..n], name);
      assert forall i :: 0 <= i < n ==> packages[..n][i] == packages[i];
    }
  }

  /** Some package of the workspace has this name. */
  ghost predicate IsInWorkspace(packages: seq<Package>, name: string) {
    exists i :: 0 <= i < |packages| && packages[i].name == name
  }

  /** A production dependency may lie strictly lower; the sdk may depend on the protocol beside it. */
  ghost predicate MayDependOn(table: LayerTable, pkg: string, dep: string) {
    var l, dl := LayerOfName(table, pkg), LayerOfName(table, dep);
    l == APP_LAYER || dl < l || (dl == l && pkg == "@motebit/sdk" && dep == "@motebit/protocol")
  }

  /** A dev dependency may lie lower or beside; the scaffolder may use the CLI. */
  ghost predicate MayDevDependOn(table: LayerTable, pkg: string, dep: string) {
    var l, dl := LayerOfName(table, pkg), LayerOfName(table, dep);
    l == APP_LAYER || dl <= l || (pkg == "create-motebit" && dep == "motebit")
  }

  /** The package has a layer, and each dependency of it that is in the workspace is allowed. */
  ghost predicate IsPackageClean(table: LayerTable, packages: seq<Package>, p: Package) {
    && (p.name in table || IsAppDir(p.dir))
    && (forall d :: d in p.deps && IsInWorkspace(packages, d) ==> MayDependOn(table, p.name, d))
    && (forall d :: d in p.devDeps && IsInWorkspace(packages, d) ==> MayDevDependOn(table, p.name, d))
  }

  lemma ExceptionsAreOnePair(pkg: string, dep: string)
    ensures Pair(pkg, dep) in SAME_LAYER_PROD_ALLOWED <==> pkg == "@motebit/sdk" && dep == "@motebit/protocol"
    ensures Pair(pkg, dep) in DEV_DEP_LAYER_ALLOWED <==> pkg == "create-motebit" && dep == "motebit"
  {
    if Pair(pkg, dep) == Pair(SDK, PROTOCOL) {
      PairIsInjective(pkg, dep, SDK, PROTOCOL);
    }
    if Pair(pkg, dep) == Pair("create-motebit", "motebit") {
      PairIsInjective(pkg, dep, "create-motebit", "motebit");
    }
  }

  /** A package earns nothing exactly when it is clean, once the layers are resolved by name. */
  lemma EarnsNothingWhenClean(table: LayerTable, packages: seq<Package>, layers: map<string, nat>, p: Package)
    requires forall d :: d in layers <==> IsInWorkspace(packages, d)
    requires forall d :: d in layers ==> layers[d] == LayerOfName(table, d)
    ensures (forall v :: !Earns(table, layers, p, v)) <==> IsPackageClean(table, packages, p)
  {
    hide IsAppDir, IsInWorkspace, Pair;
    var l := LayerOfName(table, p.name);
    forall d
      ensures ProductionInverted(p.name, l, d, LayerOfName(table, d)) <==> !MayDependOn(table, p.name, d)
      ensures DevInverted(p.name, l, d, LayerOfName(table, d)) <==> !MayDevDependOn(table, p.name, d)
    {
      ExceptionsAreOnePair(p.name, d);
    }
    if forall v :: !Earns(table, layers, p, v) {
      assert !Earns(table, layers, p, Unregistered(p.name));
      forall d | d in p.deps && IsInWorkspace(packages, d)
        ensures MayDependOn(table, p.name, d)
      {
        assert !Earns(table, layers, p, ProductionDep(p.name, l, d, layers[d]));
      }
      forall d | d in p.devDeps && IsInWorkspace(packages, d)
        ensures MayDevDependOn(table, p.name, d)
      {
        assert !Earns(table, layers, p, DevDep(p.name, l, d, layers[d]));
      }
    }
  }

  lemma WorkspaceNames(packages: seq<Package>, name: string)
    ensures IsInWorkspace(packages, name) <==> name in GraphOf(packages)
  {
    GraphHoldsTheNames(packages, name);
  }

  /** What silence means, for production and dev dependencies, and that a workspace whose edges are
      all allowed is silent. */
  lemma SilenceIsExact(table: LayerTable, packages: seq<Package>)
    ensures LayerClean(table, packages) <==>
      forall i :: 0 <= i < |packages| ==> IsPackageClean(table, packages, packages[i])
  {
    hide Earns, IsPackageClean, IsAppDir, GraphOf, LayerOfDep, IsInWorkspace;
    var layers := LayerOfDep(table, packages);
    if forall p :: p in packages ==> EffectiveLayer(table, p).Some? {
      ResolvedLayers(table, packages);
      forall d: string
        ensures d in layers <==> IsInWorkspace(packages, d)
      {
        WorkspaceNames(packages, d);
      }
      forall i | 0 <= i < |packages|
        ensures (forall v :: !Earns(table, layers, packages[i], v)) <==> IsPackageClean(table, packages, packages[i])
      {
        EarnsNothingWhenClean(table, packages, layers, packages[i]);
      }
    } else {
      var p :| p in packages && EffectiveLayer(table, p).None?;
      var i :| 0 <= i < |packages| && packages[i] == p;
      UnregisteredIsNotClean(table, packages, p);
      assert Earns(table, layers, packages[i], Unregistered(p.name));
    }
  }

  lemma UnregisteredIsNotClean(table: LayerTable, packages: seq<Package>, p: Package)
    requires EffectiveLayer(table, p).None?
    ensures !IsPackageClean(table, packages, p)
    ensures Earns(table, LayerOfDep(table, packages), p, Unregistered(p.name))
  {
  }

  /** In a clean workspace every edge out of a library lowers the rank and stays among libraries. */
  lemma EdgeLowersRank(table: LayerTable, packages: seq<Package>, a: string, b: string)
    requires LayerClean(table, packages)
    requires Edge(GraphOf(packages), a, b) && IsLibrary(table, a)
    ensures IsLibrary(table, b) && Rank(table, b) < Rank(table, a)
  {
    var layers := LayerOfDep(table, packages);
    forall p | p in packages
      ensures EffectiveLayer(table, p).Some?
    {
      var i :| 0 <= i < |packages| && packages[i] == p;
      assert !Earns(table, layers, packages[i], Unregistered(p.name));
    }
    ResolvedLayers(table, packages);
    var p := GraphEntryIsPackage(packages, a);
    var i :| 0 <= i < |packages| && packages[i] == p;
    var l := EffectiveLayer(table, p).value;
    assert l == LayerOfName(table, a);
    assert !Earns(table, layers, packages[i], ProductionDep(a, l, b, layers[b]));
    if layers[b] >= l {
      assert Pair(a, b) == Pair(SDK, PROTOCOL);
      assert SDK != PROTOCOL by {
        assert SDK[9] != PROTOCOL[9];
      }
      PairIsInjective(a, b, SDK, PROTOCOL);
    }
  }

  /** No chain of production dependencies leads from a library to an application, and the rank
      falls strictly along every such chain. */
  lemma {:induction false} LibrariesReachOnlyLibraries(table: LayerTable, packages: seq<Package>, w: seq<string>)
    requires LayerClean(table, packages)
    requires w != [] && IsWalk(GraphOf(packages), w) && IsLibrary(table, w[0])
    ensures forall i :: 0 <= i < |w| ==> IsLibrary(table, w[i])
    ensures forall i :: 0 < i < |w| ==> Rank(table, w[i]) < Rank(table, w[0])
  {
    var n := |w| - 1;
    if n > 0 {
      var shorter := w[..n];
      forall i | 0 <= i < |shorter| - 1
        ensures StepsAlong(GraphOf(packages), shorter, i)
      {
        assert StepsAlong(GraphOf(packages), w, i);
      }
      LibrariesReachOnlyLibraries(table, packages, shorter);
      assert shorter[n - 1] == w[n - 1];
      assert StepsAlong(GraphOf(packages), w, n - 1);
      EdgeLowersRank(table, packages, w[n - 1], w[n]);
    }
  }

  /** A clean workspace has no cycle through a library. */
  lemma CyclesAreAllApplications(table: LayerTable, packages: seq<Package>, w: seq<string>)
    requires LayerClean(table, packages)
    requires IsCycle(GraphOf(packages), w)
    ensures forall i :: 0 <= i < |w| ==> !IsLibrary(table, w[i])
  {
    forall i | 0 <= i < |w|
      ensures !IsLibrary(table, w[i])
    {
      if IsLibrary(table, w[i]) {
        var turned := Rotated(GraphOf(packages), w, i);
        LibrariesReachOnlyLibraries(table, packages, turned);
      }
    }
  }

  /** A cycle may be started at any of its nodes. */
  lemma Rotated<N(!new)>(g: Graph<N>, w: seq<N>, i: nat) returns (turned: seq<N>)
    requires IsCycle(g, w) && i < |w|
    ensures IsCycle(g, turned) && turned[0] == w[i]
  {
    turned := w[i..] + w[1..i + 1];
    forall k | 0 <= k < |turned| - 1
      ensures StepsAlong(g, turned, k)
    {
      assert StepsAlong(g, w, if i + k < |w| - 1 then i + k else i + k - (|w| - 1));
    }
  }

  /** Both checks together, with the registered table: when the layer check is silent, every
      reported cycle runs through applications only. */
  method CheckCyclesAndLayers(packages: seq<Package>)
    returns (cycles: seq<seq<string>>, violations: seq<LayerViolation>)
    ensures cycles == [] <==> forall w :: !IsCycle(GraphOf(packages), w)
    ensures violations == [] <==> LayerClean(LAYER, packages)
    ensures violations == [] ==>
      forall r, name :: r in cycles && name in r ==> name !in LAYER
  {
    cycles := CheckCircularDeps(packages);
    violations := CheckLayerOrdering(LAYER, packages);
    if violations == [] {
      RegisteredLayersAreBelowApps();
      forall r, name | r in cycles && name in r
        ensures name !in LAYER
      {
        CyclesAreAllApplications(LAYER, packages, r);
      }
    }
  }

  // ----- Why the application tier must top the table -----

  lemma {:induction false} FreshName(used: set<string>) returns (name: string)
    ensures |name| > 0 && name !in used
    ensures forall u :: u in used ==> |u| < |name|
  {
    if used == {} {
      name := "x";
    } else {
      var u :| u in used;
      var rest := FreshName(used - {u});
      name := rest + u;
      assert forall v :: v in used ==> v == u || v in used - {u};
    }
  }

  /** A table entry at or above the application tier escapes the check: some workspace passes it
      with that package on a cycle. With `CyclesAreAllApplications` this makes the condition exact:
      silence keeps registered packages off cycles if and only if the whole table is below the tier. */
  lemma TableMustStayBelowApps(table: LayerTable, name: string) returns (packages: seq<Package>, w: seq<string>)
    requires name in table && table[name] >= APP_LAYER
    ensures LayerClean(table, packages)
    ensures IsCycle(GraphOf(packages), w) && name in w
  {
    var app := FreshName(table.Keys);
    var lib := Package(name, "", [app], []);
    var top := Package(app, "/apps/", [name], []);
    packages, w := [lib, top], [name, app, name];
    assert Text.OccursAt(top.dir, "/apps/", 0);
    assert packages[..1] == [lib] && [lib][..0] == [];
    var g := GraphOf(packages);
    assert GraphOf([lib]) == map[name := [app]];
    assert g == map[name := [app], app := [name]];
    assert StepsAlong(g, w, 0) && StepsAlong(g, w, 1);
    assert LayerOfDep(table, [lib]) == map[name := table[name]];
    var layers := LayerOfDep(table, packages);
    assert layers == map[name := table[name], app := APP_LAYER];
  }

  lemma SilenceIsExactlyAsStrongAsTheTable(table: LayerTable)
    ensures BelowApps(table) <==>
      forall packages, w, name :: LayerClean(table, packages) && IsCycle(GraphOf(packages), w) && name in w ==>
        name !in table
  {
    if BelowApps(table) {
      forall packages, w, name | LayerClean(table, packages) && IsCycle(GraphOf(packages), w) && name in w
        ensures name !in table
      {
        CyclesAreAllApplications(table, packages, w);
      }
    } else {
      var name :| name in table && table[name] >= APP_LAYER;
      var packages, w := TableMustStayBelowApps(table, name);
    }
  }
}
