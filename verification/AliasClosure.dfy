/** The credit-caller scan (scripts/check-credit-caller-allowlist.ts): which local names are bound
  to a credit function, and which places of a file use one.

  The syntax tree keeps the node kinds the rules inspect; every other kind is `Other`. */
module AliasClosure {
  import opened Options

  datatype Node =
    | Ident(text: string)
    | Literal(text: string)                              // string literal or plain template
    | Property(base: Node, member: string)             // x.member
    | Element(base: Node, index: Node)                 // x[index]
    | Call(callee: Node, args: seq<Node>)
    | Paren(inner: Node)
    | AsType(inner: Node)
    | NonNull(inner: Node)
    | Assign(left: Node, right: Node)                    // left = right
    | VarDecl(name: Node, init: Option<Node>)
    | ObjectPattern(elements: seq<Node>)
    | BindingElement(propertyName: Option<Node>, name: Node, default: Option<Node>)
    | ImportSpec(imported: Option<string>, local: string)    // import { imported as local }
    | ExportSpec(source: Option<string>, exported: string)   // export { source as exported }
    | ArrayLit(elements: seq<Node>)
    | Shorthand(name: Node)                              // { name }
    | PropertyAssign(key: Node, content: Node)           // { key: content }
    | Return(values: seq<Node>)                          // return, return e
    | Other(children: seq<Node>)

  /** A child and whether its position lets a value escape: a call argument, an array or object
      element, a returned expression. */
  datatype Child = Child(node: Node, escapes: bool)

  function Plain(nodes: seq<Node>, escapes: bool): (cs: seq<Child>)
    ensures |cs| == |nodes| && forall i :: 0 <= i < |cs| ==> cs[i] == Child(nodes[i], escapes)
  {
    seq(|nodes|, i requires 0 <= i < |nodes| => Child(nodes[i], escapes))
  }

  function Maybe(o: Option<Node>): seq<Child> {
    if o.Some? then [Child(o.value, false)] else []
  }

  /** The children in source order, as `ts.forEachChild` visits them. */
  function Children(n: Node): (cs: seq<Child>)
    ensures forall i :: 0 <= i < |cs| ==> cs[i].node < n
  {
    match n
    case Ident(_) => []
    case Literal(_) => []
    case Property(o, _) => [Child(o, false)]
    case Element(o, i) => [Child(o, false), Child(i, false)]
    case Call(c, args) => [Child(c, false)] + Plain(args, true)
    case Paren(e) => [Child(e, false)]
    case AsType(e) => [Child(e, false)]
    case NonNull(e) => [Child(e, false)]
    case Assign(l, r) => [Child(l, false), Child(r, false)]
    case VarDecl(name, init) => [Child(name, false)] + Maybe(init)
    case ObjectPattern(es) => Plain(es, false)
    case BindingElement(p, name, d) => Maybe(p) + [Child(name, false)] + Maybe(d)
    case ImportSpec(_, _) => []
    case ExportSpec(_, _) => []
    case ArrayLit(es) => Plain(es, true)
    case Shorthand(name) => [Child(name, true)]
    case PropertyAssign(k, e) => [Child(k, false), Child(e, true)]
    case Return(es) => Plain(es, true)
    case Other(es) => Plain(es, false)
  }

  // ----- The rules -----

  const CREDIT_NAMES := {"creditAccount", "credit"}

  function MemberName(e: Node): Option<string> {
    match e
    case Property(_, m) => Some(m)
    case Element(_, Literal(t)) => Some(t)
    case _ => None
  }

  /** The expression stands for a credit function. It may name one, reach one as a member (plain or
      by a string index), use a known alias, or wrap any of these in parentheses, `as`, `!`, `bind`,
      `call` or `apply`. */
  predicate IsCreditRef(e: Node, aliases: set<string>) {
    match e
    case Paren(x) => IsCreditRef(x, aliases)
    case AsType(x) => IsCreditRef(x, aliases)
    case NonNull(x) => IsCreditRef(x, aliases)
    case Ident(t) => t == "creditAccount" || t in aliases
    case Property(o, m) => IsCreditMember(m) || (IsKeeper(m) && IsCreditRef(o, aliases))
    case Element(o, Literal(m)) => IsCreditMember(m) || (IsKeeper(m) && IsCreditRef(o, aliases))
    case Call(Property(o, m), _) => m == "bind" && IsCreditRef(o, aliases)
    case Call(Element(o, Literal(m)), _) => m == "bind" && IsCreditRef(o, aliases)
    case _ => false
  }

  predicate IsCreditMember(m: string) {
    m in CREDIT_NAMES
  }

  /** `f.bind`, `f.call` and `f.apply` keep the function `f`. */
  predicate IsKeeper(m: string) {
    m == "bind" || m == "call" || m == "apply"
  }

  /** The names a destructuring binds to a credit member. */
  function CreditElements(es: seq<Node>): set<string> {
    set i | 0 <= i < |es| && BindsCreditMember(es[i]) :: es[i].name.text
  }

  predicate BindsCreditMember(el: Node) {
    && el.BindingElement? && el.name.Ident?
    && var key := if el.propertyName.Some? then el.propertyName.value else el.name;
       key.Ident? && key.text in CREDIT_NAMES
  }

  /** The names node `n` itself binds to a credit function, given the aliases known so far: a renamed
      import, a declaration, a destructuring (plain or renamed), an assignment. */
  function Binds(n: Node, aliases: set<string>): set<string> {
    match n
    case ImportSpec(Some(imported), local) => if imported in CREDIT_NAMES then {local} else {}
    case VarDecl(Ident(name), Some(e)) => if IsCreditRef(e, aliases) then {name} else {}
    case VarDecl(ObjectPattern(es), Some(_)) => CreditElements(es)
    case Assign(Ident(name), e) => if IsCreditRef(e, aliases) then {name} else {}
    case _ => {}
  }

  // ----- The least set of aliases -----

  /** The nodes of the tree in the order a walk visits them, each with its position. */
  function Walk(c: Child): (ws: seq<Child>)
    ensures ws != [] && ws[0] == c
    decreases c.node, 1
  {
    [c] + WalkAll(c.node, Children(c.node))
  }

  function WalkAll(n: Node, cs: seq<Child>): seq<Child>
    requires forall i :: 0 <= i < |cs| ==> cs[i].node < n
    decreases n, 0, |cs|
  {
    if cs == [] then [] else
    var k := |cs| - 1;
    WalkAll(n, cs[..k]) + Walk(cs[k])
  }

  ghost function NodesIn(ws: seq<Child>): set<Node> {
    set c | c in ws :: c.node
  }

  /** The nodes of a file. */
  ghost function NodesOf(file: Node): set<Node> {
    NodesIn(Walk(Child(file, false)))
  }

  /** No node of `nodes` binds a name outside `aliases`. */
  ghost predicate IsClosed(nodes: set<Node>, aliases: set<string>) {
    forall n :: n in nodes ==> Binds(n, aliases) <= aliases
  }

  /** `aliases` is closed and inside every closed set. */
  ghost predicate IsLeastClosed(nodes: set<Node>, aliases: set<string>) {
    IsClosed(nodes, aliases) && forall other :: IsClosed(nodes, other) ==> aliases <= other
  }

  lemma CreditRefIsMonotone(e: Node, a: set<string>, b: set<string>)
    requires a <= b && IsCreditRef(e, a)
    ensures IsCreditRef(e, b)
  {
  }

  lemma BindsIsMonotone(n: Node, a: set<string>, b: set<string>)
    requires a <= b
    ensures Binds(n, a) <= Binds(n, b)
  {
    match n
    case VarDecl(Ident(_), Some(e)) => if IsCreditRef(e, a) { CreditRefIsMonotone(e, a, b); }
    case Assign(Ident(_), e) => if IsCreditRef(e, a) { CreditRefIsMonotone(e, a, b); }
    case _ =>
  }

  // ----- One walk -----

  /** The aliases after one walk over `ws`: the set grows while the walk goes on. */
  function Scan(ws: seq<Child>, aliases: set<string>): set<string> {
    if ws == [] then aliases else
    var k := |ws| - 1;
    var before := Scan(ws[..k], aliases);
    before + Binds(ws[k].node, before)
  }

  lemma {:induction false} ScanOfConcat(xs: seq<Child>, ys: seq<Child>, aliases: set<string>)
    ensures Scan(xs + ys, aliases) == Scan(ys, Scan(xs, aliases))
  {
    if ys == [] {
      assert xs + ys == xs;
    } else {
      var k := |ys| - 1;
      assert (xs + ys)[..|xs + ys| - 1] == xs + ys[..k];
      ScanOfConcat(xs, ys[..k], aliases);
    }
  }

  lemma {:induction false} ScanGrows(ws: seq<Child>, aliases: set<string>)
    ensures aliases <= Scan(ws, aliases)
  {
    if ws != [] {
      ScanGrows(ws[..|ws| - 1], aliases);
    }
  }

  /** A walk never leaves a closed set it starts in. */
  lemma {:induction false} ScanStaysInside(ws: seq<Child>, aliases: set<string>, closed: set<string>)
    requires aliases <= closed && IsClosed(NodesIn(ws), closed)
    ensures Scan(ws, aliases) <= closed
  {
    if ws != [] {
      var k := |ws| - 1;
      assert forall c :: c in ws[..k] ==> c in ws;
      ScanStaysInside(ws[..k], aliases, closed);
      assert ws[k] in ws && ws[k].node in NodesIn(ws);
      BindsIsMonotone(ws[k].node, Scan(ws[..k], aliases), closed);
    }
  }

  /** A walk that adds nothing has found a closed set. */
  lemma {:induction false} QuietScanIsClosed(ws: seq<Child>, aliases: set<string>)
    requires Scan(ws, aliases) == aliases
    ensures IsClosed(NodesIn(ws), aliases)
  {
    if ws != [] {
      var k := |ws| - 1;
      ScanGrows(ws[..k], aliases);
      QuietScanIsClosed(ws[..k], aliases);
      forall n | n in NodesIn(ws)
        ensures Binds(n, aliases) <= aliases
      {
        var c :| c in ws && c.node == n;
        assert c in ws[..k] || c == ws[k];
        assert c in ws[..k] ==> n in NodesIn(ws[..k]);
      }
    }
  }

  /** Every name a walk can ever add. */
  ghost function Candidates(ws: seq<Child>): set<string> {
    if ws == [] then {} else Candidates(ws[..|ws| - 1]) + MayBind(ws[|ws| - 1].node)
  }

  function MayBind(n: Node): set<string> {
    match n
    case ImportSpec(_, local) => {local}
    case VarDecl(Ident(name), _) => {name}
    case VarDecl(ObjectPattern(es), _) => CreditElements(es)
    case Assign(Ident(name), _) => {name}
    case _ => {}
  }

  lemma {:induction false} ScanIsBounded(ws: seq<Child>, aliases: set<string>)
    ensures Scan(ws, aliases) <= aliases + Candidates(ws)
  {
    if ws != [] {
      ScanIsBounded(ws[..|ws| - 1], aliases);
    }
  }

  // ----- The collector -----

  /** The closure variables of `collectAliases`. */
  class Collector {
    var aliases: set<string>
    var grew: bool

    constructor ()
      ensures aliases == {} && grew
    {
      aliases, grew := {}, true;
    }

    method Add(name: string)
      modifies this
      ensures aliases == old(aliases) + {name}
      ensures grew == (old(grew) || aliases != old(aliases))
    {
      if name !in aliases {
        aliases := aliases + {name};
        grew := true;
      }
    }

    method VisitPattern(es: seq<Node>)
      modifies this
      ensures aliases == old(aliases) + CreditElements(es)
      ensures grew == (old(grew) || aliases != old(aliases))
    {
      for i := 0 to |es|
        invariant aliases == old(aliases) + CreditElements(es[..i])
        invariant grew == (old(grew) || aliases != old(aliases))
      {
        if BindsCreditMember(es[i]) {
          Add(es[i].name.text);
        }
        CreditElementsOfPrefix(es, i);
      }
      assert es[..|es|] == es;
    }

    /** The rules at one node. */
    method VisitNode(n: Node)
      modifies this
      ensures aliases == old(aliases) + Binds(n, old(aliases))
      ensures grew == (old(grew) || aliases != old(aliases))
    {
      if n.ImportSpec? && n.imported.Some? && n.imported.value in CREDIT_NAMES {
        Add(n.local);
      }
      if n.VarDecl? && n.init.Some? {
        if n.name.Ident? && IsCreditRef(n.init.value, aliases) {
          Add(n.name.text);
        }
        if n.name.ObjectPattern? {
          VisitPattern(n.name.elements);
        }
      }
      if n.Assign? && n.left.Ident? && IsCreditRef(n.right, aliases) {
        Add(n.left.text);
      }
    }

    method Visit(c: Child)
      modifies this
      ensures aliases == Scan(Walk(c), old(aliases))
      ensures grew == (old(grew) || aliases != old(aliases))
      decreases c.node, 1
    {
      VisitNode(c.node);
      ghost var start := aliases;
      assert start == Scan([c], old(aliases)) by {
        assert [c][..0] == [];
      }
      ScanGrows(WalkAll(c.node, Children(c.node)), start);
      VisitChildren(c.node, Children(c.node));
      ScanOfConcat([c], WalkAll(c.node, Children(c.node)), old(aliases));
    }

    method VisitChildren(n: Node, cs: seq<Child>)
      requires forall i :: 0 <= i < |cs| ==> cs[i].node < n
      modifies this
      ensures aliases == Scan(WalkAll(n, cs), old(aliases))
      ensures grew == (old(grew) || aliases != old(aliases))
      decreases n, 0
    {
      for i := 0 to |cs|
        invariant aliases == Scan(WalkAll(n, cs[..i]), old(aliases))
        invariant old(aliases) <= aliases
        invariant grew == (old(grew) || aliases != old(aliases))
      {
        assert cs[..i + 1][..i] == cs[..i];
        ScanOfConcat(WalkAll(n, cs[..i]), Walk(cs[i]), old(aliases));
        ScanGrows(Walk(cs[i]), aliases);
        Visit(cs[i]);
      }
      assert cs[..|cs|] == cs;
    }
  }

  lemma CreditElementsOfPrefix(es: seq<Node>, i: nat)
    requires i < |es|
    ensures CreditElements(es[..i + 1]) ==
      CreditElements(es[..i]) + if BindsCreditMember(es[i]) then {es[i].name.text} else {}
  {
  }

  /** Walk until a walk adds nothing: the result is the least closed set. */
  method CollectAliases(file: Node) returns (aliases: set<string>)
    ensures IsLeastClosed(NodesOf(file), aliases)
  {
    var collector := new Collector();
    ghost var ws := Walk(Child(file, false));
    ghost var nodes := NodesIn(ws);
    while collector.grew
      invariant collector.aliases <= Candidates(ws)
      invariant forall other :: IsClosed(nodes, other) ==> collector.aliases <= other
      invariant !collector.grew ==> IsClosed(nodes, collector.aliases)
      decreases Candidates(ws) - collector.aliases, collector.grew
    {
      ghost var before := collector.aliases;
      collector.grew := false;
      collector.Visit(Child(file, false));
      ScanGrows(ws, before);
      ScanIsBounded(ws, before);
      forall other | IsClosed(nodes, other)
        ensures collector.aliases <= other
      {
        ScanStaysInside(ws, before, other);
      }
      if !collector.grew {
        QuietScanIsClosed(ws, before);
      }
    }
    aliases := collector.aliases;
  }

  // ----- Aliases are exactly the ends of binding chains -----

  /** A node of the file binds `name` to a credit function, given that `from` is one. */
  ghost predicate BindsFrom(nodes: set<Node>, from: set<string>, name: string) {
    exists n :: n in nodes && name in Binds(n, from)
  }

  ghost predicate LinkAt(nodes: set<Node>, chain: seq<string>, i: nat)
    requires i < |chain|
  {
    BindsFrom(nodes, if i == 0 then {} else {chain[i - 1]}, chain[i])
  }

  /** The first name is bound to a credit function outright, each later one through the name before it. */
  ghost predicate IsChain(nodes: set<Node>, chain: seq<string>) {
    chain != [] && forall i :: 0 <= i < |chain| ==> LinkAt(nodes, chain, i)
  }

  lemma {:induction false} ChainIsAliased(nodes: set<Node>, aliases: set<string>, chain: seq<string>, i: nat)
    requires IsClosed(nodes, aliases) && IsChain(nodes, chain) && i < |chain|
    ensures chain[i] in aliases
  {
    var from := if i == 0 then {} else {chain[i - 1]};
    if i > 0 {
      ChainIsAliased(nodes, aliases, chain, i - 1);
    }
    assert LinkAt(nodes, chain, i);
    var n :| n in nodes && chain[i] in Binds(n, from);
    BindsIsMonotone(n, from, aliases);
  }

  /** A reference owes itself to at most one alias. */
  lemma CreditRefNeedsOneName(e: Node, aliases: set<string>)
    requires IsCreditRef(e, aliases)
    ensures IsCreditRef(e, {}) || exists a :: a in aliases && IsCreditRef(e, {a})
  {
  }

  lemma BindsNeedsOneName(n: Node, aliases: set<string>, name: string)
    requires name in Binds(n, aliases)
    ensures name in Binds(n, {}) || exists a :: a in aliases && name in Binds(n, {a})
  {
    match n
    case VarDecl(Ident(_), Some(e)) => CreditRefNeedsOneName(e, aliases);
    case Assign(Ident(_), e) => CreditRefNeedsOneName(e, aliases);
    case _ =>
  }

  ghost predicate EndsAChain(nodes: set<Node>, name: string) {
    exists chain :: IsChain(nodes, chain) && chain[|chain| - 1] == name
  }

  lemma ChainExtends(nodes: set<Node>, chain: seq<string>, n: Node, name: string)
    requires IsChain(nodes, chain) && n in nodes && name in Binds(n, {chain[|chain| - 1]})
    ensures EndsAChain(nodes, name)
  {
    var longer := chain + [name];
    forall i | 0 <= i < |longer|
      ensures LinkAt(nodes, longer, i)
    {
      if i < |chain| {
        assert LinkAt(nodes, chain, i);
      }
    }
    assert IsChain(nodes, longer) && longer[|longer| - 1] == name;
  }

  /** The least closed set holds a name exactly when some chain of bindings, of any length, ends in it. */
  lemma AliasesAreChainEnds(nodes: set<Node>, aliases: set<string>, name: string)
    requires IsLeastClosed(nodes, aliases)
    ensures name in aliases <==> EndsAChain(nodes, name)
  {
    if EndsAChain(nodes, name) {
      var chain :| IsChain(nodes, chain) && chain[|chain| - 1] == name;
      ChainIsAliased(nodes, aliases, chain, |chain| - 1);
    }
    var derived := set a | a in aliases && EndsAChain(nodes, a);
    forall n, a | n in nodes && a in Binds(n, derived)
      ensures a in derived
    {
      BindsIsMonotone(n, derived, aliases);
      BindsNeedsOneName(n, derived, a);
      if a in Binds(n, {}) {
        assert LinkAt(nodes, [a], 0);
        assert IsChain(nodes, [a]);
      } else {
        var b :| b in derived && a in Binds(n, {b});
        var chain :| IsChain(nodes, chain) && chain[|chain| - 1] == b;
        ChainExtends(nodes, chain, n, a);
      }
    }
    assert IsClosed(nodes, derived);
  }

  // ----- Only the binding nodes matter -----

  /** The least closed set is one, and depends only on the nodes that bind something. */
  lemma LeastClosedIsUnique(xs: set<Node>, ys: set<Node>, a: set<string>, b: set<string>)
    requires IsLeastClosed(xs, a) && IsLeastClosed(ys, b)
    requires forall n :: MayBind(n) != {} ==> (n in xs <==> n in ys)
    ensures a == b
  {
    assert IsClosed(ys, a) by {
      forall n | n in ys
        ensures Binds(n, a) <= a
      {
        assert MayBind(n) == {} ==> Binds(n, a) == {};
      }
    }
    assert IsClosed(xs, b) by {
      forall n | n in xs
        ensures Binds(n, b) <= b
      {
        assert MayBind(n) == {} ==> Binds(n, b) == {};
      }
    }
  }

  lemma {:induction false} NodesOfList(n: Node, cs: seq<Child>, m: Node)
    requires forall i :: 0 <= i < |cs| ==> cs[i].node < n
    ensures m in NodesIn(WalkAll(n, cs)) <==> exists c :: c in cs && m in NodesIn(Walk(c))
  {
    if cs != [] {
      var k := |cs| - 1;
      NodesOfList(n, cs[..k], m);
      assert forall c :: c in cs <==> c in cs[..k] || c == cs[k];
      assert forall x :: x in WalkAll(n, cs) <==> x in WalkAll(n, cs[..k]) || x in Walk(cs[k]);
    }
  }

  // ----- The sites -----

  datatype Site = CreditCall(node: Node) | RenamedReExport(node: Node) | ValueEscape(node: Node)

  /** What one visited place of the file contributes. */
  function SiteAt(c: Child, aliases: set<string>): Option<Site> {
    var n := c.node;
    if n.Call? && IsCreditRef(n.callee, aliases) then
      if MemberName(n.callee) == Some("bind") then None else Some(CreditCall(n))
    else if n.ExportSpec? && n.source.Some? && n.source.value in CREDIT_NAMES && n.source.value != n.exported then
      Some(RenamedReExport(n))
    else if n.Ident? && (n.text == "creditAccount" || n.text in aliases) && c.escapes then
      Some(ValueEscape(n))
    else None
  }

  function Sites(ws: seq<Child>, aliases: set<string>): seq<Site> {
    if ws == [] then [] else
    var k := |ws| - 1;
    var site := SiteAt(ws[k], aliases);
    Sites(ws[..k], aliases) + if site.Some? then [site.value] else []
  }

  lemma {:induction false} SitesOfConcat(xs: seq<Child>, ys: seq<Child>, aliases: set<string>)
    ensures Sites(xs + ys, aliases) == Sites(xs, aliases) + Sites(ys, aliases)
  {
    if ys == [] {
      assert xs + ys == xs;
    } else {
      var k := |ys| - 1;
      assert (xs + ys)[..|xs + ys| - 1] == xs + ys[..k];
      SitesOfConcat(xs, ys[..k], aliases);
    }
  }

  method VisitPlace(c: Child, aliases: set<string>) returns (sites: seq<Site>)
    ensures sites == Sites([c], aliases)
  {
    var site := SiteAt(c, aliases);
    sites := if site.Some? then [site.value] else [];
    assert [c][..0] == [];
  }

  /** The walk of `creditSites`, returning what it pushes. */
  method VisitSites(c: Child, aliases: set<string>) returns (sites: seq<Site>)
    ensures sites == Sites(Walk(c), aliases)
    decreases c.node, 1
  {
    var here := VisitPlace(c, aliases);
    var below := VisitChildren(c.node, Children(c.node), aliases);
    SitesOfWalk(c, aliases);
    sites := here + below;
  }

  method VisitChildren(n: Node, cs: seq<Child>, aliases: set<string>) returns (sites: seq<Site>)
    requires forall i :: 0 <= i < |cs| ==> cs[i].node < n
    ensures sites == Sites(WalkAll(n, cs), aliases)
    decreases n, 0
  {
    sites := [];
    for i := 0 to |cs|
      invariant sites == Sites(WalkAll(n, cs[..i]), aliases)
    {
      var more := VisitSites(cs[i], aliases);
      SitesOfLongerList(n, cs, i, aliases);
      sites := sites + more;
    }
    assert cs[..|cs|] == cs;
  }

  lemma SitesOfWalk(c: Child, aliases: set<string>)
    ensures Sites(Walk(c), aliases) == Sites([c], aliases) + Sites(WalkAll(c.node, Children(c.node)), aliases)
  {
    SitesOfConcat([c], WalkAll(c.node, Children(c.node)), aliases);
  }

  lemma SitesOfLongerList(n: Node, cs: seq<Child>, i: nat, aliases: set<string>)
    requires i < |cs| && forall j :: 0 <= j < |cs| ==> cs[j].node < n
    ensures Sites(WalkAll(n, cs[..i + 1]), aliases) ==
      Sites(WalkAll(n, cs[..i]), aliases) + Sites(Walk(cs[i]), aliases)
  {
    assert cs[..i + 1][..i] == cs[..i];
    SitesOfConcat(WalkAll(n, cs[..i]), Walk(cs[i]), aliases);
  }

  /** The places of `file` that use a credit function, directly or through a chain of names. */
  ghost predicate UsesCredit(file: Node, c: Child) {
    var nodes := NodesOf(file);
    var n := c.node;
    || (n.Call? && MemberName(n.callee) != Some("bind") && ReachesCredit(nodes, n.callee))
    || (n.ExportSpec? && n.source.Some? && n.source.value in CREDIT_NAMES && n.source.value != n.exported)
    || (n.Ident? && c.escapes && (n.text == "creditAccount" || EndsAChain(nodes, n.text)))
  }

  /** `e` is a credit function outright or by a name that ends a chain. */
  ghost predicate ReachesCredit(nodes: set<Node>, e: Node) {
    IsCreditRef(e, {}) || exists a :: EndsAChain(nodes, a) && IsCreditRef(e, {a})
  }

  lemma CreditRefMeansReach(nodes: set<Node>, aliases: set<string>, e: Node)
    requires IsLeastClosed(nodes, aliases)
    ensures IsCreditRef(e, aliases) <==> ReachesCredit(nodes, e)
  {
    if IsCreditRef(e, aliases) {
      CreditRefNeedsOneName(e, aliases);
      if !IsCreditRef(e, {}) {
        var a :| a in aliases && IsCreditRef(e, {a});
        AliasesAreChainEnds(nodes, aliases, a);
      }
    } else if IsCreditRef(e, {}) {
      CreditRefIsMonotone(e, {}, aliases);
    } else if exists a :: EndsAChain(nodes, a) && IsCreditRef(e, {a}) {
      var a :| EndsAChain(nodes, a) && IsCreditRef(e, {a});
      AliasesAreChainEnds(nodes, aliases, a);
      CreditRefIsMonotone(e, {a}, aliases);
    }
  }

  /** The places among `ws` that use a credit function, in order. */
  ghost function Uses(file: Node, ws: seq<Child>): seq<Child> {
    if ws == [] then [] else
    var k := |ws| - 1;
    Uses(file, ws[..k]) + if UsesCredit(file, ws[k]) then [ws[k]] else []
  }

  /** `s` is the report a place earns by its kind. */
  ghost predicate Reports(s: Site, c: Child) {
    && s.node == c.node
    && (s.CreditCall? <==> c.node.Call?)
    && (s.RenamedReExport? <==> c.node.ExportSpec?)
    && (s.ValueEscape? <==> c.node.Ident?)
  }

  ghost predicate ReportEach(sites: seq<Site>, places: seq<Child>) {
    |sites| == |places| && forall i :: 0 <= i < |sites| ==> Reports(sites[i], places[i])
  }

  lemma {:induction false} SitesReportTheUses(file: Node, ws: seq<Child>, aliases: set<string>)
    requires IsLeastClosed(NodesOf(file), aliases)
    ensures ReportEach(Sites(ws, aliases), Uses(file, ws))
  {
    hide UsesCredit, SiteAt, IsLeastClosed, NodesOf;
    if ws != [] {
      var k := |ws| - 1;
      SitesReportTheUses(file, ws[..k], aliases);
      SiteMeansUse(file, ws[k], aliases);
    }
  }

  /** The scan of one file: in the order of the walk, one report for each place that uses a credit
      function, through an alias chain of any length, and no other. */
  method CreditSites(file: Node) returns (sites: seq<Site>)
    ensures ReportEach(sites, Uses(file, Walk(Child(file, false))))
    ensures exists aliases :: IsLeastClosed(NodesOf(file), aliases) && sites == Sites(Walk(Child(file, false)), aliases)
  {
    var aliases := CollectAliases(file);
    sites := VisitSites(Child(file, false), aliases);
    SitesReportTheUses(file, Walk(Child(file, false)), aliases);
  }

  lemma SiteMeansUse(file: Node, c: Child, aliases: set<string>)
    requires IsLeastClosed(NodesOf(file), aliases)
    ensures SiteAt(c, aliases).Some? <==> UsesCredit(file, c)
    ensures SiteAt(c, aliases).Some? ==> Reports(SiteAt(c, aliases).value, c)
  {
    if c.node.Call? {
      CreditRefMeansReach(NodesOf(file), aliases, c.node.callee);
    }
    if c.node.Ident? {
      AliasesAreChainEnds(NodesOf(file), aliases, c.node.text);
    }
  }
}
