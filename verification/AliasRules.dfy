/** What the rules of the credit-caller scan mean (scripts/check-credit-caller-allowlist.ts): which
  expressions stand for a credit function, which nodes bind a name to one, and which uses of a file
  are reported. */
module AliasRules {
  import opened Options
  import opened Collections
  import opened AliasClosure
  import opened AliasParts

  // ----- References -----

  /** `e` stands for the same function as `inner`. */
  ghost predicate Keeps(e: Node, inner: Node) {
    || e == Paren(inner) || e == AsType(inner) || e == NonNull(inner)
    || (exists m :: m in {"bind", "call", "apply"} && (e == Property(inner, m) || e == Element(inner, Literal(m))))
    || (e.Call? && (e.callee == Property(inner, "bind") || e.callee == Element(inner, Literal("bind"))))
  }

  /** A name or a member that is a credit function by itself. */
  ghost predicate IsOutright(e: Node, aliases: set<string>) {
    || (e.Ident? && (e.text == "creditAccount" || e.text in aliases))
    || (e.Property? && (e.member == "creditAccount" || e.member == "credit"))
    || (e.Element? && (e.index == Literal("creditAccount") || e.index == Literal("credit")))
  }

  ghost predicate KeepsAt(path: seq<Node>, i: nat)
    requires i < |path| - 1
  {
    Keeps(path[i], path[i + 1])
  }

  /** `path` leads from `e` to an outright reference, every step keeping the function. */
  ghost predicate LeadsToCredit(path: seq<Node>, e: Node, aliases: set<string>) {
    && path != [] && path[0] == e && IsOutright(path[|path| - 1], aliases)
    && forall i :: 0 <= i < |path| - 1 ==> KeepsAt(path, i)
  }

  lemma PathExtends(path: seq<Node>, e: Node, inner: Node, aliases: set<string>)
    requires Keeps(e, inner) && LeadsToCredit(path, inner, aliases)
    ensures LeadsToCredit([e] + path, e, aliases)
  {
    hide Keeps;
    var longer := [e] + path;
    forall i | 0 <= i < |longer| - 1
      ensures KeepsAt(longer, i)
    {
      if i > 0 {
        assert KeepsAt(path, i - 1);
      }
    }
  }

  lemma {:induction false} CreditRefHasPath(e: Node, aliases: set<string>) returns (path: seq<Node>)
    requires IsCreditRef(e, aliases)
    ensures LeadsToCredit(path, e, aliases)
    decreases e
  {
    if IsOutright(e, aliases) {
      path := [e];
    } else {
      var inner := match e
        case Paren(x) => x
        case AsType(x) => x
        case NonNull(x) => x
        case Property(o, _) => o
        case Element(o, _) => o
        case Call(c, _) => if c.Property? || c.Element? then c.base else c
        case _ => e;
      path := CreditRefHasPath(inner, aliases);
      PathExtends(path, e, inner, aliases);
      path := [e] + path;
    }
  }

  lemma KeptIsCreditRef(e: Node, inner: Node, aliases: set<string>)
    requires Keeps(e, inner) && IsCreditRef(inner, aliases)
    ensures IsCreditRef(e, aliases)
  {
  }

  lemma OutrightIsCreditRef(e: Node, aliases: set<string>)
    requires IsOutright(e, aliases)
    ensures IsCreditRef(e, aliases)
  {
  }

  lemma {:induction false} PathIsCreditRef(path: seq<Node>, e: Node, aliases: set<string>)
    requires LeadsToCredit(path, e, aliases)
    ensures IsCreditRef(e, aliases)
    decreases |path|
  {
    hide Keeps, IsOutright, IsCreditRef;
    if |path| == 1 {
      OutrightIsCreditRef(e, aliases);
    } else {
      assert KeepsAt(path, 0);
      forall i | 0 <= i < |path[1..]| - 1
        ensures KeepsAt(path[1..], i)
      {
        assert KeepsAt(path, i + 1);
      }
      PathIsCreditRef(path[1..], path[1], aliases);
      KeptIsCreditRef(e, path[1], aliases);
    }
  }

  /** A reference is one exactly when, stripped of everything that keeps the function, a credit
      name, a credit member or an alias is left. */
  lemma CreditRefIsExact(e: Node, aliases: set<string>)
    ensures IsCreditRef(e, aliases) <==> exists path :: LeadsToCredit(path, e, aliases)
  {
    if IsCreditRef(e, aliases) {
      var path := CreditRefHasPath(e, aliases);
    } else if exists path :: LeadsToCredit(path, e, aliases) {
      var path :| LeadsToCredit(path, e, aliases);
      PathIsCreditRef(path, e, aliases);
    }
  }

  // ----- Bindings -----

  /** `n` gives `name` the value of `e`. */
  ghost predicate Gives(n: Node, name: string, e: Node) {
    n == VarDecl(Ident(name), Some(e)) || n == Assign(Ident(name), e)
  }

  ghost predicate IsCreditName(text: string) {
    text == "creditAccount" || text == "credit"
  }

  /** The element of a destructuring picks a credit member under `name`. */
  ghost predicate PicksAs(el: Node, name: string) {
    && el.BindingElement? && el.name == Ident(name)
    && if el.propertyName.None? then IsCreditName(name)
       else el.propertyName.value.Ident? && IsCreditName(el.propertyName.value.text)
  }

  /** `n` imports or picks a credit member under `name`. */
  ghost predicate Picks(n: Node, name: string) {
    || (n.ImportSpec? && n.local == name && n.imported.Some? && IsCreditName(n.imported.value))
    || (n.VarDecl? && n.init.Some? && n.name.ObjectPattern? &&
        exists i :: 0 <= i < |n.name.elements| && PicksAs(n.name.elements[i], name))
  }

  lemma CreditElementsAreExact(es: seq<Node>, name: string)
    ensures name in CreditElements(es) <==> exists i :: 0 <= i < |es| && PicksAs(es[i], name)
  {
    forall i | 0 <= i < |es|
      ensures PicksAs(es[i], name) <==> BindsCreditMember(es[i]) && es[i].name.text == name
    {
    }
  }

  /** A node binds a name exactly when it imports or picks a credit member under that name, or gives
      it the value of a reference to a credit function. */
  lemma BindsIsExact(n: Node, name: string, aliases: set<string>)
    ensures name in Binds(n, aliases) <==>
      Picks(n, name) || exists e :: Gives(n, name, e) && IsCreditRef(e, aliases)
  {
    hide IsCreditRef, PicksAs, CreditElements;
    if n.VarDecl? && n.init.Some? {
      if n.name.ObjectPattern? {
        CreditElementsAreExact(n.name.elements, name);
      }
      assert n.name == Ident(name) ==> Gives(n, name, n.init.value);
    }
    if n.Assign? {
      assert n.left == Ident(name) ==> Gives(n, name, n.right);
    }
  }

  // ----- Reports -----

  lemma {:induction false} UseIsListed(file: Node, ws: seq<Child>, c: Child)
    ensures c in Uses(file, ws) <==> c in ws && UsesCredit(file, c)
  {
    hide UsesCredit;
    if ws != [] {
      var k := |ws| - 1;
      UseIsListed(file, ws[..k], c);
      assert c in ws <==> c in ws[..k] || c == ws[k];
    }
  }

  ghost function UsePlaces(file: Node, ws: seq<Child>): set<nat> {
    set i: nat | i < |ws| && UsesCredit(file, ws[i])
  }

  ghost predicate AreAt(uses: seq<Child>, ws: seq<Child>, places: seq<nat>) {
    && |uses| == |places|
    && forall k :: 0 <= k < |places| ==> places[k] < |ws| && uses[k] == ws[places[k]]
  }

  /** Each place of the walk that uses a credit function, once and in order. */
  lemma {:induction false} UsesAreExact(file: Node, ws: seq<Child>) returns (places: seq<nat>)
    ensures Lists(places, UsePlaces(file, ws)) && AreAt(Uses(file, ws), ws, places)
  {
    hide UsesCredit, Lists, UsePlaces;
    places := [];
    if ws == [] {
      NoUses(file, ws);
    } else {
      var n := |ws| - 1;
      places := UsesAreExact(file, ws[..n]);
      UsePlacesGrow(file, ws, n);
      if UsesCredit(file, ws[n]) {
        ListsOneMore(places, UsePlaces(file, ws[..n]), n);
        places := places + [n];
      } else {
        assert UsePlaces(file, ws) == UsePlaces(file, ws[..n]);
      }
    }
  }

  lemma NoUses(file: Node, ws: seq<Child>)
    requires |ws| == 0
    ensures Lists([], UsePlaces(file, ws))
  {
  }

  lemma UsePlacesGrow(file: Node, ws: seq<Child>, n: nat)
    requires |ws| == n + 1
    ensures UsePlaces(file, ws) == UsePlaces(file, ws[..n]) + if UsesCredit(file, ws[n]) then {n} else {}
    ensures forall p :: p in UsePlaces(file, ws[..n]) ==> p < n
  {
    hide UsesCredit;
    var before := UsePlaces(file, ws[..n]);
    forall i: nat
      ensures i in UsePlaces(file, ws) <==> i in before || (i == n && UsesCredit(file, ws[n]))
    {
      if i < n {
        assert ws[..n][i] == ws[i];
      }
    }
  }

  /** Some report of `sites` is about `m`. */
  ghost predicate IsReported(sites: seq<Site>, m: Node) {
    exists i :: 0 <= i < |sites| && sites[i].node == m
  }

  /** What the scan is for, said of the parts of a file: every call of a credit function, every
      renaming re-export of one and every name of one in an escaping field is reported. */
  ghost predicate IsUse(file: Node, m: Node) {
    || (m.Call? && MemberName(m.callee) != Some("bind") && ReachesCredit(NodesOf(file), m.callee))
    || (m.ExportSpec? && m.source.Some? && IsCreditName(m.source.value) && m.source.value != m.exported)
    || (m.Ident? && EscapesIn(m, file) && (m.text == "creditAccount" || EndsAChain(NodesOf(file), m.text)))
  }

  lemma UsePlace(file: Node, m: Node) returns (c: Child)
    requires IsPart(m, file) && IsUse(file, m)
    ensures c.node == m && c in Walk(Child(file, false)) && UsesCredit(file, c)
  {
    hide Walk, IsPart, ReachesCredit, EndsAChain, EscapesIn;
    if m.Ident? {
      EscapesAreExact(file, false, m);
      c := Child(m, true);
    } else {
      WalkVisitsTheParts(file);
      c :| c in Walk(Child(file, false)) && c.node == m;
    }
  }

  lemma PlaceOfUse(file: Node, c: Child)
    requires c in Walk(Child(file, false)) && UsesCredit(file, c)
    ensures IsPart(c.node, file) && IsUse(file, c.node)
  {
    hide Walk, IsPart, ReachesCredit, EndsAChain, EscapesIn;
    WalkVisitsTheParts(file);
    assert c.node in NodesOf(file);
    if c.node.Ident? {
      assert c == Child(c.node, true);
      EscapesAreExact(file, false, c.node);
    }
  }

  /** The reports of a scan are about exactly the uses among the parts of the file. */
  lemma ReportsAreTheUses(file: Node, sites: seq<Site>, m: Node)
    requires ReportEach(sites, Uses(file, Walk(Child(file, false))))
    ensures IsReported(sites, m) <==> IsPart(m, file) && IsUse(file, m)
  {
    hide Walk, IsPart, IsUse, UsesCredit, Uses;
    var ws := Walk(Child(file, false));
    var uses := Uses(file, ws);
    if IsReported(sites, m) {
      var i :| 0 <= i < |sites| && sites[i].node == m;
      assert Reports(sites[i], uses[i]) && uses[i] in uses;
      UseIsListed(file, ws, uses[i]);
      PlaceOfUse(file, uses[i]);
    }
    if IsPart(m, file) && IsUse(file, m) {
      var c := UsePlace(file, m);
      UseIsListed(file, ws, c);
      var i :| 0 <= i < |uses| && uses[i] == c;
      assert Reports(sites[i], uses[i]);
    }
  }
}
