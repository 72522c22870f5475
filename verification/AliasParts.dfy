/** The walk of the credit-caller scan visits every part of a file once, in source order
  (scripts/check-credit-caller-allowlist.ts). What the parts of a node are is said here field by
  field, without the walk. */
module AliasParts {
  import opened Options
  import opened AliasClosure

  // ----- Parts of a node, by its fields -----

  /** `m` is `n` or stands somewhere in one of its fields. */
  ghost predicate IsPart(m: Node, n: Node)
    decreases n, 1
  {
    m == n || IsPartBelow(m, n)
  }

  ghost predicate IsPartBelow(m: Node, n: Node)
    decreases n, 0
  {
    match n
    case Property(base, _) => IsPart(m, base)
    case Element(base, index) => IsPart(m, base) || IsPart(m, index)
    case Call(callee, args) => IsPart(m, callee) || IsPartOfSome(m, args)
    case Paren(inner) => IsPart(m, inner)
    case AsType(inner) => IsPart(m, inner)
    case NonNull(inner) => IsPart(m, inner)
    case Assign(left, right) => IsPart(m, left) || IsPart(m, right)
    case VarDecl(name, init) => IsPart(m, name) || IsPartOfMaybe(m, init)
    case ObjectPattern(elements) => IsPartOfSome(m, elements)
    case BindingElement(propertyName, name, default) =>
      IsPartOfMaybe(m, propertyName) || IsPart(m, name) || IsPartOfMaybe(m, default)
    case ArrayLit(elements) => IsPartOfSome(m, elements)
    case Shorthand(name) => IsPart(m, name)
    case PropertyAssign(key, content) => IsPart(m, key) || IsPart(m, content)
    case Return(values) => IsPartOfSome(m, values)
    case Other(children) => IsPartOfSome(m, children)
    case _ => false
  }

  ghost predicate IsPartOfMaybe(m: Node, o: Option<Node>)
    decreases o, 0
  {
    o.Some? && IsPart(m, o.value)
  }

  ghost predicate IsPartOfSome(m: Node, ns: seq<Node>)
    decreases ns, 0
  {
    exists i :: 0 <= i < |ns| && IsPart(m, ns[i])
  }

  /** The number of nodes a tree is made of. */
  function Size(n: Node): nat
    decreases n, 1
  {
    1 +
    match n
    case Property(base, _) => Size(base)
    case Element(base, index) => Size(base) + Size(index)
    case Call(callee, args) => Size(callee) + SizeOfAll(args)
    case Paren(inner) => Size(inner)
    case AsType(inner) => Size(inner)
    case NonNull(inner) => Size(inner)
    case Assign(left, right) => Size(left) + Size(right)
    case VarDecl(name, init) => Size(name) + SizeOfMaybe(init)
    case ObjectPattern(elements) => SizeOfAll(elements)
    case BindingElement(propertyName, name, default) =>
      SizeOfMaybe(propertyName) + Size(name) + SizeOfMaybe(default)
    case ArrayLit(elements) => SizeOfAll(elements)
    case Shorthand(name) => Size(name)
    case PropertyAssign(key, content) => Size(key) + Size(content)
    case Return(values) => SizeOfAll(values)
    case Other(children) => SizeOfAll(children)
    case _ => 0
  }

  function SizeOfMaybe(o: Option<Node>): nat
    decreases o, 0
  {
    if o.Some? then Size(o.value) else 0
  }

  function SizeOfAll(ns: seq<Node>): nat
    decreases ns, 0
  {
    if ns == [] then 0 else Size(ns[0]) + SizeOfAll(ns[1..])
  }

  /** `m` stands in a field of `n` that lets a value escape: a call argument, an array element, the
      content of an object property, a returned expression. */
  ghost predicate IsEscapingField(m: Node, n: Node) {
    match n
    case Call(_, args) => m in args
    case ArrayLit(elements) => m in elements
    case Shorthand(name) => m == name
    case PropertyAssign(_, content) => m == content
    case Return(values) => m in values
    case _ => false
  }

  // ----- The walk, field by field -----

  /** The places of a tree in source order, parents first. */
  ghost function Places(n: Node, escapes: bool): seq<Child>
    decreases n, 1
  {
    [Child(n, escapes)] + PlacesBelow(n)
  }

  ghost function PlacesBelow(n: Node): seq<Child>
    decreases n, 0
  {
    match n
    case Property(base, _) => Places(base, false)
    case Element(base, index) => Places(base, false) + Places(index, false)
    case Call(callee, args) => Places(callee, false) + PlacesOfAll(args, true)
    case Paren(inner) => Places(inner, false)
    case AsType(inner) => Places(inner, false)
    case NonNull(inner) => Places(inner, false)
    case Assign(left, right) => Places(left, false) + Places(right, false)
    case VarDecl(name, init) => Places(name, false) + PlacesOfMaybe(init)
    case ObjectPattern(elements) => PlacesOfAll(elements, false)
    case BindingElement(propertyName, name, default) =>
      PlacesOfMaybe(propertyName) + Places(name, false) + PlacesOfMaybe(default)
    case ArrayLit(elements) => PlacesOfAll(elements, true)
    case Shorthand(name) => Places(name, true)
    case PropertyAssign(key, content) => Places(key, false) + Places(content, true)
    case Return(values) => PlacesOfAll(values, true)
    case Other(children) => PlacesOfAll(children, false)
    case _ => []
  }

  ghost function PlacesOfMaybe(o: Option<Node>): seq<Child>
    decreases o, 0
  {
    if o.Some? then Places(o.value, false) else []
  }

  ghost function PlacesOfAll(ns: seq<Node>, escapes: bool): seq<Child>
    decreases ns, 0
  {
    if ns == [] then [] else Places(ns[0], escapes) + PlacesOfAll(ns[1..], escapes)
  }

  // ----- The walk visits these places -----

  /** The walks below each of `cs`, one after the other. */
  ghost function Walks(cs: seq<Child>): seq<Child> {
    if cs == [] then [] else
    var k := |cs| - 1;
    Walks(cs[..k]) + Walk(cs[k])
  }

  lemma {:induction false} WalkAllIsWalks(n: Node, cs: seq<Child>)
    requires forall i :: 0 <= i < |cs| ==> cs[i].node < n
    ensures WalkAll(n, cs) == Walks(cs)
  {
    hide Walk;
    if cs != [] {
      WalkAllIsWalks(n, cs[..|cs| - 1]);
    }
  }

  lemma WalkOf(c: Child)
    ensures Walk(c) == [c] + Walks(Children(c.node))
  {
    WalkAllIsWalks(c.node, Children(c.node));
  }

  lemma {:induction false} WalksOfConcat(cs: seq<Child>, ds: seq<Child>)
    ensures Walks(cs + ds) == Walks(cs) + Walks(ds)
  {
    hide Walk;
    if ds == [] {
      assert cs + ds == cs;
    } else {
      var k, all := |ds| - 1, cs + ds;
      assert all[..|all| - 1] == cs + ds[..k] && all[|all| - 1] == ds[k];
      WalksOfConcat(cs, ds[..k]);
      assert (Walks(cs) + Walks(ds[..k])) + Walk(ds[k]) == Walks(cs) + (Walks(ds[..k]) + Walk(ds[k]));
    }
  }

  lemma WalksOfOne(c: Child)
    ensures Walks([c]) == Walk(c)
  {
    hide Walk;
    assert [c][..0] == [];
  }

  lemma WalksOfTwo(c: Child, d: Child)
    ensures Walks([c, d]) == Walk(c) + Walk(d)
  {
    hide Walk, Walks;
    WalksOfOne(c);
    WalksOfOne(d);
    WalksOfConcat([c], [d]);
    assert [c] + [d] == [c, d];
  }

  ghost predicate IsPlaced(n: Node, escapes: bool) {
    Walk(Child(n, escapes)) == Places(n, escapes)
  }

  lemma {:induction false} WalksOfList(ns: seq<Node>, escapes: bool)
    requires forall i :: 0 <= i < |ns| ==> IsPlaced(ns[i], escapes)
    ensures Walks(Plain(ns, escapes)) == PlacesOfAll(ns, escapes)
  {
    hide Walk, Places, Walks;
    if ns == [] {
      NoWalks(Plain(ns, escapes));
    } else {
      var c := Child(ns[0], escapes);
      WalksOfList(ns[1..], escapes);
      assert Plain(ns, escapes) == [c] + Plain(ns[1..], escapes);
      WalksOfConcat([c], Plain(ns[1..], escapes));
      WalksOfOne(c);
      assert IsPlaced(ns[0], escapes);
    }
  }

  lemma NoWalks(cs: seq<Child>)
    requires |cs| == 0
    ensures Walks(cs) == []
  {
  }

  lemma WalksOfMaybe(o: Option<Node>)
    requires o.Some? ==> IsPlaced(o.value, false)
    ensures Walks(Maybe(o)) == PlacesOfMaybe(o)
  {
    hide Walk, Places;
    if o.Some? {
      WalksOfOne(Child(o.value, false));
    }
  }

  /** What lies below `n` is placed. */
  ghost predicate ChildrenArePlaced(n: Node) {
    forall m, e :: m < n ==> IsPlaced(m, e)
  }

  ghost predicate IsWalkedBelow(n: Node) {
    Walks(Children(n)) == PlacesBelow(n)
  }

  lemma ListIsWalked(n: Node, ns: seq<Node>, escapes: bool)
    requires ChildrenArePlaced(n) && Children(n) == Plain(ns, escapes)
    requires forall i :: 0 <= i < |ns| ==> ns[i] < n
    ensures Walks(Children(n)) == PlacesOfAll(ns, escapes)
  {
    forall i | 0 <= i < |ns|
      ensures IsPlaced(ns[i], escapes)
    {
    }
    WalksOfList(ns, escapes);
  }

  lemma ListsAreWalked(n: Node)
    requires (n.ObjectPattern? || n.ArrayLit? || n.Return? || n.Other?) && ChildrenArePlaced(n)
    ensures IsWalkedBelow(n)
  {
    hide Walks, Places, PlacesOfAll, IsPlaced, ChildrenArePlaced;
    match n
    case ObjectPattern(es) => ListIsWalked(n, es, false);
    case ArrayLit(es) => ListIsWalked(n, es, true);
    case Return(es) => ListIsWalked(n, es, true);
    case Other(es) => ListIsWalked(n, es, false);
  }

  lemma CallIsWalked(n: Node)
    requires n.Call? && ChildrenArePlaced(n)
    ensures IsWalkedBelow(n)
  {
    hide Walks, Walk, Places, PlacesOfAll;
    var c := Child(n.callee, false);
    WalksOfList(n.args, true);
    WalksOfConcat([c], Plain(n.args, true));
    WalksOfOne(c);
    assert IsPlaced(n.callee, false);
  }

  lemma DeclarationIsWalked(n: Node)
    requires n.VarDecl? && ChildrenArePlaced(n)
    ensures IsWalkedBelow(n)
  {
    hide Walks, Walk, Places, PlacesOfMaybe, Maybe;
    var c := Child(n.name, false);
    WalksOfMaybe(n.init);
    WalksOfConcat([c], Maybe(n.init));
    WalksOfOne(c);
    assert IsPlaced(n.name, false);
  }

  lemma BindingIsWalked(n: Node)
    requires n.BindingElement? && ChildrenArePlaced(n)
    ensures IsWalkedBelow(n)
  {
    hide Walks, Walk, Places, PlacesOfMaybe, Maybe;
    var c := Child(n.name, false);
    WalksOfMaybe(n.propertyName);
    WalksOfMaybe(n.default);
    WalksOfConcat(Maybe(n.propertyName), [c]);
    WalksOfConcat(Maybe(n.propertyName) + [c], Maybe(n.default));
    WalksOfOne(c);
    assert IsPlaced(n.name, false);
  }

  lemma SingleIsWalked(n: Node)
    requires (n.Property? || n.Paren? || n.AsType? || n.NonNull? || n.Shorthand?) && ChildrenArePlaced(n)
    ensures IsWalkedBelow(n)
  {
    hide Walks, Walk, Places;
    var m := match n
      case Property(base, _) => base
      case Paren(inner) => inner
      case AsType(inner) => inner
      case NonNull(inner) => inner
      case Shorthand(name) => name;
    assert IsPlaced(m, n.Shorthand?);
    WalksOfOne(Child(m, n.Shorthand?));
  }

  lemma PairIsWalked(n: Node)
    requires (n.Element? || n.Assign? || n.PropertyAssign?) && ChildrenArePlaced(n)
    ensures IsWalkedBelow(n)
  {
    hide Walks, Walk, Places;
    var pair := match n
      case Element(base, index) => (base, index)
      case Assign(left, right) => (left, right)
      case PropertyAssign(key, content) => (key, content);
    assert IsPlaced(pair.0, false) && IsPlaced(pair.1, n.PropertyAssign?);
    WalksOfTwo(Child(pair.0, false), Child(pair.1, n.PropertyAssign?));
  }

  lemma LeafIsWalked(n: Node)
    requires n.Ident? || n.Literal? || n.ImportSpec? || n.ExportSpec?
    ensures IsWalkedBelow(n)
  {
  }

  lemma NodeIsWalked(n: Node)
    requires ChildrenArePlaced(n)
    ensures IsWalkedBelow(n)
  {
    hide ChildrenArePlaced, IsWalkedBelow;
    if n.Call? {
      CallIsWalked(n);
    } else if n.VarDecl? {
      DeclarationIsWalked(n);
    } else if n.BindingElement? {
      BindingIsWalked(n);
    } else if n.ObjectPattern? || n.ArrayLit? || n.Return? || n.Other? {
      ListsAreWalked(n);
    } else if n.Element? || n.Assign? || n.PropertyAssign? {
      PairIsWalked(n);
    } else if n.Property? || n.Paren? || n.AsType? || n.NonNull? || n.Shorthand? {
      SingleIsWalked(n);
    } else {
      LeafIsWalked(n);
    }
  }

  /** The walk visits the places of the tree, in source order. */
  lemma {:induction false} WalkIsPlaces(n: Node, escapes: bool)
    ensures Walk(Child(n, escapes)) == Places(n, escapes)
    decreases n
  {
    hide Walk, Walks, PlacesBelow, Children;
    forall m, e | m < n
      ensures IsPlaced(m, e)
    {
      WalkIsPlaces(m, e);
    }
    NodeIsWalked(n);
    WalkOf(Child(n, escapes));
  }

  // ----- How many places -----

  ghost predicate IsCounted(n: Node) {
    forall e :: |Places(n, e)| == Size(n)
  }

  lemma {:induction false} CountOfAll(ns: seq<Node>, escapes: bool)
    requires forall i :: 0 <= i < |ns| ==> IsCounted(ns[i])
    ensures |PlacesOfAll(ns, escapes)| == SizeOfAll(ns)
  {
    hide Places, Size;
    if ns != [] {
      assert IsCounted(ns[0]);
      CountOfAll(ns[1..], escapes);
    }
  }

  lemma CountOfMaybe(o: Option<Node>)
    requires o.Some? ==> IsCounted(o.value)
    ensures |PlacesOfMaybe(o)| == SizeOfMaybe(o)
  {
  }

  lemma CountBelow(n: Node)
    requires forall m :: m < n ==> IsCounted(m)
    ensures 1 + |PlacesBelow(n)| == Size(n)
  {
    hide Places, SizeOfAll, PlacesOfAll, SizeOfMaybe, PlacesOfMaybe;
    match n
    case Property(base, _) => assert IsCounted(base);
    case Element(base, index) => assert IsCounted(base) && IsCounted(index);
    case Call(callee, args) =>
      assert IsCounted(callee);
      CountOfAll(args, true);
    case Paren(inner) => assert IsCounted(inner);
    case AsType(inner) => assert IsCounted(inner);
    case NonNull(inner) => assert IsCounted(inner);
    case Assign(left, right) => assert IsCounted(left) && IsCounted(right);
    case VarDecl(name, init) =>
      assert IsCounted(name);
      CountOfMaybe(init);
    case ObjectPattern(es) => CountOfAll(es, false);
    case BindingElement(p, name, d) =>
      assert IsCounted(name);
      CountOfMaybe(p);
      CountOfMaybe(d);
    case ArrayLit(es) => CountOfAll(es, true);
    case Shorthand(name) => assert IsCounted(name);
    case PropertyAssign(key, content) => assert IsCounted(key) && IsCounted(content);
    case Return(es) => CountOfAll(es, true);
    case Other(es) => CountOfAll(es, false);
    case _ =>
  }

  /** One place for each node the tree is made of. */
  lemma {:induction false} PlacesAreCounted(n: Node, escapes: bool)
    ensures |Places(n, escapes)| == Size(n)
    decreases n
  {
    forall m | m < n
      ensures IsCounted(m)
    {
      forall e
        ensures |Places(m, e)| == Size(m)
      {
        PlacesAreCounted(m, e);
      }
    }
    CountBelow(n);
  }

  // ----- Which nodes -----

  lemma NodesOfConcat(xs: seq<Child>, ys: seq<Child>, m: Node)
    ensures m in NodesIn(xs + ys) <==> m in NodesIn(xs) || m in NodesIn(ys)
  {
  }

  ghost predicate HasItsParts(n: Node, m: Node) {
    forall e :: m in NodesIn(Places(n, e)) <==> IsPart(m, n)
  }

  lemma {:induction false} PartsOfAll(ns: seq<Node>, escapes: bool, m: Node)
    requires forall i :: 0 <= i < |ns| ==> HasItsParts(ns[i], m)
    ensures m in NodesIn(PlacesOfAll(ns, escapes)) <==> IsPartOfSome(m, ns)
  {
    hide Places, IsPart, NodesIn;
    if ns == [] {
      NoNodes(PlacesOfAll(ns, escapes), m);
    } else {
      assert HasItsParts(ns[0], m);
      PartsOfAll(ns[1..], escapes, m);
      NodesOfConcat(Places(ns[0], escapes), PlacesOfAll(ns[1..], escapes), m);
      PartOfFirst(m, ns);
    }
  }

  lemma NoNodes(ws: seq<Child>, m: Node)
    requires |ws| == 0
    ensures m !in NodesIn(ws)
  {
  }

  lemma PartOfFirst(m: Node, ns: seq<Node>)
    requires ns != []
    ensures IsPartOfSome(m, ns) <==> IsPart(m, ns[0]) || IsPartOfSome(m, ns[1..])
  {
    hide IsPart;
    if IsPartOfSome(m, ns) && !IsPart(m, ns[0]) {
      var i :| 0 <= i < |ns| && IsPart(m, ns[i]);
      assert ns[1..][i - 1] == ns[i];
    }
    if IsPartOfSome(m, ns[1..]) {
      var i :| 0 <= i < |ns[1..]| && IsPart(m, ns[1..][i]);
      assert ns[i + 1] == ns[1..][i];
    }
  }

  lemma PartsOfMaybe(o: Option<Node>, m: Node)
    requires o.Some? ==> HasItsParts(o.value, m)
    ensures m in NodesIn(PlacesOfMaybe(o)) <==> IsPartOfMaybe(m, o)
  {
    hide Places, IsPart;
  }

  lemma PartsOfTwo(n1: Node, e1: bool, n2: Node, e2: bool, m: Node)
    requires HasItsParts(n1, m) && HasItsParts(n2, m)
    ensures m in NodesIn(Places(n1, e1) + Places(n2, e2)) <==> IsPart(m, n1) || IsPart(m, n2)
  {
    hide Places, IsPart, NodesIn;
    NodesOfConcat(Places(n1, e1), Places(n2, e2), m);
  }

  lemma PartsBelow(n: Node, m: Node)
    requires forall k :: k < n ==> HasItsParts(k, m)
    ensures m in NodesIn(PlacesBelow(n)) <==> IsPartBelow(m, n)
  {
    hide Places, IsPart, NodesIn, PlacesOfAll, IsPartOfSome, PlacesOfMaybe, IsPartOfMaybe;
    match n
    case Property(base, _) => assert HasItsParts(base, m);
    case Paren(inner) => assert HasItsParts(inner, m);
    case AsType(inner) => assert HasItsParts(inner, m);
    case NonNull(inner) => assert HasItsParts(inner, m);
    case Shorthand(name) => assert HasItsParts(name, m);
    case Element(base, index) => PartsOfTwo(base, false, index, false, m);
    case Call(callee, args) =>
      assert HasItsParts(callee, m);
      PartsOfAll(args, true, m);
      NodesOfConcat(Places(callee, false), PlacesOfAll(args, true), m);
    case Assign(left, right) => PartsOfTwo(left, false, right, false, m);
    case VarDecl(name, init) =>
      assert HasItsParts(name, m);
      PartsOfMaybe(init, m);
      NodesOfConcat(Places(name, false), PlacesOfMaybe(init), m);
    case ObjectPattern(es) => PartsOfAll(es, false, m);
    case BindingElement(p, name, d) =>
      assert HasItsParts(name, m);
      PartsOfMaybe(p, m);
      PartsOfMaybe(d, m);
      NodesOfConcat(PlacesOfMaybe(p), Places(name, false), m);
      NodesOfConcat(PlacesOfMaybe(p) + Places(name, false), PlacesOfMaybe(d), m);
    case ArrayLit(es) => PartsOfAll(es, true, m);
    case PropertyAssign(key, content) => PartsOfTwo(key, false, content, true, m);
    case Return(es) => PartsOfAll(es, true, m);
    case Other(es) => PartsOfAll(es, false, m);
    case _ => NoNodes([], m);
  }

  lemma {:induction false} PlacesHoldTheParts(n: Node, escapes: bool, m: Node)
    ensures m in NodesIn(Places(n, escapes)) <==> IsPart(m, n)
    decreases n
  {
    forall k | k < n
      ensures HasItsParts(k, m)
    {
      forall e
        ensures m in NodesIn(Places(k, e)) <==> IsPart(m, k)
      {
        PlacesHoldTheParts(k, e, m);
      }
    }
    hide PlacesBelow, IsPartBelow;
    PartsBelow(n, m);
    NodesOfConcat([Child(n, escapes)], PlacesBelow(n), m);
  }

  /** The walk of a file visits every part of it and nothing else, and has one place for each node
      the file is made of. */
  lemma WalkVisitsTheParts(file: Node)
    ensures forall m :: m in NodesOf(file) <==> IsPart(m, file)
    ensures |Walk(Child(file, false))| == Size(file)
  {
    hide Walk, Places, IsPart, Size;
    WalkIsPlaces(file, false);
    PlacesAreCounted(file, false);
    forall m: Node
      ensures m in NodesOf(file) <==> IsPart(m, file)
    {
      PlacesHoldTheParts(file, false, m);
    }
  }

  // ----- Which places let a value escape -----

  /** `m` stands in an escaping field of some part of `n`. */
  ghost predicate EscapesIn(m: Node, n: Node) {
    exists k :: IsPart(k, n) && IsEscapingField(m, k)
  }

  /** Children with their positions are known by the fields. */
  lemma ChildIsInAField(m: Node, n: Node)
    ensures Child(m, true) in Children(n) <==> IsEscapingField(m, n)
  {
    match n
    case Call(_, args) => InPlain(args, true, m);
    case ObjectPattern(es) => InPlain(es, false, m);
    case ArrayLit(es) => InPlain(es, true, m);
    case Return(es) => InPlain(es, true, m);
    case Other(es) => InPlain(es, false, m);
    case _ =>
  }

  lemma InPlain(ns: seq<Node>, escapes: bool, m: Node)
    ensures Child(m, true) in Plain(ns, escapes) <==> escapes && m in ns
  {
    if escapes && m in ns {
      var i :| 0 <= i < |ns| && ns[i] == m;
      assert Plain(ns, escapes)[i] == Child(m, true);
    }
  }

  lemma {:induction false} InWalks(cs: seq<Child>, c: Child)
    ensures c in Walks(cs) <==> exists d :: d in cs && c in Walk(d)
  {
    hide Walk;
    if cs != [] {
      var k := |cs| - 1;
      InWalks(cs[..k], c);
      assert forall d :: d in cs <==> d in cs[..k] || d == cs[k];
      assert c in Walks(cs) <==> c in Walks(cs[..k]) || c in Walk(cs[k]);
    }
  }

  /** The parts of `n` are `n` and the parts of its children. */
  lemma PartsByChildren(m: Node, n: Node)
    ensures IsPart(m, n) <==> m == n || exists c :: c in Children(n) && IsPart(m, c.node)
  {
    hide Children, Walk, Places, IsPart;
    var c := Child(n, false);
    WalkIsPlaces(n, false);
    PlacesHoldTheParts(n, false, m);
    WalkOf(c);
    NodesOfConcat([c], Walks(Children(n)), m);
    if m in NodesIn(Walks(Children(n))) {
      var x :| x in Walks(Children(n)) && x.node == m;
      InWalks(Children(n), x);
      var d :| d in Children(n) && x in Walk(d);
      assert m in NodesIn(Walk(d));
      WalkIsPlaces(d.node, d.escapes);
      PlacesHoldTheParts(d.node, d.escapes, m);
    }
    forall d | d in Children(n) && IsPart(m, d.node)
      ensures m in NodesIn(Walks(Children(n)))
    {
      WalkIsPlaces(d.node, d.escapes);
      PlacesHoldTheParts(d.node, d.escapes, m);
      var x :| x in Walk(d) && x.node == m;
      InWalks(Children(n), x);
    }
    assert m in NodesIn([c]) <==> m == n;
  }

  lemma EscapesByChildren(m: Node, n: Node)
    ensures EscapesIn(m, n) <==> IsEscapingField(m, n) || exists c :: c in Children(n) && EscapesIn(m, c.node)
  {
    hide Children, IsPart, IsEscapingField;
    PartsByChildren(n, n);
    if EscapesIn(m, n) {
      var k :| IsPart(k, n) && IsEscapingField(m, k);
      PartsByChildren(k, n);
    }
    forall c | c in Children(n) && EscapesIn(m, c.node)
      ensures EscapesIn(m, n)
    {
      var k :| IsPart(k, c.node) && IsEscapingField(m, k);
      PartsByChildren(k, n);
    }
  }

  /** Exactly the nodes in an escaping field of some part of the file are visited as escaping. */
  lemma {:induction false} EscapesAreExact(n: Node, escapes: bool, m: Node)
    ensures Child(m, true) in Walk(Child(n, escapes)) <==> (escapes && m == n) || EscapesIn(m, n)
    decreases n
  {
    hide Children, Walk, EscapesIn, IsEscapingField;
    var c, x := Child(n, escapes), Child(m, true);
    WalkOf(c);
    InWalks(Children(n), x);
    EscapesByChildren(m, n);
    ChildIsInAField(m, n);
    forall d | d in Children(n)
      ensures x in Walk(d) <==> d == x || EscapesIn(m, d.node)
    {
      EscapesAreExact(d.node, d.escapes, m);
      assert d == Child(d.node, d.escapes);
    }
  }
}
