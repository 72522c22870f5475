/** The aliases of a file do not depend on the order of its statements, at any depth
  (scripts/check-credit-caller-allowlist.ts). */
module AliasOrder {
  import opened AliasClosure

  function ChildNodes(n: Node): (ks: seq<Node>)
    ensures forall k :: k in ks ==> k < n
  {
    seq(|Children(n)|, i requires 0 <= i < |Children(n)| => Children(n)[i].node)
  }

  /** The same kind of node with the same names: only what lies below may differ. */
  predicate SameShape(n: Node, m: Node) {
    match n
    case Property(_, name) => m.Property? && m.member == name
    case Element(_, _) => m.Element?
    case Call(_, _) => m.Call?
    case Paren(_) => m.Paren?
    case AsType(_) => m.AsType?
    case NonNull(_) => m.NonNull?
    case Assign(_, _) => m.Assign?
    case VarDecl(_, init) => m.VarDecl? && (m.init.Some? <==> init.Some?)
    case ObjectPattern(_) => m.ObjectPattern?
    case BindingElement(p, _, d) =>
      m.BindingElement? && (m.propertyName.Some? <==> p.Some?) && (m.default.Some? <==> d.Some?)
    case ArrayLit(_) => m.ArrayLit?
    case Shorthand(_) => m.Shorthand?
    case PropertyAssign(_, _) => m.PropertyAssign?
    case Return(_) => m.Return?
    case Other(_) => m.Other?
    case _ => m == n
  }

  /** `ks` are the children of `m`: statements in any order, other children in their places. */
  ghost predicate Arranges(ks: seq<Node>, m: Node) {
    if m.Other? then multiset(ks) == multiset(ChildNodes(m)) else ks == ChildNodes(m)
  }

  /** `m` is `n` with lists of statements reordered, at any depth and each list in its own way. */
  ghost predicate Reordered(n: Node, m: Node)
    decreases n
  {
    && SameShape(n, m)
    && exists ks :: Arranges(ks, m) && AllReordered(n, ks)
  }

  /** The children of `n` correspond to `ks` one by one. */
  ghost predicate AllReordered(n: Node, ks: seq<Node>)
    decreases n, 0
  {
    && |ks| == |ChildNodes(n)|
    && forall i :: 0 <= i < |ks| ==> Reordered(ChildNodes(n)[i], ks[i])
  }

  lemma ChildCorresponds(n: Node, m: Node, i: nat)
    requires Reordered(n, m) && !n.Other?
    ensures |ChildNodes(n)| == |ChildNodes(m)|
    ensures i < |ChildNodes(n)| ==> Reordered(ChildNodes(n)[i], ChildNodes(m)[i])
  {
    hide ChildNodes;
  }

  // ----- A reordered node binds the same names -----

  lemma LeavesAreKept(n: Node, m: Node)
    requires Reordered(n, m)
    ensures m.Ident? <==> n.Ident?
    ensures m.Literal? <==> n.Literal?
    ensures n.Ident? || n.Literal? ==> m == n
  {
  }

  /** The base of a member access, and its index. */
  lemma AccessIsKept(n: Node, m: Node)
    requires Reordered(n, m)
    ensures m.Property? <==> n.Property?
    ensures m.Element? <==> n.Element?
    ensures n.Property? ==> m.member == n.member
    ensures n.Property? || n.Element? ==> Reordered(n.base, m.base)
    ensures n.Element? ==> (m.index.Literal? <==> n.index.Literal?) && (n.index.Literal? ==> m.index == n.index)
  {
    if n.Property? || n.Element? {
      ChildCorresponds(n, m, 0);
    }
    if n.Element? {
      ChildCorresponds(n, m, 1);
      LeavesAreKept(n.index, m.index);
    }
  }

  lemma CalleeIsKept(n: Node, m: Node)
    requires Reordered(n, m) && n.Call?
    ensures m.Call? && Reordered(n.callee, m.callee)
  {
    ChildCorresponds(n, m, 0);
  }

  lemma WrappedIsKept(n: Node, m: Node)
    requires Reordered(n, m) && (n.Paren? || n.AsType? || n.NonNull?)
    ensures SameShape(n, m) && Reordered(n.inner, m.inner)
  {
    ChildCorresponds(n, m, 0);
  }

  lemma {:induction false} CreditRefIsKept(e: Node, x: Node, aliases: set<string>)
    requires Reordered(e, x)
    ensures IsCreditRef(x, aliases) <==> IsCreditRef(e, aliases)
    decreases e
  {
    hide Reordered, ChildNodes;
    assert SameShape(e, x) by {
      ShapeIsKept(e, x);
    }
    if e.Paren? || e.AsType? || e.NonNull? {
      WrappedIsKept(e, x);
      CreditRefIsKept(e.inner, x.inner, aliases);
    } else if e.Property? || e.Element? {
      AccessIsKept(e, x);
      CreditRefIsKept(e.base, x.base, aliases);
    } else if e.Call? {
      CalleeIsKept(e, x);
      AccessIsKept(e.callee, x.callee);
      if e.callee.Property? || e.callee.Element? {
        CreditRefIsKept(e.callee.base, x.callee.base, aliases);
      }
    }
  }

  lemma ShapeIsKept(n: Node, m: Node)
    requires Reordered(n, m)
    ensures SameShape(n, m)
  {
  }

  lemma DeclarationIsKept(n: Node, m: Node)
    requires Reordered(n, m) && n.VarDecl?
    ensures m.VarDecl? && Reordered(n.name, m.name)
    ensures m.init.Some? <==> n.init.Some?
    ensures n.init.Some? ==> Reordered(n.init.value, m.init.value)
  {
    ChildCorresponds(n, m, 0);
    ChildCorresponds(n, m, 1);
  }

  lemma ElementIsKept(n: Node, m: Node)
    requires Reordered(n, m) && n.BindingElement?
    ensures m.BindingElement? && Reordered(n.name, m.name)
    ensures m.propertyName.Some? <==> n.propertyName.Some?
    ensures n.propertyName.Some? ==> Reordered(n.propertyName.value, m.propertyName.value)
  {
    ChildCorresponds(n, m, 0);
    ChildCorresponds(n, m, 1);
  }

  lemma CreditMemberIsKept(el: Node, x: Node)
    requires Reordered(el, x)
    ensures BindsCreditMember(x) <==> BindsCreditMember(el)
    ensures BindsCreditMember(el) ==> x.name.text == el.name.text
  {
    hide Reordered;
    ShapeIsKept(el, x);
    if el.BindingElement? {
      ElementIsKept(el, x);
      LeavesAreKept(el.name, x.name);
      if el.propertyName.Some? {
        LeavesAreKept(el.propertyName.value, x.propertyName.value);
      }
    }
  }

  lemma CreditElementsAreKept(n: Node, m: Node)
    requires Reordered(n, m) && n.ObjectPattern?
    ensures m.ObjectPattern? && CreditElements(m.elements) == CreditElements(n.elements)
  {
    hide Reordered;
    ShapeIsKept(n, m);
    ChildCorresponds(n, m, 0);
    assert ChildNodes(n) == n.elements && ChildNodes(m) == m.elements;
    forall i | 0 <= i < |n.elements|
      ensures BindsCreditMember(m.elements[i]) <==> BindsCreditMember(n.elements[i])
      ensures BindsCreditMember(n.elements[i]) ==> m.elements[i].name.text == n.elements[i].name.text
    {
      ChildCorresponds(n, m, i);
      CreditMemberIsKept(n.elements[i], m.elements[i]);
    }
  }

  lemma DeclarationBindsAsBefore(n: Node, m: Node, aliases: set<string>)
    requires Reordered(n, m) && n.VarDecl?
    ensures Binds(m, aliases) == Binds(n, aliases)
  {
    hide IsCreditRef, CreditElements, Reordered;
    DeclarationIsKept(n, m);
    if n.init.Some? {
      CreditRefIsKept(n.init.value, m.init.value, aliases);
    }
    LeavesAreKept(n.name, m.name);
    ShapeIsKept(n.name, m.name);
    if n.name.ObjectPattern? {
      CreditElementsAreKept(n.name, m.name);
    }
  }

  lemma BindsIsKept(n: Node, m: Node, aliases: set<string>)
    requires Reordered(n, m)
    ensures Binds(m, aliases) == Binds(n, aliases)
  {
    hide IsCreditRef, CreditElements, Reordered;
    ShapeIsKept(n, m);
    if n.VarDecl? {
      DeclarationBindsAsBefore(n, m, aliases);
    } else if n.Assign? {
      ChildCorresponds(n, m, 0);
      ChildCorresponds(n, m, 1);
      LeavesAreKept(n.left, m.left);
      CreditRefIsKept(n.right, m.right, aliases);
    }
  }

  // ----- A reordered tree holds the reordered nodes -----

  /** `m` is `n` or lies below it. */
  ghost predicate Within(m: Node, n: Node)
    decreases n
  {
    m == n || exists k :: k in ChildNodes(n) && Within(m, k)
  }

  lemma {:induction false} WalkVisitsWithin(m: Node, c: Child)
    ensures m in NodesIn(Walk(c)) <==> Within(m, c.node)
    decreases c.node
  {
    hide Children;
    var cs, ks := Children(c.node), ChildNodes(c.node);
    NodesOfList(c.node, cs, m);
    forall d | d in cs
      ensures d.node in ks
      ensures m in NodesIn(Walk(d)) <==> Within(m, d.node)
    {
      var i :| 0 <= i < |cs| && cs[i] == d;
      assert ks[i] == d.node;
      WalkVisitsWithin(m, cs[i]);
    }
    forall k | k in ks
      ensures exists d :: d in cs && d.node == k
    {
      var i :| 0 <= i < |ks| && ks[i] == k;
      assert cs[i] in cs;
    }
    assert forall x :: x in Walk(c) <==> x == c || x in WalkAll(c.node, cs);
  }

  lemma SameMembers(ks: seq<Node>, m: Node, x: Node)
    requires Arranges(ks, m)
    ensures x in ks <==> x in ChildNodes(m)
  {
    hide ChildNodes;
    assert x in ks <==> x in multiset(ks);
    assert x in ChildNodes(m) <==> x in multiset(ChildNodes(m));
  }

  lemma ChildForward(n: Node, m: Node, k: Node) returns (k': Node)
    requires Reordered(n, m) && k in ChildNodes(n)
    ensures k' in ChildNodes(m) && Reordered(k, k')
  {
    hide ChildNodes, Arranges;
    var ks :| Arranges(ks, m) && AllReordered(n, ks);
    var i :| 0 <= i < |ChildNodes(n)| && ChildNodes(n)[i] == k;
    k' := ks[i];
    SameMembers(ks, m, k');
  }

  lemma ChildBackward(n: Node, m: Node, k': Node) returns (k: Node)
    requires Reordered(n, m) && k' in ChildNodes(m)
    ensures k in ChildNodes(n) && Reordered(k, k')
  {
    hide ChildNodes, Arranges;
    var ks :| Arranges(ks, m) && AllReordered(n, ks);
    SameMembers(ks, m, k');
    var i :| 0 <= i < |ks| && ks[i] == k';
    k := ChildNodes(n)[i];
  }

  lemma {:induction false} WithinForward(x: Node, n: Node, m: Node) returns (y: Node)
    requires Reordered(n, m) && Within(x, n)
    ensures Within(y, m) && Reordered(x, y)
    decreases n
  {
    hide ChildNodes, Reordered;
    if x == n {
      y := m;
    } else {
      var k :| k in ChildNodes(n) && Within(x, k);
      var k' := ChildForward(n, m, k);
      y := WithinForward(x, k, k');
    }
  }

  lemma {:induction false} WithinBackward(y: Node, n: Node, m: Node) returns (x: Node)
    requires Reordered(n, m) && Within(y, m)
    ensures Within(x, n) && Reordered(x, y)
    decreases n
  {
    hide ChildNodes, Reordered;
    if y == m {
      x := n;
    } else {
      var k' :| k' in ChildNodes(m) && Within(y, k');
      var k := ChildBackward(n, m, k');
      x := WithinBackward(y, k, k');
    }
  }

  lemma ClosedSetsAreKept(file: Node, other: Node, aliases: set<string>)
    requires Reordered(file, other)
    ensures IsClosed(NodesOf(other), aliases) <==> IsClosed(NodesOf(file), aliases)
  {
    hide Children, Binds, Reordered, Within;
    var before, after := NodesOf(file), NodesOf(other);
    forall x | x in before
      ensures exists y :: y in after && Binds(y, aliases) == Binds(x, aliases)
    {
      WalkVisitsWithin(x, Child(file, false));
      var y := WithinForward(x, file, other);
      WalkVisitsWithin(y, Child(other, false));
      BindsIsKept(x, y, aliases);
    }
    forall y | y in after
      ensures exists x :: x in before && Binds(x, aliases) == Binds(y, aliases)
    {
      WalkVisitsWithin(y, Child(other, false));
      var x := WithinBackward(y, file, other);
      WalkVisitsWithin(x, Child(file, false));
      BindsIsKept(x, y, aliases);
    }
  }

  /** Reordering lists of statements of a file, at every depth and each list in its own way, leaves
      its aliases unchanged. */
  lemma OrderIsIrrelevant(file: Node, other: Node, a: set<string>, b: set<string>)
    requires Reordered(file, other)
    requires IsLeastClosed(NodesOf(file), a) && IsLeastClosed(NodesOf(other), b)
    ensures a == b
  {
    ClosedSetsAreKept(file, other, a);
    ClosedSetsAreKept(file, other, b);
  }

  // ----- What counts as a reordering -----

  lemma {:induction false} SameIsReordered(n: Node)
    ensures Reordered(n, n)
  {
    var ks := ChildNodes(n);
    forall i | 0 <= i < |ks|
      ensures Reordered(ks[i], ks[i])
    {
      assert ks[i] in ks;
      SameIsReordered(ks[i]);
    }
    assert Arranges(ks, n) && AllReordered(n, ks);
  }

  /** Reordering the statements of a list, each of them reordered inside, is a reordering. */
  lemma ListIsReordered(ss: seq<Node>, ks: seq<Node>, ts: seq<Node>)
    requires |ks| == |ss| && forall i :: 0 <= i < |ss| ==> Reordered(ss[i], ks[i])
    requires multiset(ks) == multiset(ts)
    ensures Reordered(Other(ss), Other(ts))
  {
    assert ChildNodes(Other(ss)) == ss && ChildNodes(Other(ts)) == ts;
    assert Arranges(ks, Other(ts)) && AllReordered(Other(ss), ks);
  }

  /** Of two equal statement lists, one can be reordered and the other not. */
  lemma EqualListsReorderApart(a: Node, b: Node)
    ensures Reordered(Other([Other([a, b]), Other([a, b])]), Other([Other([a, b]), Other([b, a])]))
  {
    hide Reordered;
    var kept, swapped := Other([a, b]), Other([b, a]);
    SameIsReordered(kept);
    SameIsReordered(a);
    SameIsReordered(b);
    ListIsReordered([a, b], [a, b], [b, a]);
    ListIsReordered([kept, kept], [kept, swapped], [kept, swapped]);
  }
}
