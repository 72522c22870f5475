/** The reports of the credit-caller scan do not depend on the order of statements either
  (scripts/check-credit-caller-allowlist.ts). */
module AliasReports {
  import opened AliasClosure
  import opened AliasOrder

  /** The same kind of report, about a node and its reordering. */
  ghost predicate Matches(s: Site, t: Site) {
    && (s.CreditCall? <==> t.CreditCall?) && (s.RenamedReExport? <==> t.RenamedReExport?)
    && Reordered(s.node, t.node)
  }

  ghost predicate MatchAll(xs: seq<Site>, ms: seq<Site>) {
    |xs| == |ms| && forall i :: 0 <= i < |xs| ==> Matches(xs[i], ms[i])
  }

  /** The reports of `ys`, in some order, match those of `xs` one by one. */
  ghost predicate Correspond(xs: seq<Site>, ys: seq<Site>) {
    exists ms :: MatchAll(xs, ms) && multiset(ms) == multiset(ys)
  }

  lemma CorrespondConcat(a: seq<Site>, a': seq<Site>, b: seq<Site>, b': seq<Site>)
    requires Correspond(a, a') && Correspond(b, b')
    ensures Correspond(a + b, a' + b')
  {
    hide Matches;
    var ms :| MatchAll(a, ms) && multiset(ms) == multiset(a');
    var ns :| MatchAll(b, ns) && multiset(ns) == multiset(b');
    assert MatchAll(a + b, ms + ns);
    assert multiset(ms + ns) == multiset(a' + b');
  }

  lemma CorrespondPermuted(xs: seq<Site>, ys: seq<Site>, zs: seq<Site>)
    requires Correspond(xs, ys) && multiset(ys) == multiset(zs)
    ensures Correspond(xs, zs)
  {
  }

  lemma NoneCorrespond()
    ensures Correspond([], [])
  {
    assert MatchAll([], []);
  }

  // ----- One place -----

  lemma CalleeNameIsKept(n: Node, m: Node)
    requires Reordered(n, m)
    ensures MemberName(n) == MemberName(m)
  {
    AccessIsKept(n, m);
  }

  lemma SiteIsKept(n: Node, m: Node, escapes: bool, aliases: set<string>)
    requires Reordered(n, m)
    ensures SiteAt(Child(n, escapes), aliases).Some? <==> SiteAt(Child(m, escapes), aliases).Some?
    ensures SiteAt(Child(n, escapes), aliases).Some? ==>
      Matches(SiteAt(Child(n, escapes), aliases).value, SiteAt(Child(m, escapes), aliases).value)
  {
    hide Reordered, IsCreditRef, MemberName;
    ShapeIsKept(n, m);
    if n.Call? {
      CalleeIsKept(n, m);
      CreditRefIsKept(n.callee, m.callee, aliases);
      CalleeNameIsKept(n.callee, m.callee);
    }
  }

  lemma PlacesCorrespond(n: Node, m: Node, escapes: bool, aliases: set<string>)
    requires Reordered(n, m)
    ensures Correspond(Sites([Child(n, escapes)], aliases), Sites([Child(m, escapes)], aliases))
  {
    hide Reordered, SiteAt, Matches;
    var c, d := Child(n, escapes), Child(m, escapes);
    SiteIsKept(n, m, escapes, aliases);
    SitesOfOne(c, aliases);
    SitesOfOne(d, aliases);
    assert MatchAll(Sites([c], aliases), Sites([d], aliases));
  }

  lemma SitesOfOne(c: Child, aliases: set<string>)
    ensures var site := SiteAt(c, aliases);
      Sites([c], aliases) == if site.Some? then [site.value] else []
  {
    assert [c][..0] == [];
  }

  // ----- Lists of places -----

  /** What the walks below each of `cs` report. */
  ghost function ListSites(cs: seq<Child>, aliases: set<string>): seq<Site> {
    if cs == [] then [] else
    var k := |cs| - 1;
    ListSites(cs[..k], aliases) + Sites(Walk(cs[k]), aliases)
  }

  lemma {:induction false} SitesOfList(n: Node, cs: seq<Child>, aliases: set<string>)
    requires forall i :: 0 <= i < |cs| ==> cs[i].node < n
    ensures Sites(WalkAll(n, cs), aliases) == ListSites(cs, aliases)
  {
    if cs != [] {
      var k := |cs| - 1;
      SitesOfList(n, cs[..k], aliases);
      assert cs[..k + 1] == cs;
      SitesOfLongerList(n, cs, k, aliases);
    }
  }

  ghost predicate CorrespondAt(cs: seq<Child>, ds: seq<Child>, aliases: set<string>, i: nat)
    requires i < |cs| == |ds|
  {
    Correspond(Sites(Walk(cs[i]), aliases), Sites(Walk(ds[i]), aliases))
  }

  lemma {:induction false} ListsCorrespond(cs: seq<Child>, ds: seq<Child>, aliases: set<string>)
    requires |cs| == |ds| && forall i :: 0 <= i < |cs| ==> CorrespondAt(cs, ds, aliases, i)
    ensures Correspond(ListSites(cs, aliases), ListSites(ds, aliases))
  {
    hide Correspond, Walk;
    if cs == [] {
      NoneCorrespond();
    } else {
      var k := |cs| - 1;
      forall i | 0 <= i < k
        ensures CorrespondAt(cs[..k], ds[..k], aliases, i)
      {
        assert CorrespondAt(cs, ds, aliases, i);
      }
      ListsCorrespond(cs[..k], ds[..k], aliases);
      assert CorrespondAt(cs, ds, aliases, k);
      CorrespondConcat(ListSites(cs[..k], aliases), ListSites(ds[..k], aliases),
                       Sites(Walk(cs[k]), aliases), Sites(Walk(ds[k]), aliases));
    }
  }

  lemma {:induction false} ListSitesOfConcat(cs: seq<Child>, ds: seq<Child>, aliases: set<string>)
    ensures ListSites(cs + ds, aliases) == ListSites(cs, aliases) + ListSites(ds, aliases)
  {
    hide Walk, Sites;
    if ds == [] {
      assert cs + ds == cs;
    } else {
      var k, all := |ds| - 1, cs + ds;
      assert all[..|all| - 1] == cs + ds[..k] && all[|all| - 1] == ds[k];
      ListSitesOfConcat(cs, ds[..k], aliases);
      var a, b, c := ListSites(cs, aliases), ListSites(ds[..k], aliases), Sites(Walk(ds[k]), aliases);
      assert (a + b) + c == a + (b + c);
    }
  }

  lemma ListSitesOfOne(c: Child, aliases: set<string>)
    ensures ListSites([c], aliases) == Sites(Walk(c), aliases)
  {
    assert [c][..0] == [];
  }

  lemma WithoutOne(cs: seq<Child>, c: Child, before: seq<Child>, after: seq<Child>)
    requires multiset(cs + [c]) == multiset(before + [c] + after)
    ensures multiset(cs) == multiset(before + after)
  {
    assert multiset(before + [c] + after) == multiset(before + after) + multiset{c};
    assert multiset(cs + [c]) == multiset(cs) + multiset{c};
    assert multiset(cs) == (multiset(cs) + multiset{c}) - multiset{c};
    assert multiset(before + after) == (multiset(before + after) + multiset{c}) - multiset{c};
  }

  /** Permuting the places permutes the reports. */
  lemma {:induction false} ListSitesOfPermuted(cs: seq<Child>, ds: seq<Child>, aliases: set<string>)
    requires multiset(cs) == multiset(ds)
    ensures multiset(ListSites(cs, aliases)) == multiset(ListSites(ds, aliases))
  {
    hide Walk, Sites, ListSites;
    if cs == [] {
      assert |ds| == |multiset(ds)| == 0;
    } else {
      var k, c := |cs| - 1, cs[|cs| - 1];
      assert cs == cs[..k] + [c] && c in multiset(ds);
      var j :| 0 <= j < |ds| && ds[j] == c;
      var rest := ds[..j] + ds[j + 1..];
      assert ds == ds[..j] + [c] + ds[j + 1..];
      WithoutOne(cs[..k], c, ds[..j], ds[j + 1..]);
      ListSitesOfPermuted(cs[..k], rest, aliases);
      ListSitesOfConcat(cs[..k], [c], aliases);
      ListSitesOfConcat(ds[..j], ds[j + 1..], aliases);
      ListSitesOfConcat(ds[..j], [c], aliases);
      ListSitesOfConcat(ds[..j] + [c], ds[j + 1..], aliases);
    }
  }

  // ----- Whole trees -----

  lemma PositionsAreKept(n: Node, m: Node, i: nat)
    requires SameShape(n, m) && !n.Other? && i < |Children(n)| == |Children(m)|
    ensures Children(n)[i].escapes == Children(m)[i].escapes
  {
  }

  ghost predicate AreArranged(n: Node, ds: seq<Child>) {
    |ds| == |Children(n)| && forall i :: 0 <= i < |ds| ==> IsArrangedAt(n, ds, i)
  }

  ghost predicate IsArrangedAt(n: Node, ds: seq<Child>, i: nat)
    requires i < |ds| == |Children(n)|
  {
    ds[i].escapes == Children(n)[i].escapes && Reordered(Children(n)[i].node, ds[i].node)
  }

  lemma StatementChildren(es: seq<Node>)
    ensures Children(Other(es)) == Plain(es, false) && ChildNodes(Other(es)) == es
  {
  }

  lemma ArrangedStatements(n: Node, m: Node) returns (ds: seq<Child>)
    requires Reordered(n, m) && n.Other?
    ensures AreArranged(n, ds) && multiset(ds) == multiset(Children(m))
  {
    var ks :| Arranges(ks, m) && AllReordered(n, ks);
    hide Reordered, Children, ChildNodes;
    StatementChildren(n.children);
    StatementChildren(m.children);
    ds := Plain(ks, false);
    PlainOfPermuted(ks, m.children);
    forall i | 0 <= i < |ds|
      ensures IsArrangedAt(n, ds, i)
    {
      assert Reordered(ChildNodes(n)[i], ks[i]);
    }
  }

  /** The children of `m`, statements arranged as `n` has them. */
  lemma ArrangedChildren(n: Node, m: Node) returns (ds: seq<Child>)
    requires Reordered(n, m)
    ensures AreArranged(n, ds) && multiset(ds) == multiset(Children(m))
  {
    hide Children, Reordered;
    if n.Other? {
      ds := ArrangedStatements(n, m);
    } else {
      ds := Children(m);
      ShapeIsKept(n, m);
      ChildCorresponds(n, m, 0);
      forall i | 0 <= i < |ds|
        ensures IsArrangedAt(n, ds, i)
      {
        ChildCorresponds(n, m, i);
        PositionsAreKept(n, m, i);
      }
    }
  }

  lemma {:induction false} PlainOfPermuted(ks: seq<Node>, ns: seq<Node>)
    requires multiset(ks) == multiset(ns)
    ensures multiset(Plain(ks, false)) == multiset(Plain(ns, false))
  {
    forall c: Child
      ensures multiset(Plain(ks, false))[c] == multiset(Plain(ns, false))[c]
    {
      CountInPlain(ks, c);
      CountInPlain(ns, c);
    }
  }

  lemma {:induction false} CountInPlain(ns: seq<Node>, c: Child)
    ensures multiset(Plain(ns, false))[c] == if c.escapes then 0 else multiset(ns)[c.node]
  {
    if ns == [] {
      assert Plain(ns, false) == [];
    } else {
      var k := |ns| - 1;
      CountInPlain(ns[..k], c);
      assert ns == ns[..k] + [ns[k]];
      assert Plain(ns, false) == Plain(ns[..k], false) + [Child(ns[k], false)];
    }
  }

  lemma {:induction false} TreesCorrespond(n: Node, m: Node, escapes: bool, aliases: set<string>)
    requires Reordered(n, m)
    ensures Correspond(Sites(Walk(Child(n, escapes)), aliases), Sites(Walk(Child(m, escapes)), aliases))
    decreases n
  {
    hide Reordered, Correspond, Walk, WalkAll, Sites, Children;
    var c, d := Child(n, escapes), Child(m, escapes);
    var cs := Children(n);
    var ds := ArrangedChildren(n, m);
    forall i | 0 <= i < |cs|
      ensures CorrespondAt(cs, ds, aliases, i)
    {
      assert IsArrangedAt(n, ds, i);
      TreesCorrespond(cs[i].node, ds[i].node, cs[i].escapes, aliases);
      assert Child(cs[i].node, cs[i].escapes) == cs[i] && Child(ds[i].node, cs[i].escapes) == ds[i];
    }
    ListsCorrespond(cs, ds, aliases);
    ListSitesOfPermuted(ds, Children(m), aliases);
    CorrespondPermuted(ListSites(cs, aliases), ListSites(ds, aliases), ListSites(Children(m), aliases));
    SitesOfList(n, cs, aliases);
    SitesOfList(m, Children(m), aliases);
    PlacesCorrespond(n, m, escapes, aliases);
    CorrespondConcat(Sites([c], aliases), Sites([d], aliases),
                     ListSites(cs, aliases), ListSites(Children(m), aliases));
    SitesOfWalk(c, aliases);
    SitesOfWalk(d, aliases);
  }

  /** Reordering the statement lists of a file changes its reports only in their order: each report
      has one of the same kind about the reordered node. */
  lemma ReportsKeepTheirKinds(file: Node, other: Node, a: set<string>, b: set<string>)
    requires Reordered(file, other)
    requires IsLeastClosed(NodesOf(file), a) && IsLeastClosed(NodesOf(other), b)
    ensures Correspond(Sites(Walk(Child(file, false)), a), Sites(Walk(Child(other, false)), b))
  {
    hide Reordered, Correspond, Walk, Sites, NodesOf;
    OrderIsIrrelevant(file, other, a, b);
    TreesCorrespond(file, other, false, a);
  }
}
