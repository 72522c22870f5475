/** The capped line diff of the identity-authority census
  (scripts/check-identity-authority-inventory.ts). */
module CensusDrift {
  import opened Options
  import opened Text

  /** One reported line: its number from 1, and which of the two texts it is from. */
  datatype Drift = Committed(line: nat, text: string) | Fresh(line: nat, text: string) | WhitespaceOnly

  // ----- How a line is shown -----

  /** The number of white space characters `s` starts with. */
  function LeadingSpace(s: string): (n: nat)
    ensures n <= |s| && (n < |s| ==> !IsSpace(s[n]))
    ensures s != "" && IsSpace(s[0]) ==> n > 0
  {
    if s == "" || !IsSpace(s[0]) then 0 else 1 + LeadingSpace(s[1..])
  }

  /** `s.replace(/\s{2,}/g, " ")`. */
  function Folded(s: string): string
    decreases |s|
  {
    if s == "" then ""
    else
      var n := LeadingSpace(s);
      if n == 0 then [s[0]] + Folded(s[1..])
      else (if n == 1 then [s[0]] else " ") + Folded(s[n..])
  }

  const SHOWN: nat := 200

  function Shown(line: string): string {
    if |Folded(line)| <= SHOWN then Folded(line) else Folded(line)[..SHOWN]
  }

  /** White space stands next to white space. */
  predicate HasSpaceRun(s: string) {
    exists i :: 0 <= i < |s| - 1 && IsRunAt(s, i)
  }

  predicate IsRunAt(s: string, i: nat)
    requires i < |s| - 1
  {
    IsSpace(s[i]) && IsSpace(s[i + 1])
  }

  lemma {:induction false} FoldedHasNoRun(s: string)
    ensures !HasSpaceRun(Folded(s))
    ensures s != "" ==> Folded(s) != "" && (IsSpace(Folded(s)[0]) <==> IsSpace(s[0]))
    decreases |s|
  {
    hide IsSpace;
    if s != "" {
      var n := LeadingSpace(s);
      var k := if n == 0 then 1 else n;
      FoldedHasNoRun(s[k..]);
      var rest, all := Folded(s[k..]), Folded(s);
      assert IsSpace(' ') by {
        BlankIsSpace();
      }
      assert all == [all[0]] + rest;
      forall i | 0 <= i < |all| - 1
        ensures !IsRunAt(all, i)
      {
        if i > 0 {
          assert !IsRunAt(rest, i - 1);
        }
      }
    }
  }

  lemma BlankIsSpace()
    ensures IsSpace(' ')
  {
  }

  lemma {:induction false} FoldedKeeps(s: string)
    requires !HasSpaceRun(s)
    ensures Folded(s) == s
  {
    hide IsSpace;
    if s != "" {
      if |s| > 1 {
        assert !IsRunAt(s, 0);
      }
      assert LeadingSpace(s) <= 1;
      forall i | 0 <= i < |s[1..]| - 1
        ensures !IsRunAt(s[1..], i)
      {
        assert !IsRunAt(s, i + 1);
      }
      FoldedKeeps(s[1..]);
    }
  }

  lemma {:induction false} LeadingSpaceOf(space: string, rest: string)
    requires IsAllSpace(space) && (rest == "" || !IsSpace(rest[0]))
    ensures LeadingSpace(space + rest) == |space|
  {
    hide IsSpace;
    if space == "" {
      assert space + rest == rest;
    } else {
      assert (space + rest)[1..] == space[1..] + rest;
      LeadingSpaceOf(space[1..], rest);
    }
  }

  lemma LeadingSpaceIsAll(s: string, n: nat)
    requires n == LeadingSpace(s)
    ensures IsAllSpace(s[..n])
  {
    hide IsSpace;
    if n > 0 {
      LeadingSpaceIsAll(s[1..], n - 1);
      assert s[..n] == [s[0]] + s[1..][..n - 1];
    }
  }

  /** What the first character or run of white space is shown as, and how much it takes. */
  function FirstShown(s: string, n: nat): string
    requires s != ""
  {
    if n <= 1 then [s[0]] else " "
  }

  function FirstTaken(n: nat): nat {
    if n == 0 then 1 else n
  }

  lemma FoldedStep(s: string, n: nat)
    requires s != "" && n == LeadingSpace(s)
    ensures Folded(s) == FirstShown(s, n) + Folded(s[FirstTaken(n)..])
  {
  }

  /** With `a` not all white space, what comes after it does not change its first step. */
  lemma LeadingSpaceStays(a: string, after: string) returns (n: nat)
    requires a != "" && !IsSpace(a[|a| - 1])
    ensures n == LeadingSpace(a) < |a| && LeadingSpace(a + after) == n
    ensures n > 0 ==> a[n..] != "" && a[n..][|a[n..]| - 1] == a[|a| - 1]
  {
    hide IsSpace, LeadingSpace;
    n := LeadingSpace(a);
    LeadingSpaceIsAll(a, n);
    assert forall i :: 0 <= i < n ==> a[..n][i] == a[i];
    LeadingSpaceOf(a[..n], a[n..] + after);
    assert a + after == a[..n] + (a[n..] + after);
  }

  /** A run of white space between two texts that do not touch it with their own is shown as one
      space, a single white space character as it is, and the texts on their own. */
  lemma {:induction false} FoldedOfRun(a: string, run: string, b: string)
    requires run != "" && IsAllSpace(run)
    requires (a == "" || !IsSpace(a[|a| - 1])) && (b == "" || !IsSpace(b[0]))
    ensures Folded(a + run + b) == Folded(a) + (if |run| == 1 then run else " ") + Folded(b)
    decreases |a|
  {
    hide IsSpace, LeadingSpace, Folded, IsAllSpace, FirstShown;
    var s, shown := a + run + b, if |run| == 1 then run else " ";
    if a == "" {
      FoldedOfLeadingRun(run, b);
      FoldedOfNothing();
      assert s == run + b && "" + shown == shown;
    } else {
      assert s == a + (run + b);
      var n := LeadingSpaceStays(a, run + b);
      var k := FirstTaken(n);
      FoldedStep(s, n);
      FoldedStep(a, n);
      SameFirst(a, s, n);
      assert s[k..] == a[k..] + run + b;
      FoldedOfRun(a[k..], run, b);
      Regrouped(FirstShown(a, n), Folded(a[k..]), shown, Folded(b));
    }
  }

  lemma FoldedOfLeadingRun(run: string, b: string)
    requires run != "" && IsAllSpace(run) && (b == "" || !IsSpace(b[0]))
    ensures Folded(run + b) == (if |run| == 1 then run else " ") + Folded(b)
  {
    hide IsSpace, LeadingSpace, Folded, IsAllSpace;
    LeadingSpaceOf(run, b);
    FoldedStep(run + b, |run|);
    assert (run + b)[|run|..] == b;
  }

  lemma SameFirst(a: string, s: string, n: nat)
    requires a != "" && a <= s
    ensures FirstShown(a, n) == FirstShown(s, n)
  {
  }

  lemma Regrouped(a: string, b: string, c: string, d: string)
    ensures a + (b + c + d) == (a + b) + c + d
  {
  }

  lemma FoldedOfNothing()
    ensures Folded("") == ""
  {
  }

  /** The text shown is the folded line up to the cut. */
  lemma ShownIsCutFolded(line: string)
    ensures Shown(line) <= Folded(line)
    ensures |Shown(line)| == if |Folded(line)| < 200 then |Folded(line)| else 200
  {
  }

  /** A line is shown without runs of white space and within the cut, and as it is if it is so. */
  lemma ShownIsShort(line: string)
    ensures |Shown(line)| <= SHOWN && !HasSpaceRun(Shown(line))
    ensures !HasSpaceRun(line) && |line| <= SHOWN ==> Shown(line) == line
  {
    FoldedHasNoRun(line);
    forall i | 0 <= i < |Shown(line)| - 1
      ensures !IsRunAt(Shown(line), i)
    {
      assert !IsRunAt(Folded(line), i);
    }
    if !HasSpaceRun(line) {
      FoldedKeeps(line);
    }
  }

  // ----- Differing lines -----

  function LineAt(lines: seq<string>, i: nat): Option<string> {
    if i < |lines| then Some(lines[i]) else None
  }

  /** The two line lists differ at `i`, a missing line counting as different from any line. */
  predicate DiffersAt(a: seq<string>, b: seq<string>, i: nat) {
    LineAt(a, i) != LineAt(b, i)
  }

  /** What the entry claims about the two texts holds. */
  predicate IsTruthful(a: seq<string>, b: seq<string>, d: Drift) {
    match d
    case Committed(n, t) => 1 <= n <= |a| && Shown(a[n - 1]) == t && DiffersAt(a, b, n - 1)
    case Fresh(n, t) => 1 <= n <= |b| && Shown(b[n - 1]) == t && DiffersAt(a, b, n - 1)
    case WhitespaceOnly => false
  }

  lemma DifferentTextsDifferAtALine(s: string, t: string)
    requires s != t
    ensures exists i :: 0 <= i < |Split(s)| + |Split(t)| && DiffersAt(Split(s), Split(t), i)
  {
    hide Split;
    var a, b := Split(s), Split(t);
    if forall i :: 0 <= i < |a| + |b| ==> !DiffersAt(a, b, i) {
      assert |a| > |b| ==> DiffersAt(a, b, |b|);
      assert |b| > |a| ==> DiffersAt(a, b, |a|);
      assert |a| == |b|;
      forall i | 0 <= i < |a|
        ensures a[i] == b[i]
      {
        assert !DiffersAt(a, b, i);
      }
      SplitIsInjective(s, t);
    }
  }

  // ----- The whole difference -----

  /** What line `i` contributes: its committed text, then its fresh text. */
  function LineDrift(a: seq<string>, b: seq<string>, i: nat): seq<Drift> {
    if !DiffersAt(a, b, i) then [] else
    (if i < |a| then [Committed(i + 1, Shown(a[i]))] else []) + (if i < |b| then [Fresh(i + 1, Shown(b[i]))] else [])
  }

  /** The whole difference of the first `n` lines. */
  function AllDrift(a: seq<string>, b: seq<string>, n: nat): seq<Drift> {
    if n == 0 then [] else AllDrift(a, b, n - 1) + LineDrift(a, b, n - 1)
  }

  function Longer(a: seq<string>, b: seq<string>): nat {
    if |a| > |b| then |a| else |b|
  }

  /** At most the first `cap` entries. */
  function Capped(ds: seq<Drift>, cap: int): (first: seq<Drift>)
    ensures first <= ds
    ensures |first| == |ds| || (cap >= 0 && |first| == cap < |ds|) || (cap < 0 && first == [])
  {
    if cap <= 0 then [] else if |ds| <= cap then ds else ds[..cap]
  }

  lemma TruthIsNumbered(a: seq<string>, b: seq<string>, d: Drift)
    ensures IsTruthful(a, b, d) ==> !d.WhitespaceOnly? && d.line >= 1
  {
  }

  lemma LineDriftIsTruthful(a: seq<string>, b: seq<string>, i: nat, d: Drift)
    ensures d in LineDrift(a, b, i) <==> IsTruthful(a, b, d) && d.line == i + 1
  {
    hide Shown;
  }

  lemma {:induction false} AllDriftIsTruthful(a: seq<string>, b: seq<string>, n: nat, d: Drift)
    ensures d in AllDrift(a, b, n) <==> IsTruthful(a, b, d) && d.line <= n
  {
    hide LineDrift, IsTruthful;
    assert IsTruthful(a, b, d) ==> !d.WhitespaceOnly? && d.line >= 1 by {
      TruthIsNumbered(a, b, d);
    }
    if n > 0 {
      AllDriftIsTruthful(a, b, n - 1, d);
      LineDriftIsTruthful(a, b, n - 1, d);
      assert d in AllDrift(a, b, n) <==> d in AllDrift(a, b, n - 1) || d in LineDrift(a, b, n - 1);
    }
  }

  /** Listed before: on an earlier line, or committed before fresh on the same. */
  predicate Precedes(d: Drift, e: Drift) {
    && !d.WhitespaceOnly? && !e.WhitespaceOnly?
    && (d.line < e.line || (d.line == e.line && d.Committed? && e.Fresh?))
  }

  ghost predicate InLineOrder(ds: seq<Drift>) {
    forall i, j :: 0 <= i < j < |ds| ==> Precedes(ds[i], ds[j])
  }

  lemma LineDriftIsOrdered(a: seq<string>, b: seq<string>, i: nat)
    ensures InLineOrder(LineDrift(a, b, i))
  {
  }

  lemma OrderOfConcat(xs: seq<Drift>, ys: seq<Drift>)
    requires InLineOrder(xs) && InLineOrder(ys)
    requires forall d, e :: d in xs && e in ys ==> Precedes(d, e)
    ensures InLineOrder(xs + ys)
  {
    hide Precedes;
  }

  lemma {:induction false} AllDriftIsOrdered(a: seq<string>, b: seq<string>, n: nat)
    ensures InLineOrder(AllDrift(a, b, n))
  {
    hide LineDrift;
    if n > 0 {
      var before, here := AllDrift(a, b, n - 1), LineDrift(a, b, n - 1);
      AllDriftIsOrdered(a, b, n - 1);
      LineDriftIsOrdered(a, b, n - 1);
      forall d, e | d in before && e in here
        ensures Precedes(d, e)
      {
        AllDriftIsTruthful(a, b, n - 1, d);
        LineDriftIsTruthful(a, b, n - 1, e);
      }
      OrderOfConcat(before, here);
    }
  }

  /** The whole difference: every committed and every fresh text of a differing line, in line order,
      and nothing else. */
  lemma WholeDifferenceIsExact(a: seq<string>, b: seq<string>)
    ensures forall d :: d in AllDrift(a, b, Longer(a, b)) <==> IsTruthful(a, b, d)
    ensures InLineOrder(AllDrift(a, b, Longer(a, b)))
  {
    forall d
      ensures d in AllDrift(a, b, Longer(a, b)) <==> IsTruthful(a, b, d)
    {
      AllDriftIsTruthful(a, b, Longer(a, b), d);
    }
    AllDriftIsOrdered(a, b, Longer(a, b));
  }

  lemma CappedOfConcat(xs: seq<Drift>, ys: seq<Drift>, cap: int)
    requires |xs| >= cap
    ensures Capped(xs + ys, cap) == Capped(xs, cap)
  {
  }

  lemma {:induction false} CappedStaysFull(a: seq<string>, b: seq<string>, i: nat, n: nat, cap: int)
    requires i <= n && |AllDrift(a, b, i)| >= cap
    ensures Capped(AllDrift(a, b, n), cap) == Capped(AllDrift(a, b, i), cap)
    ensures |AllDrift(a, b, n)| >= cap
    decreases n
  {
    hide LineDrift, Capped;
    if i < n {
      CappedStaysFull(a, b, i, n - 1, cap);
      CappedOfConcat(AllDrift(a, b, n - 1), LineDrift(a, b, n - 1), cap);
    }
  }

  /** The first `cap` entries of the whole difference; for differing texts under a cap below one, and
      only for those, the whitespace-only line. */
  method DriftOf(committed: string, rendered: string, cap: int) returns (out: seq<Drift>)
    ensures out == [] <==> committed == rendered
    ensures committed != rendered ==>
      out == if cap < 1 then [WhitespaceOnly] else
      Capped(AllDrift(Split(committed), Split(rendered), Longer(Split(committed), Split(rendered))), cap)
  {
    hide AllDrift, LineDrift, Split;
    if committed == rendered {
      return [];
    }
    var a, b := Split(committed), Split(rendered);
    out := [];
    var n := Longer(a, b);
    var i := 0;
    NoDriftYet(a, b);
    while i < n && |out| < cap
      invariant 0 <= i <= n
      invariant out == Capped(AllDrift(a, b, i), cap)
    {
      out := PushLine(a, b, i, cap, out);
      OneMoreLine(a, b, i);
      i := i + 1;
    }
    if i < n {
      CappedStaysFull(a, b, i, n, cap);
    }
    DriftIsNotEmpty(committed, rendered);
    if out == [] {
      out := [WhitespaceOnly];
    }
  }

  method PushLine(a: seq<string>, b: seq<string>, i: nat, cap: int, before: seq<Drift>) returns (out: seq<Drift>)
    requires |before| < cap
    ensures out == Capped(before + LineDrift(a, b, i), cap)
  {
    out := before;
    if DiffersAt(a, b, i) {
      if i < |a| {
        out := out + [Committed(i + 1, Shown(a[i]))];
      }
      if i < |b| && |out| < cap {
        out := out + [Fresh(i + 1, Shown(b[i]))];
      }
    }
  }

  lemma NoDriftYet(a: seq<string>, b: seq<string>)
    ensures AllDrift(a, b, 0) == []
  {
  }

  lemma OneMoreLine(a: seq<string>, b: seq<string>, i: nat)
    ensures AllDrift(a, b, i + 1) == AllDrift(a, b, i) + LineDrift(a, b, i)
  {
  }

  lemma DriftIsNotEmpty(s: string, t: string)
    requires s != t
    ensures AllDrift(Split(s), Split(t), Longer(Split(s), Split(t))) != []
  {
    hide Shown, Split, AllDrift;
    var a, b := Split(s), Split(t);
    DifferentTextsDifferAtALine(s, t);
    var i :| 0 <= i < |a| + |b| && DiffersAt(a, b, i);
    var d := if i < |a| then Committed(i + 1, Shown(a[i])) else Fresh(i + 1, Shown(b[i]));
    AllDriftIsTruthful(a, b, Longer(a, b), d);
  }
}
