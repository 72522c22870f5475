/** The operator surface of the `motebit` CLI and its structural diff
  (scripts/check-cli-surface.ts). */
module CliSurface {
  import opened Collections

  datatype FlagType = StringFlag | BooleanFlag

  /** One key of a flag object with its content; `Named` is the key that holds the name. */
  datatype Attribute =
    | Named
    | Typed(kind: FlagType)
    | DefaultText(text: string)
    | DefaultBool(on: bool)
    | Short(letter: string)
    | Multiple(on: bool)

  /** A flag and its keys in the order the object holds them. Equality is that of `JSON.stringify`,
      whose text follows that order. */
  datatype FlagSpec = FlagSpec(name: string, attributes: seq<Attribute>)

  datatype Surface = Surface(
    subcommands: map<string, seq<string>>,
    flags: seq<FlagSpec>,
    exitCodes: seq<int>,
    onDiskLayout: seq<string>
  )

  datatype Diff =
    | SubcommandAdded(name: string)
    | SubcommandRemoved(name: string)
    | SubsubcommandAdded(parent: string, child: string)
    | SubsubcommandRemoved(parent: string, child: string)
    | FlagAdded(name: string)
    | FlagRemoved(name: string)
    | FlagChanged(name: string, was: FlagSpec, now: FlagSpec)
    | ExitCodeAdded(code: int)
    | ExitCodeRemoved(code: int)
    | PathAdded(path: string)
    | PathRemoved(path: string)

  /** Something a consumer used is gone or different. */
  predicate IsBreaking(d: Diff) {
    d.SubcommandRemoved? || d.SubsubcommandRemoved? || d.FlagRemoved? || d.FlagChanged?
    || d.ExitCodeRemoved? || d.PathRemoved?
  }

  // ----- What a surface offers -----

  /** The flag map `new Map(flags.map(f => [f.name, f]))`: the last flag of a name wins. */
  function FlagMap(flags: seq<FlagSpec>): map<string, FlagSpec> {
    if flags == [] then map[] else
    var last := flags[|flags| - 1];
    FlagMap(flags[..|flags| - 1])[last.name := last]
  }

  /** Some flag of the list has this name. */
  predicate HasFlag(flags: seq<FlagSpec>, name: string) {
    exists i :: 0 <= i < |flags| && flags[i].name == name
  }

  /** `f` is the last flag of this name. */
  predicate IsLastFlag(flags: seq<FlagSpec>, name: string, f: FlagSpec) {
    exists i :: 0 <= i < |flags| && flags[i] == f && IsLastAt(flags, name, i)
  }

  predicate IsLastAt(flags: seq<FlagSpec>, name: string, i: nat)
    requires i < |flags|
  {
    flags[i].name == name && forall j :: i < j < |flags| ==> flags[j].name != name
  }

  /** The map holds exactly the names of the list, each with the last flag of that name. */
  lemma {:induction false} FlagMapHoldsTheLast(flags: seq<FlagSpec>, name: string)
    ensures name in FlagMap(flags) <==> HasFlag(flags, name)
    ensures name in FlagMap(flags) ==> IsLastFlag(flags, name, FlagMap(flags)[name])
  {
    if flags != [] {
      var n := |flags| - 1;
      FlagMapHoldsTheLast(flags[..n], name);
      if flags[n].name == name {
        assert IsLastAt(flags, name, n);
      } else {
        assert forall i :: 0 <= i < n ==> flags[..n][i] == flags[i];
        if HasFlag(flags, name) {
          var i :| 0 <= i < |flags| && flags[i].name == name;
          assert flags[..n][i].name == name;
        }
        if name in FlagMap(flags[..n]) {
          var f := FlagMap(flags[..n])[name];
          var i :| 0 <= i < n && flags[..n][i] == f && IsLastAt(flags[..n], name, i);
          assert IsLastAt(flags, name, i);
        }
      }
    }
  }

  lemma LastFlagIsOne(flags: seq<FlagSpec>, name: string, f: FlagSpec, g: FlagSpec)
    requires IsLastFlag(flags, name, f)
    ensures HasFlag(flags, name)
    ensures IsLastFlag(flags, name, g) ==> f == g
  {
  }

  /** `s` offers the sub-subcommand `child` of `parent`. */
  predicate Offers(s: Surface, parent: string, child: string) {
    parent in s.subcommands && child in s.subcommands[parent]
  }

  /** Everything `base` offers, `cur` offers unchanged. */
  ghost predicate Contained(base: Surface, cur: Surface) {
    && base.subcommands.Keys <= cur.subcommands.Keys
    && (forall p, c :: Offers(base, p, c) ==> Offers(cur, p, c))
    && (forall n :: n in FlagMap(base.flags) ==>
          n in FlagMap(cur.flags) && FlagMap(cur.flags)[n] == FlagMap(base.flags)[n])
    && Elements(base.exitCodes) <= Elements(cur.exitCodes)
    && Elements(base.onDiskLayout) <= Elements(cur.onDiskLayout)
  }

  /** The two surfaces agree as sets and maps. */
  ghost predicate Agree(s: Surface, t: Surface) {
    && s.subcommands.Keys == t.subcommands.Keys
    && (forall p, c :: Offers(s, p, c) <==> Offers(t, p, c))
    && FlagMap(s.flags) == FlagMap(t.flags)
    && Elements(s.exitCodes) == Elements(t.exitCodes)
    && Elements(s.onDiskLayout) == Elements(t.onDiskLayout)
  }

  // ----- The diff -----

  /** The entries the diff of `cur` against `base` must hold. */
  predicate Differs(cur: Surface, base: Surface, d: Diff) {
    match d
    case SubcommandAdded(n) => n in cur.subcommands && n !in base.subcommands
    case SubcommandRemoved(n) => n in base.subcommands && n !in cur.subcommands
    case SubsubcommandAdded(p, c) => p in base.subcommands && Offers(cur, p, c) && !Offers(base, p, c)
    case SubsubcommandRemoved(p, c) => p in cur.subcommands && Offers(base, p, c) && !Offers(cur, p, c)
    case FlagAdded(n) => n in FlagMap(cur.flags) && n !in FlagMap(base.flags)
    case FlagRemoved(n) => n in FlagMap(base.flags) && n !in FlagMap(cur.flags)
    case FlagChanged(n, was, now) =>
      && n in FlagMap(base.flags) && FlagMap(base.flags)[n] == was
      && n in FlagMap(cur.flags) && FlagMap(cur.flags)[n] == now
      && was != now
    case ExitCodeAdded(k) => k in cur.exitCodes && k !in base.exitCodes
    case ExitCodeRemoved(k) => k in base.exitCodes && k !in cur.exitCodes
    case PathAdded(p) => p in cur.onDiskLayout && p !in base.onDiskLayout
    case PathRemoved(p) => p in base.onDiskLayout && p !in cur.onDiskLayout
  }

  /** The flag entries of the diff, on the lists of flags. */
  ghost predicate FlagsDiffer(cur: seq<FlagSpec>, base: seq<FlagSpec>, d: Diff) {
    match d
    case FlagAdded(n) => HasFlag(cur, n) && !HasFlag(base, n)
    case FlagRemoved(n) => HasFlag(base, n) && !HasFlag(cur, n)
    case FlagChanged(n, was, now) => IsLastFlag(base, n, was) && IsLastFlag(cur, n, now) && was != now
    case _ => false
  }

  lemma FlagDiffsAreExact(cur: Surface, base: Surface, d: Diff)
    requires d.FlagAdded? || d.FlagRemoved? || d.FlagChanged?
    ensures Differs(cur, base, d) <==> FlagsDiffer(cur.flags, base.flags, d)
  {
    hide FlagMap, HasFlag, IsLastFlag;
    var n := d.name;
    FlagMapHoldsTheLast(cur.flags, n);
    FlagMapHoldsTheLast(base.flags, n);
    if d.FlagChanged? && IsLastFlag(base.flags, n, d.was) && IsLastFlag(cur.flags, n, d.now) {
      LastFlagIsOne(base.flags, n, d.was, d.was);
      LastFlagIsOne(cur.flags, n, d.now, d.now);
      LastFlagIsOne(base.flags, n, d.was, FlagMap(base.flags)[n]);
      LastFlagIsOne(cur.flags, n, d.now, FlagMap(cur.flags)[n]);
    }
  }

  /** The diff is empty exactly when the surfaces agree. */
  lemma NoDiffMeansAgreement(cur: Surface, base: Surface)
    ensures (forall d :: !Differs(cur, base, d)) <==> Agree(cur, base)
  {
    if forall d :: !Differs(cur, base, d) {
      NoBreakMeansContainment(cur, base);
      forall n | n in cur.subcommands
        ensures n in base.subcommands
      {
        assert !Differs(cur, base, SubcommandAdded(n));
      }
      forall p, c | Offers(cur, p, c)
        ensures Offers(base, p, c)
      {
        assert !Differs(cur, base, SubsubcommandAdded(p, c));
      }
      forall n | n in FlagMap(cur.flags)
        ensures n in FlagMap(base.flags)
      {
        assert !Differs(cur, base, FlagAdded(n));
      }
      assert FlagMap(cur.flags).Keys == FlagMap(base.flags).Keys;
      forall k | k in cur.exitCodes
        ensures k in base.exitCodes
      {
        assert !Differs(cur, base, ExitCodeAdded(k));
      }
      forall p | p in cur.onDiskLayout
        ensures p in base.onDiskLayout
      {
        assert !Differs(cur, base, PathAdded(p));
      }
    } else if Agree(cur, base) {
      var d :| Differs(cur, base, d);
      AgreementHidesNothing(cur, base, d);
    }
  }

  lemma AgreementHidesNothing(cur: Surface, base: Surface, d: Diff)
    requires Agree(cur, base)
    ensures !Differs(cur, base, d)
  {
    assert forall k :: k in cur.exitCodes <==> k in Elements(cur.exitCodes);
    assert forall k :: k in base.exitCodes <==> k in Elements(base.exitCodes);
    assert forall p :: p in cur.onDiskLayout <==> p in Elements(cur.onDiskLayout);
    assert forall p :: p in base.onDiskLayout <==> p in Elements(base.onDiskLayout);
  }

  /** The diff has no breaking entry exactly when the baseline is contained in the surface. */
  lemma NoBreakMeansContainment(cur: Surface, base: Surface)
    ensures (forall d :: Differs(cur, base, d) ==> !IsBreaking(d)) <==> Contained(base, cur)
  {
    if forall d :: Differs(cur, base, d) ==> !IsBreaking(d) {
      forall n | n in base.subcommands
        ensures n in cur.subcommands
      {
        assert !Differs(cur, base, SubcommandRemoved(n));
      }
      forall p, c | Offers(base, p, c)
        ensures Offers(cur, p, c)
      {
        assert !Differs(cur, base, SubsubcommandRemoved(p, c));
      }
      forall n | n in FlagMap(base.flags)
        ensures n in FlagMap(cur.flags) && FlagMap(cur.flags)[n] == FlagMap(base.flags)[n]
      {
        assert !Differs(cur, base, FlagRemoved(n));
        assert !Differs(cur, base, FlagChanged(n, FlagMap(base.flags)[n], FlagMap(cur.flags)[n]));
      }
      forall k | k in base.exitCodes
        ensures k in cur.exitCodes
      {
        assert !Differs(cur, base, ExitCodeRemoved(k));
      }
      forall p | p in base.onDiskLayout
        ensures p in cur.onDiskLayout
      {
        assert !Differs(cur, base, PathRemoved(p));
      }
    } else if Contained(base, cur) {
      var d :| Differs(cur, base, d) && IsBreaking(d);
      ContainmentBreaksNothing(cur, base, d);
    }
  }

  lemma ContainmentBreaksNothing(cur: Surface, base: Surface, d: Diff)
    requires Contained(base, cur) && IsBreaking(d)
    ensures !Differs(cur, base, d)
  {
    assert forall k :: k in base.exitCodes ==> k in Elements(base.exitCodes);
    assert forall p :: p in base.onDiskLayout ==> p in Elements(base.onDiskLayout);
  }

  // ----- What a consumer relies on -----

  /** One thing a script around the CLI may use. */
  datatype Use =
    | Run(command: string)
    | RunSub(parent: string, child: string)
    | Pass(flag: FlagSpec)
    | ExpectExit(code: int)
    | Open(path: string)

  ghost predicate Supports(s: Surface, u: Use) {
    match u
    case Run(c) => c in s.subcommands
    case RunSub(p, c) => p in s.subcommands && c in s.subcommands[p]
    case Pass(f) => IsLastFlag(s.flags, f.name, f)
    case ExpectExit(k) => k in s.exitCodes
    case Open(p) => p in s.onDiskLayout
  }

  lemma FlagIsPassable(flags: seq<FlagSpec>, f: FlagSpec)
    ensures IsLastFlag(flags, f.name, f) <==> f.name in FlagMap(flags) && FlagMap(flags)[f.name] == f
  {
    hide FlagMap, IsLastFlag, HasFlag;
    FlagMapHoldsTheLast(flags, f.name);
    if IsLastFlag(flags, f.name, f) {
      LastFlagIsOne(flags, f.name, f, f);
      LastFlagIsOne(flags, f.name, f, FlagMap(flags)[f.name]);
    }
  }

  /** A change breaks nothing exactly when every use of the baseline still works. */
  lemma NoBreakMeansUsesWork(cur: Surface, base: Surface)
    ensures Contained(base, cur) <==> forall u :: Supports(base, u) ==> Supports(cur, u)
    ensures Breaks(cur, base) <==> exists u :: Supports(base, u) && !Supports(cur, u)
  {
    if Contained(base, cur) {
      forall u | Supports(base, u)
        ensures Supports(cur, u)
      {
        ContainedUse(base, cur, u);
      }
    }
    if forall u :: Supports(base, u) ==> Supports(cur, u) {
      UsesContain(base, cur);
    }
    NoBreakMeansContainment(cur, base);
  }

  lemma ContainedUse(base: Surface, cur: Surface, u: Use)
    requires Contained(base, cur) && Supports(base, u)
    ensures Supports(cur, u)
  {
    hide FlagMap, IsLastFlag;
    match u
    case Run(_) =>
    case RunSub(p, c) => assert Offers(base, p, c);
    case Pass(f) =>
      FlagIsPassable(base.flags, f);
      FlagIsPassable(cur.flags, f);
    case ExpectExit(k) => assert k in Elements(base.exitCodes);
    case Open(p) => assert p in Elements(base.onDiskLayout);
  }

  lemma UsesContain(base: Surface, cur: Surface)
    requires forall u :: Supports(base, u) ==> Supports(cur, u)
    ensures Contained(base, cur)
  {
    hide FlagMap, IsLastFlag;
    forall c | c in base.subcommands
      ensures c in cur.subcommands
    {
      assert Supports(base, Run(c));
    }
    forall p, c | Offers(base, p, c)
      ensures Offers(cur, p, c)
    {
      assert Supports(base, RunSub(p, c));
    }
    forall n | n in FlagMap(base.flags)
      ensures n in FlagMap(cur.flags) && FlagMap(cur.flags)[n] == FlagMap(base.flags)[n]
    {
      var f := FlagMap(base.flags)[n];
      FlagIsNamed(base.flags, n);
      FlagIsPassable(base.flags, f);
      assert Supports(base, Pass(f));
      FlagIsPassable(cur.flags, f);
    }
    forall k | k in Elements(base.exitCodes)
      ensures k in Elements(cur.exitCodes)
    {
      assert Supports(base, ExpectExit(k));
    }
    forall p | p in Elements(base.onDiskLayout)
      ensures p in Elements(cur.onDiskLayout)
    {
      assert Supports(base, Open(p));
    }
  }

  lemma {:induction false} FlagIsNamed(flags: seq<FlagSpec>, n: string)
    requires n in FlagMap(flags)
    ensures FlagMap(flags)[n].name == n
  {
    if flags[|flags| - 1].name != n {
      FlagIsNamed(flags[..|flags| - 1], n);
    }
  }

  // ----- Containment is a preorder -----

  lemma ContainedIsReflexive(s: Surface)
    ensures Contained(s, s)
  {
  }

  lemma ContainedIsTransitive(s: Surface, t: Surface, u: Surface)
    requires Contained(s, t) && Contained(t, u)
    ensures Contained(s, u)
  {
  }

  lemma AgreeIsMutualContainment(s: Surface, t: Surface)
    ensures Agree(s, t) <==> Contained(s, t) && Contained(t, s)
  {
  }

  ghost predicate StepIsNonBreaking(chain: seq<Surface>, i: nat)
    requires i < |chain| - 1
  {
    !Breaks(chain[i + 1], chain[i])
  }

  /** A chain of changes none of which breaks the one before breaks nothing end to end. */
  lemma {:induction false} NonBreakingChain(chain: seq<Surface>)
    requires chain != []
    requires forall i :: 0 <= i < |chain| - 1 ==> StepIsNonBreaking(chain, i)
    ensures Contained(chain[0], chain[|chain| - 1])
    ensures !Breaks(chain[|chain| - 1], chain[0])
  {
    var n := |chain| - 1;
    if n == 0 {
      ContainedIsReflexive(chain[0]);
    } else {
      forall i | 0 <= i < n - 1
        ensures StepIsNonBreaking(chain[..n], i)
      {
        assert StepIsNonBreaking(chain, i);
      }
      NonBreakingChain(chain[..n]);
      assert StepIsNonBreaking(chain, n - 1);
      NoBreakMeansContainment(chain[n], chain[n - 1]);
      ContainedIsTransitive(chain[0], chain[n - 1], chain[n]);
    }
    NoBreakMeansContainment(chain[n], chain[0]);
  }

  // ----- The diff as the gate computes it -----

  /** `diffSurfaces(cur, base).length > 0`. */
  ghost predicate Drifts(cur: Surface, base: Surface) {
    exists d :: Differs(cur, base, d)
  }

  /** `diffSurfaces(cur, base).some(isBreaking)`. */
  ghost predicate Breaks(cur: Surface, base: Surface) {
    exists d :: Differs(cur, base, d) && IsBreaking(d)
  }

  /** The two loops over one kind of name: those only in `from`, in any order, each pushed once. */
  method PushOnlyIn<T(==,!new)>(from: set<T>, other: set<T>, kind: T -> Diff, diffs: seq<Diff>) returns (out: seq<Diff>)
    requires Distinct(diffs)
    requires forall x, y :: kind(x) == kind(y) ==> x == y
    requires forall x :: x in from ==> kind(x) !in diffs
    ensures diffs <= out && Distinct(out)
    ensures forall d :: d in out <==> d in diffs || exists x :: x in from - other && kind(x) == d
  {
    out := diffs;
    var left := from;
    while left != {}
      invariant left <= from && diffs <= out && Distinct(out)
      invariant forall d :: d in out <==> d in diffs || exists x :: x in (from - left) - other && kind(x) == d
      decreases left
    {
      var x :| x in left;
      assert kind(x) !in out;
      left := left - {x};
      if x !in other {
        out := out + [kind(x)];
      }
      assert forall y :: y in (from - left) - other <==> y in (from - (left + {x})) - other || (y == x && x !in other);
    }
    assert from - left == from;
  }

  method DiffSubcommands(cur: Surface, base: Surface) returns (diffs: seq<Diff>)
    ensures Distinct(diffs)
    ensures forall d :: d in diffs <==>
      (d.SubcommandAdded? || d.SubcommandRemoved?) && Differs(cur, base, d)
  {
    var curTop, baseTop := cur.subcommands.Keys, base.subcommands.Keys;
    var added, removed := (n: string) => SubcommandAdded(n), (n: string) => SubcommandRemoved(n);
    assert forall d: Diff :: d.SubcommandAdded? ==> added(d.name) == d;
    assert forall d: Diff :: d.SubcommandRemoved? ==> removed(d.name) == d;
    diffs := PushOnlyIn(curTop, baseTop, added, []);
    diffs := PushOnlyIn(baseTop, curTop, removed, diffs);
  }

  method DiffSubsubcommands(cur: Surface, base: Surface) returns (diffs: seq<Diff>)
    ensures Distinct(diffs)
    ensures forall d :: d in diffs <==>
      (d.SubsubcommandAdded? || d.SubsubcommandRemoved?) && Differs(cur, base, d)
  {
    diffs := [];
    var left := cur.subcommands.Keys;
    while left != {}
      invariant left <= cur.subcommands.Keys && Distinct(diffs)
      invariant forall d :: d in diffs <==>
        (d.SubsubcommandAdded? || d.SubsubcommandRemoved?) && d.parent !in left && Differs(cur, base, d)
      decreases left
    {
      var p :| p in left;
      left := left - {p};
      if p in base.subcommands {
        var curKids, baseKids := Elements(cur.subcommands[p]), Elements(base.subcommands[p]);
        var added, removed := (c: string) => SubsubcommandAdded(p, c), (c: string) => SubsubcommandRemoved(p, c);
        assert forall d: Diff :: d.SubsubcommandAdded? && d.parent == p ==> added(d.child) == d;
        assert forall d: Diff :: d.SubsubcommandRemoved? && d.parent == p ==> removed(d.child) == d;
        diffs := PushOnlyIn(curKids, baseKids, added, diffs);
        diffs := PushOnlyIn(baseKids, curKids, removed, diffs);
      }
    }
  }

  /** The flags of the current surface that are new or differ. */
  method DiffOwnFlags(cur: Surface, base: Surface) returns (diffs: seq<Diff>)
    ensures Distinct(diffs)
    ensures forall d :: d in diffs <==> (d.FlagAdded? || d.FlagChanged?) && Differs(cur, base, d)
  {
    hide FlagMap;
    var curFlags, baseFlags := FlagMap(cur.flags), FlagMap(base.flags);
    diffs := [];
    var left := curFlags.Keys;
    while left != {}
      invariant left <= curFlags.Keys && Distinct(diffs)
      invariant forall d :: d in diffs <==>
        (d.FlagAdded? || d.FlagChanged?) && d.name !in left && Differs(cur, base, d)
      decreases left
    {
      var n :| n in left;
      left := left - {n};
      if n !in baseFlags {
        diffs := diffs + [FlagAdded(n)];
      } else if curFlags[n] != baseFlags[n] {
        diffs := diffs + [FlagChanged(n, baseFlags[n], curFlags[n])];
      }
    }
  }

  method DiffFlags(cur: Surface, base: Surface) returns (diffs: seq<Diff>)
    ensures Distinct(diffs)
    ensures forall d :: d in diffs <==>
      (d.FlagAdded? || d.FlagRemoved? || d.FlagChanged?) && Differs(cur, base, d)
    ensures forall d :: d in diffs <==> FlagsDiffer(cur.flags, base.flags, d)
  {
    hide FlagMap, HasFlag, IsLastFlag;
    diffs := DiffOwnFlags(cur, base);
    var removed := (n: string) => FlagRemoved(n);
    assert forall d: Diff :: d.FlagRemoved? ==> removed(d.name) == d;
    diffs := PushOnlyIn(FlagMap(base.flags).Keys, FlagMap(cur.flags).Keys, removed, diffs);
    forall d: Diff | d.FlagAdded? || d.FlagRemoved? || d.FlagChanged?
      ensures Differs(cur, base, d) <==> FlagsDiffer(cur.flags, base.flags, d)
    {
      FlagDiffsAreExact(cur, base, d);
    }
  }

  method DiffExitCodes(cur: Surface, base: Surface) returns (diffs: seq<Diff>)
    ensures Distinct(diffs)
    ensures forall d :: d in diffs <==>
      (d.ExitCodeAdded? || d.ExitCodeRemoved?) && Differs(cur, base, d)
  {
    var curCodes, baseCodes := Elements(cur.exitCodes), Elements(base.exitCodes);
    var added, removed := (k: int) => ExitCodeAdded(k), (k: int) => ExitCodeRemoved(k);
    assert forall d: Diff :: d.ExitCodeAdded? ==> added(d.code) == d;
    assert forall d: Diff :: d.ExitCodeRemoved? ==> removed(d.code) == d;
    diffs := PushOnlyIn(curCodes, baseCodes, added, []);
    diffs := PushOnlyIn(baseCodes, curCodes, removed, diffs);
  }

  method DiffPaths(cur: Surface, base: Surface) returns (diffs: seq<Diff>)
    ensures Distinct(diffs)
    ensures forall d :: d in diffs <==> (d.PathAdded? || d.PathRemoved?) && Differs(cur, base, d)
  {
    var curPaths, basePaths := Elements(cur.onDiskLayout), Elements(base.onDiskLayout);
    var added, removed := (p: string) => PathAdded(p), (p: string) => PathRemoved(p);
    assert forall d: Diff :: d.PathAdded? ==> added(d.path) == d;
    assert forall d: Diff :: d.PathRemoved? ==> removed(d.path) == d;
    diffs := PushOnlyIn(curPaths, basePaths, added, []);
    diffs := PushOnlyIn(basePaths, curPaths, removed, diffs);
  }

  /** The whole diff holds exactly the differences, each once; so it is empty exactly when the surfaces agree
      and free of breaking entries exactly when the baseline is contained in the surface. */
  method DiffSurfaces(cur: Surface, base: Surface) returns (diffs: seq<Diff>)
    ensures Distinct(diffs) && forall d :: d in diffs <==> Differs(cur, base, d)
    ensures forall d: Diff :: d.FlagAdded? || d.FlagRemoved? || d.FlagChanged? ==>
      (d in diffs <==> FlagsDiffer(cur.flags, base.flags, d))
    ensures diffs == [] <==> Agree(cur, base)
    ensures (forall d :: d in diffs ==> !IsBreaking(d)) <==> Contained(base, cur)
  {
    var names := DiffSubcommands(cur, base);
    var children := DiffSubsubcommands(cur, base);
    var flags := DiffFlags(cur, base);
    var codes := DiffExitCodes(cur, base);
    var paths := DiffPaths(cur, base);
    hide Differs, Distinct, Agree, Contained, IsBreaking;
    DistinctConcat(names, children);
    DistinctConcat(names + children, flags);
    DistinctConcat(names + children + flags, codes);
    DistinctConcat(names + children + flags + codes, paths);
    diffs := names + children + flags + codes + paths;
    NoDiffMeansAgreement(cur, base);
    NoBreakMeansContainment(cur, base);
    if diffs != [] {
      assert diffs[0] in diffs;
    }
  }
}
