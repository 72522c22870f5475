/** The surface lockfile as a protocol (scripts/check-cli-surface.ts): the gate in check mode, the
  stamp `--write` records, and what every run of gated changes and releases keeps.

  A tree is what the gate reads at one commit. Main moves from tree to tree; the merge queue runs
  the gate on each new tree with the tree before it as the merge-base. */
module ReleaseProtocol {
  import opened Options
  import opened Collections
  import opened CliSurface

  /** The committed lockfile: a surface and the major it is the contract for, if stamped. */
  datatype Baseline = Baseline(surface: Surface, stamp: Option<int>)

  /** `changesets` maps each pending changeset file to whether it declares `motebit: major`. */
  datatype Tree = Tree(surface: Surface, baseline: Option<Baseline>, pkgMajor: int, changesets: map<string, bool>)

  // ----- The pure decisions -----

  function Max(a: int, b: int): int {
    if a < b then b else a
  }

  ghost function StampForWrite(cur: Surface, previous: Option<Baseline>, pkgMajor: int): int {
    match previous
    case None => pkgMajor
    case Some(b) =>
      var prior := if b.stamp.Some? then b.stamp.value else pkgMajor;
      if Breaks(cur, b.surface) then Max(prior, pkgMajor + 1) else prior
  }

  /** What `--write` leaves in the lockfile. */
  ghost function Write(cur: Surface, previous: Option<Baseline>, pkgMajor: int): Baseline {
    Baseline(cur, Some(StampForWrite(cur, previous, pkgMajor)))
  }

  datatype SurfaceVerdict = Matches | Drift | UndeclaredMajor

  ghost function EvaluateSurface(cur: Surface, base: Surface, stamp: int, pkgMajor: int, majorPending: bool)
    : SurfaceVerdict
  {
    if Drifts(cur, base) then Drift
    else if stamp > pkgMajor && !majorPending then UndeclaredMajor
    else Matches
  }

  /** May this change pass against the lockfile at its merge-base? */
  ghost predicate EvaluateChangeSet(cur: Surface, mergeBase: Option<Baseline>, majorDeclared: bool) {
    mergeBase.None? || !Breaks(cur, mergeBase.value.surface) || majorDeclared
  }

  predicate HasPendingMajor(t: Tree) {
    exists f :: f in t.changesets && t.changesets[f]
  }

  /** The file declares a major now and did not at the merge-base. */
  predicate NewlyDeclares(head: Tree, base: Tree, f: string) {
    f in head.changesets && head.changesets[f] && !(f in base.changesets && base.changesets[f])
  }

  /** The change itself declares a major: by a changeset it adds, or by the version bump. */
  predicate DeclaresMajor(head: Tree, base: Tree) {
    (exists f :: f in head.changesets && NewlyDeclares(head, base, f)) || head.pkgMajor > base.pkgMajor
  }

  datatype Declaration = ByChangeset(file: string) | ByVersionBump

  /** The scan over the changeset files, in the order given, then the package version. */
  method MajorDeclaredInChangeSet(head: Tree, base: Tree, files: seq<string>) returns (found: Option<Declaration>)
    requires forall f :: f in files <==> f in head.changesets
    ensures found.Some? <==> DeclaresMajor(head, base)
    ensures found.Some? && found.value.ByChangeset? ==> NewlyDeclares(head, base, found.value.file)
    ensures found.Some? && found.value.ByVersionBump? ==>
      head.pkgMajor > base.pkgMajor && forall f :: !NewlyDeclares(head, base, f)
  {
    for i := 0 to |files|
      invariant forall j :: 0 <= j < i ==> !NewlyDeclares(head, base, files[j])
    {
      if head.changesets[files[i]] && !(files[i] in base.changesets && base.changesets[files[i]]) {
        return Some(ByChangeset(files[i]));
      }
    }
    found := if head.pkgMajor > base.pkgMajor then Some(ByVersionBump) else None;
  }

  // ----- The gate in check mode -----

  datatype Outcome =
    | NoBaseline | NoStamp | UnwrittenDrift | UnresolvedMergeBase | UndeclaredBreak | UndeclaredStamp | Green

  /** The checks in the order `main` makes them; `base` is the merge-base, if it resolves. */
  ghost function CheckMode(head: Tree, base: Option<Tree>): (o: Outcome)
    ensures base.None? ==> o != Green
    ensures head.baseline.Some? && head.baseline.value.stamp.Some? ==>
      (o == UnwrittenDrift <==> Drifts(head.surface, head.baseline.value.surface))
  {
    if head.baseline.None? then NoBaseline
    else if head.baseline.value.stamp.None? then NoStamp
    else
      var b := head.baseline.value;
      var verdict := EvaluateSurface(head.surface, b.surface, b.stamp.value, head.pkgMajor, HasPendingMajor(head));
      if verdict.Drift? then UnwrittenDrift
      else if base.None? then UnresolvedMergeBase
      else if !EvaluateChangeSet(head.surface, base.value.baseline, DeclaresMajor(head, base.value)) then
        UndeclaredBreak
      else if verdict.UndeclaredMajor? then UndeclaredStamp
      else Green
  }

  /** The gate run on the diffs it computes. */
  method RunGate(head: Tree, base: Option<Tree>, files: seq<string>) returns (outcome: Outcome)
    requires forall f :: f in files <==> f in head.changesets
    ensures outcome == CheckMode(head, base)
  {
    if head.baseline.None? {
      return NoBaseline;
    }
    var b := head.baseline.value;
    if b.stamp.None? {
      return NoStamp;
    }
    var drift := DiffSurfaces(head.surface, b.surface);
    NoDiffMeansAgreement(head.surface, b.surface);
    if drift != [] {
      return UnwrittenDrift;
    }
    if base.None? {
      return UnresolvedMergeBase;
    }
    if base.value.baseline.Some? {
      var diffs := DiffSurfaces(head.surface, base.value.baseline.value.surface);
      var breaking := exists i :: 0 <= i < |diffs| && IsBreaking(diffs[i]);
      assert breaking <==> Breaks(head.surface, base.value.baseline.value.surface) by {
        assert forall d :: d in diffs <==> exists i :: 0 <= i < |diffs| && diffs[i] == d;
      }
      var declared := MajorDeclaredInChangeSet(head, base.value, files);
      if breaking && declared.None? {
        return UndeclaredBreak;
      }
    }
    if b.stamp.value > head.pkgMajor && !HasPendingMajor(head) {
      return UndeclaredStamp;
    }
    return Green;
  }

  // ----- When each outcome is given -----

  /** The tree has a stamped lockfile that agrees with its surface. */
  ghost predicate IsLocked(t: Tree) {
    t.baseline.Some? && t.baseline.value.stamp.Some? && Agree(t.surface, t.baseline.value.surface)
  }

  /** Everything the lockfile of the merge-base offers is still offered, or a major is declared. */
  ghost predicate BreaksNothingUndeclared(head: Tree, base: Tree) {
    base.baseline.None? || Contained(base.baseline.value.surface, head.surface) || DeclaresMajor(head, base)
  }

  ghost predicate IsCovered(t: Tree) {
    t.baseline.Some? && t.baseline.value.stamp.Some? &&
    (t.baseline.value.stamp.value <= t.pkgMajor || exists f :: f in t.changesets && t.changesets[f])
  }

  /** Each outcome of the gate, on the surfaces alone. In particular a change that only adds is
      green. */
  lemma OutcomesAreExact(head: Tree, base: Option<Tree>)
    ensures CheckMode(head, base) == NoBaseline <==> head.baseline.None?
    ensures CheckMode(head, base) == NoStamp <==> head.baseline.Some? && head.baseline.value.stamp.None?
    ensures CheckMode(head, base) == UnwrittenDrift <==>
      head.baseline.Some? && head.baseline.value.stamp.Some? && !Agree(head.surface, head.baseline.value.surface)
    ensures CheckMode(head, base) == UnresolvedMergeBase <==> IsLocked(head) && base.None?
    ensures CheckMode(head, base) == UndeclaredBreak <==>
      && IsLocked(head) && base.Some? && base.value.baseline.Some?
      && !Contained(base.value.baseline.value.surface, head.surface) && !DeclaresMajor(head, base.value)
    ensures CheckMode(head, base) == UndeclaredStamp <==>
      IsLocked(head) && base.Some? && BreaksNothingUndeclared(head, base.value) && !IsCovered(head)
    ensures CheckMode(head, base) == Green <==>
      IsLocked(head) && base.Some? && BreaksNothingUndeclared(head, base.value) && IsCovered(head)
  {
    hide Agree, Contained, DeclaresMajor;
    if head.baseline.Some? {
      NoDiffMeansAgreement(head.surface, head.baseline.value.surface);
    }
    if base.Some? && base.value.baseline.Some? {
      NoBreakMeansContainment(head.surface, base.value.baseline.value.surface);
    }
  }

  /** What a write records: the package major first; then, as long as nothing is lost, the stamp
      that was there, and else the next major or the stamp that was there, whichever is higher. */
  lemma StampIsExact(cur: Surface, previous: Option<Baseline>, pkgMajor: int)
    ensures var stamp := StampForWrite(cur, previous, pkgMajor);
      && (previous.None? ==> stamp == pkgMajor)
      && (previous.Some? ==>
            var prior := if previous.value.stamp.Some? then previous.value.stamp.value else pkgMajor;
            if Contained(previous.value.surface, cur) then stamp == prior
            else stamp >= prior && stamp > pkgMajor && (stamp == prior || stamp == pkgMajor + 1))
  {
    hide Contained;
    if previous.Some? {
      NoBreakMeansContainment(cur, previous.value.surface);
    }
  }

  // ----- Runs of gated changes -----

  /** The change from `base` to `head` passes the gate in the merge queue. */
  ghost predicate GatedStep(base: Tree, head: Tree) {
    CheckMode(head, Some(base)) == Green
  }

  /** The gate on a push to main, where the merge-base is the commit itself. */
  ghost predicate IsGreen(t: Tree) {
    CheckMode(t, Some(t)) == Green
  }

  /** Where a tree stands: its package major, and half a step further with a major pending. */
  function Rank(t: Tree): int {
    2 * t.pkgMajor + if HasPendingMajor(t) then 1 else 0
  }

  const NOTHING := Surface(map[], [], [], [])

  /** The step takes a declared major back: it lowers the version, or keeps it and leaves no major
      pending where one was. The one harmless case is a version lowered by one under a newly pending
      major, from a tree that offers nothing. */
  predicate TakesBack(base: Tree, head: Tree) {
    && Rank(head) < Rank(base)
    && (Rank(head) + 1 < Rank(base) || HasPendingMajor(base) || base.surface != NOTHING)
  }

  ghost predicate GatedAt(run: seq<Tree>, i: nat)
    requires i < |run| - 1
  {
    GatedStep(run[i], run[i + 1])
  }

  /** Any run of gated changes from a green tree, however lockfiles, stamps, changesets and the
      version were edited. */
  ghost predicate GatedRun(run: seq<Tree>) {
    && run != [] && IsGreen(run[0])
    && forall i :: 0 <= i < |run| - 1 ==> GatedAt(run, i)
  }

  predicate TakesBackAt(run: seq<Tree>, i: nat)
    requires i < |run| - 1
  {
    TakesBack(run[i], run[i + 1])
  }

  lemma GreenTreesAreLocked(t: Tree, base: Option<Tree>)
    requires CheckMode(t, base) == Green
    ensures t.baseline.Some? && t.baseline.value.stamp.Some?
    ensures Agree(t.surface, t.baseline.value.surface)
    ensures t.baseline.value.stamp.value <= t.pkgMajor || HasPendingMajor(t)
    ensures IsGreen(t)
  {
    var s := t.baseline.value.surface;
    NoDiffMeansAgreement(t.surface, s);
    AgreeIsMutualContainment(t.surface, s);
    NoBreakMeansContainment(t.surface, s);
  }

  /** One gated step from a green tree: the surface is kept, or the change declares a major. */
  lemma GatedStepIsDeclared(base: Tree, head: Tree)
    requires IsGreen(base) && GatedStep(base, head)
    ensures IsGreen(head)
    ensures Contained(base.surface, head.surface) || HasPendingMajor(head) || head.pkgMajor > base.pkgMajor
  {
    GreenTreesAreLocked(base, Some(base));
    GreenTreesAreLocked(head, Some(base));
    var locked := base.baseline.value.surface;
    if !Breaks(head.surface, locked) {
      NoBreakMeansContainment(head.surface, locked);
      AgreeIsMutualContainment(base.surface, locked);
      ContainedIsTransitive(base.surface, locked, head.surface);
    }
  }

  lemma NothingIsContained(s: Surface, t: Surface)
    ensures Contained(NOTHING, t)
    ensures Contained(s, NOTHING) ==> s == NOTHING
  {
    assert s.flags != [] ==> s.flags[|s.flags| - 1].name in FlagMap(s.flags);
    assert s.exitCodes != [] ==> s.exitCodes[0] in Elements(s.exitCodes);
    assert s.onDiskLayout != [] ==> s.onDiskLayout[0] in Elements(s.onDiskLayout);
    assert s.subcommands.Keys == {} ==> s.subcommands == map[];
  }

  /** One gated step that takes nothing back, seen from an earlier tree `start`. */
  lemma StepKeepsRank(start: Tree, base: Tree, head: Tree)
    requires IsGreen(base) && GatedStep(base, head) && !TakesBack(base, head)
    requires Keeps(start, base)
    ensures Keeps(start, head)
  {
    hide Contained;
    GatedStepIsDeclared(base, head);
    NothingIsContained(start.surface, base.surface);
    if Contained(start.surface, base.surface) && Contained(base.surface, head.surface) {
      ContainedIsTransitive(start.surface, base.surface, head.surface);
    }
  }

  /** The rank has not fallen since `start`, and while it stands with nothing pending nothing is lost. */
  ghost predicate Keeps(start: Tree, t: Tree) {
    || start.surface == NOTHING
    || (&& Rank(start) <= Rank(t)
        && (Rank(start) == Rank(t) && !HasPendingMajor(t) ==> Contained(start.surface, t.surface)))
  }

  lemma {:induction false} RunKeeps(run: seq<Tree>, i: nat, j: nat)
    requires GatedRun(run) && i <= j < |run|
    requires forall k :: i <= k < j ==> !TakesBackAt(run, k)
    ensures Keeps(run[i], run[j])
    decreases j
  {
    if i < j {
      RunKeeps(run, i, j - 1);
      GatedRunIsGreen(run, j - 1);
      assert GatedAt(run, j - 1) && !TakesBackAt(run, j - 1);
      StepKeepsRank(run[i], run[j - 1], run[j]);
    } else {
      ContainedIsReflexive(run[i].surface);
    }
  }

  /** Safety over whole runs: if no step takes a declared major back, then a tree with nothing
      major pending offers, unchanged, all that any earlier tree of the same major offered. */
  lemma NoBreakWithinAMajor(run: seq<Tree>, i: nat, j: nat)
    requires GatedRun(run) && i <= j < |run|
    requires forall k :: i <= k < j ==> !TakesBackAt(run, k)
    ensures IsGreen(run[j])
    ensures run[i].pkgMajor == run[j].pkgMajor && !HasPendingMajor(run[j]) ==>
      Contained(run[i].surface, run[j].surface)
  {
    GatedRunIsGreen(run, j);
    RunKeeps(run, i, j);
    NothingIsContained(run[i].surface, run[j].surface);
  }

  lemma {:induction false} GatedRunIsGreen(run: seq<Tree>, i: nat)
    requires GatedRun(run) && i < |run|
    ensures IsGreen(run[i])
  {
    if i > 0 {
      GatedRunIsGreen(run, i - 1);
      assert GatedAt(run, i - 1);
      GatedStepIsDeclared(run[i - 1], run[i]);
    }
  }

  // ----- The condition is exact -----

  /** Some release of the run, carrying nothing major, offers what a later release of the same
      major lacks. */
  ghost predicate LosesSomething(run: seq<Tree>) {
    exists i, j :: 0 <= i <= j < |run| && LosesBetween(run[i], run[j])
  }

  ghost predicate LosesBetween(released: Tree, later: Tree) {
    && released.pkgMajor == later.pkgMajor && !HasPendingMajor(released) && !HasPendingMajor(later)
    && !Contained(released.surface, later.surface)
  }

  /** A gated run through this step that loses something, no other step taking a major back. */
  ghost predicate ShipsABreak(run: seq<Tree>, k: nat, base: Tree, head: Tree) {
    && GatedRun(run) && k < |run| - 1 && run[k] == base && run[k + 1] == head
    && (forall q :: 0 <= q < |run| - 1 && q != k ==> !TakesBackAt(run, q))
    && LosesSomething(run)
  }

  function FreshCode(codes: seq<int>): (k: int)
    ensures forall c :: c in codes ==> c < k
  {
    if codes == [] then 0 else
    assert forall c :: c in codes ==> c == codes[0] || c in codes[1..];
    Max(FreshCode(codes[1..]), codes[0] + 1)
  }

  /** A green tree of this surface and major, with nothing pending. */
  function ReleaseOf(surface: Surface, major: int): Tree {
    Tree(surface, Some(Baseline(surface, Some(major))), major, map[])
  }

  lemma ReleaseIsGreen(surface: Surface, major: int)
    ensures IsGreen(ReleaseOf(surface, major)) && !HasPendingMajor(ReleaseOf(surface, major))
  {
    NoDiffMeansAgreement(surface, surface);
    NoBreakMeansContainment(surface, surface);
  }

  /** From a lower major to a green tree, or to one with a major pending at the same major, every
      change of surface is declared. */
  lemma DeclaredStepIsGated(released: Tree, next: Tree, base: Option<Tree>)
    requires CheckMode(next, base) == Green && released.changesets == map[]
    requires next.pkgMajor > released.pkgMajor || HasPendingMajor(next)
    ensures GatedStep(released, next)
  {
    if HasPendingMajor(next) {
      var f :| f in next.changesets && next.changesets[f];
      assert NewlyDeclares(next, released, f);
    }
  }

  /** A surface with one exit code that neither of two others has. */
  lemma Enlarged(s: Surface, t: Surface) returns (larger: Surface)
    ensures !Contained(larger, s) && !Contained(larger, t)
  {
    var code := FreshCode(s.exitCodes + t.exitCodes);
    assert code !in s.exitCodes && code !in t.exitCodes by {
      assert forall c :: c in s.exitCodes || c in t.exitCodes ==> c in s.exitCodes + t.exitCodes;
    }
    larger := s.(exitCodes := [code]);
    assert code in Elements(larger.exitCodes) by {
      assert larger.exitCodes[0] == code;
    }
  }

  /** The release that follows a tree with a major pending may drop everything. */
  lemma NextReleaseMayDropAll(t: Tree) returns (next: Tree)
    requires IsGreen(t) && HasPendingMajor(t)
    ensures next == ReleaseOf(NOTHING, t.pkgMajor + 1)
    ensures GatedStep(t, next) && !TakesBack(t, next) && IsGreen(next) && !HasPendingMajor(next)
  {
    next := ReleaseOf(NOTHING, t.pkgMajor + 1);
    ReleaseIsGreen(NOTHING, t.pkgMajor + 1);
  }

  /** The first major at which `head` can come to rest with nothing pending. */
  function RestsAt(head: Tree): int {
    if HasPendingMajor(head) then head.pkgMajor + 1 else head.pkgMajor
  }

  /** Before any step that takes a major back there may stand a release that is lost after it. */
  lemma TakenBackMajorShipsABreak(base: Tree, head: Tree) returns (run: seq<Tree>, k: nat)
    requires IsGreen(base) && GatedStep(base, head) && TakesBack(base, head)
    ensures ShipsABreak(run, k, base, head)
  {
    GreenTreesAreLocked(head, Some(base));
    var m := RestsAt(head);
    var before, after := [], [];
    if m < base.pkgMajor || HasPendingMajor(base) {
      var larger := Enlarged(head.surface, NOTHING);
      before := [ReleaseOf(larger, m)];
      ReleaseIsGreen(larger, m);
      DeclaredStepIsGated(before[0], base, Some(base));
    }
    if HasPendingMajor(head) {
      var next := NextReleaseMayDropAll(head);
      after := [next];
    }
    run, k := before + [base, head] + after, |before|;
    RunAround(before, base, head, after);
    NothingIsContained(base.surface, NOTHING);
    assert LosesBetween(run[0], run[|run| - 1]);
  }

  /** At most one tree before the step and one after it. */
  lemma RunAround(before: seq<Tree>, base: Tree, head: Tree, after: seq<Tree>)
    requires |before| <= 1 && |after| <= 1 && IsGreen(base) && GatedStep(base, head)
    requires before != [] ==>
      IsGreen(before[0]) && GatedStep(before[0], base) && !TakesBack(before[0], base)
    requires after != [] ==> GatedStep(head, after[0]) && !TakesBack(head, after[0])
    ensures var run := before + [base, head] + after;
      && GatedRun(run) && run[|before|] == base && run[|before| + 1] == head
      && forall q :: 0 <= q < |run| - 1 && q != |before| ==> !TakesBackAt(run, q)
  {
    var run := before + [base, head] + after;
    forall q | 0 <= q < |run| - 1
      ensures GatedAt(run, q) && (q != |before| ==> !TakesBackAt(run, q))
    {
      if q < |before| {
        assert run[q] == before[0] && run[q + 1] == base;
      } else if q > |before| {
        assert run[q] == head && run[q + 1] == after[0];
      }
    }
  }

  /** For every gated step: it can complete the loss of something a release offered, as the only
      step of its run to take a major back, if and only if it takes a major back. */
  lemma TakingBackIsExactlyTheHole(base: Tree, head: Tree)
    requires IsGreen(base) && GatedStep(base, head)
    ensures TakesBack(base, head) <==> exists run, k :: ShipsABreak(run, k, base, head)
  {
    if TakesBack(base, head) {
      var run, k := TakenBackMajorShipsABreak(base, head);
    } else if exists run, k :: ShipsABreak(run, k, base, head) {
      var run, k :| ShipsABreak(run, k, base, head);
      var i, j :| 0 <= i <= j < |run| && LosesBetween(run[i], run[j]);
      assert !TakesBackAt(run, k);
      NoBreakWithinAMajor(run, i, j);
    }
  }

  const BEFORE := Surface(map[], [], [0, 130], [])
  const AFTER := Surface(map[], [], [0], [])

  lemma ExitCodeIsLost()
    ensures !Contained(BEFORE, AFTER)
  {
    assert 130 in Elements(BEFORE.exitCodes) && 130 !in Elements(AFTER.exitCodes) by {
      assert BEFORE.exitCodes[1] == 130;
    }
  }

  /** A tree with its surface locked and stamped. */
  function Locked(surface: Surface, stamp: int, major: int, changesets: map<string, bool>): Tree {
    Tree(surface, Some(Baseline(surface, Some(stamp))), major, changesets)
  }

  lemma LockedIsGated(base: Tree, surface: Surface, stamp: int, major: int, changesets: map<string, bool>)
    requires var t := Locked(surface, stamp, major, changesets);
      && (stamp <= major || HasPendingMajor(t))
      && (base.baseline == Some(Baseline(surface, Some(stamp))) || DeclaresMajor(t, base))
    ensures GatedStep(base, Locked(surface, stamp, major, changesets))
    ensures IsGreen(Locked(surface, stamp, major, changesets))
  {
    NoDiffMeansAgreement(surface, surface);
    NoBreakMeansContainment(surface, surface);
  }

  /** Three green trees, the first and the last releases of one major, and exit code 130 is gone. */
  ghost predicate LosesExitCode(run: seq<Tree>) {
    && GatedRun(run) && |run| == 3 && LosesBetween(run[0], run[2])
    && run[0].surface == BEFORE && run[2].surface == AFTER
  }

  lemma ThreeTrees(t0: Tree, t1: Tree, t2: Tree)
    requires IsGreen(t0) && GatedStep(t0, t1) && GatedStep(t1, t2)
    requires t0.pkgMajor == t2.pkgMajor && !HasPendingMajor(t0) && !HasPendingMajor(t2)
    requires t0.surface == BEFORE && t2.surface == AFTER
    ensures LosesExitCode([t0, t1, t2])
  {
    ExitCodeIsLost();
    var run := [t0, t1, t2];
    assert GatedAt(run, 0) && GatedAt(run, 1);
  }

  const DROP_130 := map["drop-130.md" := true]

  /** The second tree drops the code, declares a major and hand-sets the stamp back; the third
      deletes the changeset. */
  lemma HandSetStampLetsABreakThrough() returns (run: seq<Tree>)
    ensures LosesExitCode(run) && run[0].pkgMajor == run[1].pkgMajor
  {
    var t0 := ReleaseOf(BEFORE, 1);
    var t1, t2 := Locked(AFTER, 1, 1, DROP_130), Locked(AFTER, 1, 1, map[]);
    ReleaseIsGreen(BEFORE, 1);
    assert NewlyDeclares(t1, t0, "drop-130.md");
    LockedIsGated(t0, AFTER, 1, 1, DROP_130);
    LockedIsGated(t1, AFTER, 1, 1, map[]);
    ThreeTrees(t0, t1, t2);
    run := [t0, t1, t2];
  }

  /** The second tree drops the code and raises the version; the third lowers it again. No tree has
      a major pending. */
  lemma LoweredVersionLetsABreakThrough() returns (run: seq<Tree>)
    ensures LosesExitCode(run) && forall i :: 0 <= i < |run| ==> !HasPendingMajor(run[i])
  {
    var t0, t1, t2 := ReleaseOf(BEFORE, 1), Locked(AFTER, 1, 2, map[]), Locked(AFTER, 1, 1, map[]);
    ReleaseIsGreen(BEFORE, 1);
    LockedIsGated(t0, AFTER, 1, 2, map[]);
    LockedIsGated(t1, AFTER, 1, 1, map[]);
    ThreeTrees(t0, t1, t2);
    run := [t0, t1, t2];
  }

  /** The second tree lowers the version, drops the code and declares a major for it; the third is
      its release, which ships the break under the major of the first. Every stamp is the one
      `--write` records. */
  lemma ReusedMajorLetsABreakThrough() returns (run: seq<Tree>)
    ensures LosesExitCode(run) && HasPendingMajor(run[1]) && run[2] == Release(run[1])
    ensures run[1].baseline == Some(Write(run[1].surface, run[0].baseline, run[1].pkgMajor))
  {
    var t0 := ReleaseOf(BEFORE, 2);
    var t1, t2 := Locked(AFTER, 2, 1, DROP_130), Locked(AFTER, 2, 2, map[]);
    ReleaseIsGreen(BEFORE, 2);
    assert NewlyDeclares(t1, t0, "drop-130.md");
    LockedIsGated(t0, AFTER, 2, 1, DROP_130);
    LockedIsGated(t1, AFTER, 2, 2, map[]);
    ThreeTrees(t0, t1, t2);
    run := [t0, t1, t2];
  }

  // ----- Runs whose stamps come only from `--write` -----

  /** The lockfile after any number of writes within one change. */
  ghost function WriteAll(b: Baseline, surfaces: seq<Surface>, pkgMajor: int): (w: Baseline)
    requires b.stamp.Some?
    ensures w.stamp.Some?
  {
    if surfaces == [] then b else
    var n := |surfaces| - 1;
    Write(surfaces[n], Some(WriteAll(b, surfaces[..n], pkgMajor)), pkgMajor)
  }

  /** A gated change that does not lower the version and whose lockfile is what its writes left,
      made under the version before the change, after it or between. */
  ghost predicate HonestMerge(base: Tree, head: Tree) {
    && GatedStep(base, head) && base.pkgMajor <= head.pkgMajor
    && base.baseline.Some? && base.baseline.value.stamp.Some?
    && exists surfaces, major :: base.pkgMajor <= major <= head.pkgMajor &&
         head.baseline == Some(WriteAll(base.baseline.value, surfaces, major))
  }

  /** `changeset version`: the pending changesets are consumed and the version moves with them. */
  function Release(t: Tree): Tree {
    t.(pkgMajor := if HasPendingMajor(t) then t.pkgMajor + 1 else t.pkgMajor, changesets := map[])
  }

  ghost predicate HonestAt(run: seq<Tree>, i: nat)
    requires i < |run| - 1
  {
    HonestMerge(run[i], run[i + 1]) || run[i + 1] == Release(run[i])
  }

  ghost predicate HonestRun(run: seq<Tree>) {
    && run != [] && IsGreen(run[0]) && Promise(run[0]) <= run[0].pkgMajor + 1
    && forall i :: 0 <= i < |run| - 1 ==> HonestAt(run, i)
  }

  /** The stamp of a stamped tree. */
  function Promise(t: Tree): int {
    if t.baseline.Some? && t.baseline.value.stamp.Some? then t.baseline.value.stamp.value else t.pkgMajor
  }

  /** Writes never lower the stamp or push it past the next major, and if they end on a surface
      that lacks something, they promise that major. */
  lemma {:induction false} WritesKeepThePromise(b: Baseline, surfaces: seq<Surface>, pkgMajor: int)
    requires b.stamp.Some?
    ensures var w := WriteAll(b, surfaces, pkgMajor);
      && b.stamp.value <= w.stamp.value <= Max(b.stamp.value, pkgMajor + 1)
      && (Contained(b.surface, w.surface) || w.stamp.value > pkgMajor)
  {
    if surfaces == [] {
      ContainedIsReflexive(b.surface);
    } else {
      var n := |surfaces| - 1;
      WritesKeepThePromise(b, surfaces[..n], pkgMajor);
      var mid := WriteAll(b, surfaces[..n], pkgMajor);
      NoBreakMeansContainment(surfaces[n], mid.surface);
      if Contained(b.surface, mid.surface) && Contained(mid.surface, surfaces[n]) {
        ContainedIsTransitive(b.surface, mid.surface, surfaces[n]);
      }
    }
  }

  /** The release commit is green with no further action. */
  lemma ReleaseCommitIsGreen(t: Tree)
    requires IsGreen(t) && Promise(t) <= t.pkgMajor + 1
    ensures GatedStep(t, Release(t)) && IsGreen(Release(t))
    ensures Promise(Release(t)) <= Release(t).pkgMajor
  {
  }

  /** The first lockfile ever written makes its tree green, against any merge-base without one. */
  lemma FirstWriteIsGreen(cur: Surface, pkgMajor: int, changesets: map<string, bool>, base: Tree)
    requires base.baseline.None?
    ensures CheckMode(Tree(cur, Some(Write(cur, None, pkgMajor)), pkgMajor, changesets), Some(base)) == Green
  {
    NoDiffMeansAgreement(cur, cur);
  }

  /** What one honest step keeps. */
  lemma HonestStepKeeps(base: Tree, head: Tree)
    requires IsGreen(base) && Promise(base) <= base.pkgMajor + 1
    requires HonestMerge(base, head) || head == Release(base)
    ensures IsGreen(head) && Promise(head) <= head.pkgMajor + 1
    ensures Promise(base) <= Promise(head) && base.pkgMajor <= head.pkgMajor
    ensures head.pkgMajor == base.pkgMajor ==>
      Contained(base.surface, head.surface) || Promise(head) > head.pkgMajor
  {
    GreenTreesAreLocked(base, Some(base));
    if head == Release(base) {
      ReleaseCommitIsGreen(base);
      ContainedIsReflexive(base.surface);
    } else {
      GreenTreesAreLocked(head, Some(base));
      var b, w := base.baseline.value, head.baseline.value;
      var surfaces, major :| base.pkgMajor <= major <= head.pkgMajor &&
        head.baseline == Some(WriteAll(b, surfaces, major));
      WritesKeepThePromise(b, surfaces, major);
      AgreeIsMutualContainment(base.surface, b.surface);
      AgreeIsMutualContainment(head.surface, w.surface);
      if Contained(b.surface, w.surface) {
        ContainedIsTransitive(base.surface, b.surface, w.surface);
        ContainedIsTransitive(base.surface, w.surface, head.surface);
      }
    }
  }

  /** Over every run with honest stamps: each tree is green, stamps never fall and never pass the
      next major, and within a major a missing or altered item keeps the stamp ahead. */
  lemma {:induction false} HonestRunKeeps(run: seq<Tree>, i: nat, j: nat)
    requires HonestRun(run) && i <= j < |run|
    ensures IsGreen(run[j]) && Promise(run[j]) <= run[j].pkgMajor + 1
    ensures Promise(run[i]) <= Promise(run[j]) && run[i].pkgMajor <= run[j].pkgMajor
    ensures run[i].pkgMajor == run[j].pkgMajor ==>
      Contained(run[i].surface, run[j].surface) || Promise(run[j]) > run[j].pkgMajor
    decreases j
  {
    if j > 0 {
      var before := if i < j then i else i - 1;
      HonestRunKeeps(run, before, j - 1);
      assert HonestAt(run, j - 1);
      HonestStepKeeps(run[j - 1], run[j]);
      if i == j {
        ContainedIsReflexive(run[i].surface);
      } else if Contained(run[i].surface, run[j - 1].surface) && Contained(run[j - 1].surface, run[j].surface) {
        ContainedIsTransitive(run[i].surface, run[j - 1].surface, run[j].surface);
      }
    } else {
      ContainedIsReflexive(run[0].surface);
    }
  }

  /** With honest stamps no assumption about deleted changesets is needed. */
  lemma HonestStampsForbidBreaks(run: seq<Tree>, i: nat, j: nat)
    requires HonestRun(run) && i <= j < |run|
    requires run[i].pkgMajor == run[j].pkgMajor && !HasPendingMajor(run[j])
    ensures Contained(run[i].surface, run[j].surface)
  {
    HonestRunKeeps(run, i, j);
    GreenTreesAreLocked(run[j], Some(run[j]));
  }

  /** After a break, a change that deletes every pending major and touches nothing else is
      refused on the stamp. */
  lemma DeletingTheDeclarationIsRefused(run: seq<Tree>, i: nat, j: nat, head: Tree)
    requires HonestRun(run) && i <= j < |run|
    requires run[i].pkgMajor == run[j].pkgMajor && !Contained(run[i].surface, run[j].surface)
    requires head == run[j].(changesets := head.changesets) && !HasPendingMajor(head)
    ensures CheckMode(head, Some(run[j])) == UndeclaredStamp
  {
    HonestRunKeeps(run, i, j);
    GreenTreesAreLocked(run[j], Some(run[j]));
    NoDiffMeansAgreement(head.surface, head.baseline.value.surface);
  }
}
