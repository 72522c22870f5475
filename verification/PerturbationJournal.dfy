/** The crash-safe perturbation journal (scripts/check-activation-effective.ts).

  A probe severs a real source file in place. The journal holds the original bytes while it does,
  and the next start drains it. Here every file operation may be the one during which the process
  dies: before it does anything, or, for a write, after any number of the bytes. */
module PerturbationJournal {
  import opened Options
  import opened JournalCodec
  import opened TornRecord

  type Files = map<string, string>

  /** One severing: `mutate` is the new text, or nothing when the anchor is missing (it throws). */
  datatype Probe = Probe(suite: string, target: string, mutate: string -> Option<string>)

  datatype ProbeResult = ProbeResult(suite: string, discriminated: bool, buildBroke: bool)

  /** The build and the suites, as functions of the tree they see. */
  datatype Toolchain = Toolchain(builds: Files -> bool, reds: (string, Files) -> bool)

  datatype Exit = Completed | Threw | Died

  /** What a probe finds when it runs alone on the tree `orig`. */
  function Judge(tools: Toolchain, probe: Probe, orig: Files): ProbeResult
    requires probe.target in orig && probe.mutate(orig[probe.target]).Some?
  {
    var severed := orig[probe.target := probe.mutate(orig[probe.target]).value];
    ProbeResult(probe.suite, tools.builds(severed) && tools.reds(probe.suite, severed), !tools.builds(severed))
  }

  /** What a result says about the toolchain: the build broke exactly when the severed tree does not
      build, and the suite discriminates exactly when that tree builds and turns the suite red. */
  ghost predicate Tells(tools: Toolchain, probe: Probe, orig: Files, severed: Files, result: ProbeResult) {
    && probe.target in orig && probe.mutate(orig[probe.target]).Some?
    && severed == orig[probe.target := probe.mutate(orig[probe.target]).value]
    && result.suite == probe.suite
    && (result.buildBroke <==> !tools.builds(severed))
    && (result.discriminated <==> tools.builds(severed) && tools.reds(probe.suite, severed))
  }

  /** A suite that does not notice the severing, green before and after, is never found to
      discriminate; one that does on a tree that builds always is. */
  lemma BlindSuiteIsFound(tools: Toolchain, probe: Probe, orig: Files, severed: Files, result: ProbeResult)
    requires Tells(tools, probe, orig, severed, result) && !tools.reds(probe.suite, orig)
    ensures tools.reds(probe.suite, severed) == tools.reds(probe.suite, orig) ==> !result.discriminated
    ensures result.discriminated ==> severed != orig && !result.buildBroke
  {
  }

  lemma JudgeTells(tools: Toolchain, probe: Probe, orig: Files)
    requires probe.target in orig && probe.mutate(orig[probe.target]).Some?
    ensures exists severed :: Tells(tools, probe, orig, severed, Judge(tools, probe, orig))
  {
    var severed := orig[probe.target := probe.mutate(orig[probe.target]).value];
    assert Tells(tools, probe, orig, severed, Judge(tools, probe, orig));
  }

  /** All the probes can be judged on `orig`: each target exists and each anchor is there. */
  predicate Judgeable(probes: seq<Probe>, orig: Files) {
    forall i :: 0 <= i < |probes| ==>
      probes[i].target in orig && probes[i].mutate(orig[probes[i].target]).Some?
  }

  /** Only the file named by `e` may differ from `orig`, and `e` holds its original. */
  ghost predicate Undoes(e: Entry, files: Files, orig: Files) {
    && e.path in orig && e.original == orig[e.path]
    && e.path in files && files == orig[e.path := files[e.path]]
  }

  /** Writing the named file, with anything, leaves the rest of the tree as it was. */
  lemma WritesStayUndoable(e: Entry, files: Files, orig: Files, data: string)
    requires Undoes(e, files, orig)
    ensures files[e.path := data] == orig[e.path := data]
    ensures Undoes(e, files[e.path := data], orig)
  {
  }

  /** The next drain will bring every file back to `orig`. */
  ghost predicate Recoverable(files: Files, journal: Option<string>, orig: Files) {
    match journal
    case None => files == orig
    case Some(text) =>
      match Decode(text)
      case None => files == orig
      case Some(e) => Undoes(e, files, orig)
  }

  /** Any text that a cut write of `whole` may read back as. */
  method Tear(whole: string) returns (left: string)
    ensures IsTorn(whole, left)
  {
    var k: nat :| k <= |whole|;
    left := whole[..k];
    if k < |whole| && IsWide(whole[k]) {
      if * {
        left := left + [REPLACEMENT];
      }
    }
    assert IsTornAt(whole, left, k);
  }

  class Disk {
    var files: Files
    var journal: Option<string>

    constructor (files: Files)
      ensures this.files == files && journal == None
    {
      this.files, journal := files, None;
    }

    ghost predicate IsClean(orig: Files)
      reads this
    {
      files == orig && journal == None
    }

    ghost predicate CanRecover(orig: Files)
      reads this
    {
      Recoverable(files, journal, orig)
    }

    // ----- File operations that may be the last -----

    method WriteFile(path: string, data: string) returns (alive: bool)
      modifies this`files
      ensures alive ==> files == old(files)[path := data]
      ensures !alive ==>
        (files == old(files) || exists left :: IsTorn(data, left) && files == old(files)[path := left])
    {
      alive := true;
      if * {
        alive := false;
        if * {
          var left := Tear(data);
          files := files[path := left];
        }
      } else {
        files := files[path := data];
      }
    }

    method WriteJournal(text: string) returns (alive: bool)
      modifies this`journal
      ensures alive ==> journal == Some(text)
      ensures !alive ==> journal == old(journal) || (journal.Some? && IsTorn(text, journal.value))
    {
      alive := true;
      if * {
        alive := false;
        if * {
          var left := Tear(text);
          journal := Some(left);
        }
      } else {
        journal := Some(text);
      }
    }

    method Unlink() returns (alive: bool)
      modifies this`journal
      ensures alive ==> journal == None
      ensures !alive ==> journal == old(journal) || journal == None
    {
      alive := true;
      if * {
        alive := false;
        if * {
          journal := None;
        }
      } else {
        journal := None;
      }
    }

    // ----- The journal -----

    /** On a clean tree, recording the original leaves the tree recoverable at every instant. */
    method OpenJournal(target: string, original: string, startedAt: string, ghost orig: Files) returns (alive: bool)
      requires IsClean(orig) && target in orig && original == orig[target]
      modifies this`journal
      ensures CanRecover(orig)
      ensures alive ==> journal == Some(Encode(Entry(target, original, startedAt)))
    {
      var e := Entry(target, original, startedAt);
      alive := WriteJournal(Encode(e));
      assert files == orig[target := files[target]];
      RoundTrip(e);
      if !alive && journal.Some? {
        TornRecordDoesNotParse(e, journal.value);
      }
    }

    method CloseJournal(ghost orig: Files) returns (alive: bool)
      requires files == orig && CanRecover(orig)
      modifies this`journal
      ensures CanRecover(orig)
      ensures alive ==> IsClean(orig)
    {
      alive := true;
      if journal.Some? {
        alive := Unlink();
      }
    }

    /** With the record open, its file may be written with anything, in whole or in part. */
    method WriteUnderJournal(e: Entry, data: string, ghost orig: Files) returns (alive: bool)
      requires CanRecover(orig) && journal == Some(Encode(e)) && Undoes(e, files, orig)
      modifies this`files
      ensures CanRecover(orig) && Undoes(e, files, orig)
      ensures alive ==> files == orig[e.path := data]
    {
      RoundTrip(e);
      alive := WriteFile(e.path, data);
      WritesStayUndoable(e, old(files), orig, data);
      if !alive && files != old(files) {
        var left :| IsTorn(data, left) && files == old(files)[e.path := left];
        WritesStayUndoable(e, old(files), orig, left);
      }
    }

    /** The drain: from any recoverable tree it ends clean, or dies leaving a recoverable tree. */
    method DrainStrandedPerturbation(ghost orig: Files) returns (alive: bool)
      requires CanRecover(orig)
      modifies this
      ensures CanRecover(orig)
      ensures alive ==> IsClean(orig)
    {
      alive := true;
      if journal.None? {
        return;
      }
      var parsed := Decode(journal.value);
      if parsed.None? {
        alive := CloseJournal(orig);
        return;
      }
      var e := parsed.value;
      alive := WriteFile(e.path, e.original);
      if !alive {
        if files != old(files) {
          var left :| IsTorn(e.original, left) && files == old(files)[e.path := left];
        }
        return;
      }
      assert files == orig;
      alive := CloseJournal(orig);
    }

    // ----- The probe loop -----

    /** One probe, with its `finally`: the tree is clean again unless the process died. The suite
        is judged on the original tree with this one severing in it, and nothing else. */
    method RunProbe(tools: Toolchain, probe: Probe, original: string, startedAt: string, ghost orig: Files)
      returns (exit: Exit, result: ProbeResult)
      requires IsClean(orig) && probe.target in orig && original == orig[probe.target]
      modifies this
      ensures CanRecover(orig)
      ensures exit != Died ==> IsClean(orig)
      ensures exit == Threw ==> probe.mutate(original).None?
      ensures exit == Completed ==> probe.mutate(original).Some? && result == Judge(tools, probe, orig)
      ensures exit == Completed ==> exists severed :: Tells(tools, probe, orig, severed, result)
    {
      result := ProbeResult(probe.suite, false, false);
      var e := Entry(probe.target, original, startedAt);
      var alive := OpenJournal(probe.target, original, startedAt, orig);
      if !alive {
        return Died, result;
      }
      RoundTrip(e);
      var mutated := probe.mutate(original);
      if mutated.Some? {
        alive := WriteUnderJournal(e, mutated.value, orig);
        if !alive {
          return Died, result;
        }
        if !tools.builds(files) {
          result := result.(buildBroke := true);
        } else {
          result := result.(discriminated := tools.reds(probe.suite, files));
        }
      }
      alive := WriteUnderJournal(e, original, orig);
      if !alive {
        return Died, result;
      }
      assert files == orig;
      alive := CloseJournal(orig);
      if !alive {
        return Died, result;
      }
      exit := if mutated.Some? then Completed else Threw;
      if mutated.Some? {
        JudgeTells(tools, probe, orig);
      }
    }

    /** All probes in order, each from the remembered or freshly read original of its target. */
    method RunProbes(tools: Toolchain, probes: seq<Probe>, startedAt: string, ghost orig: Files)
      returns (exit: Exit, results: seq<ProbeResult>)
      requires IsClean(orig)
      modifies this
      ensures CanRecover(orig)
      ensures exit != Died ==> IsClean(orig)
      ensures exit == Threw ==> !Judgeable(probes, orig)
      ensures exit == Completed ==>
        && Judgeable(probes, orig) && |results| == |probes|
        && forall i :: 0 <= i < |probes| ==> results[i] == Judge(tools, probes[i], orig)
    {
      results := [];
      var originals: map<string, string> := map[];
      for i := 0 to |probes|
        invariant IsClean(orig) && |results| == i
        invariant forall t :: t in originals ==> t in orig && originals[t] == orig[t]
        invariant Judgeable(probes[..i], orig)
        invariant forall j :: 0 <= j < i ==> results[j] == Judge(tools, probes[..i][j], orig)
      {
        var probe := probes[i];
        if probe.target !in originals && probe.target !in files {
          return Threw, results;
        }
        var original := if probe.target in originals then originals[probe.target] else files[probe.target];
        originals := originals[probe.target := original];
        var result;
        exit, result := RunProbe(tools, probe, original, startedAt, orig);
        if exit != Completed {
          return;
        }
        results := results + [result];
        assert probes[..i + 1] == probes[..i] + [probe];
      }
      exit := Completed;
      assert probes[..|probes|] == probes;
    }

    /** One start of the gate: drain, then probe. When the end is a caught signal, the handler drains
        again before the process exits; `drained` says that it lived to do so. */
    method Start(tools: Toolchain, probes: seq<Probe>, startedAt: string, ghost orig: Files)
      returns (exit: Exit, results: seq<ProbeResult>, drained: bool)
      requires CanRecover(orig)
      modifies this
      ensures CanRecover(orig)
      ensures exit != Died || drained ==> IsClean(orig)
      ensures exit == Completed ==>
        && Judgeable(probes, orig) && |results| == |probes|
        && forall i :: 0 <= i < |probes| ==> results[i] == Judge(tools, probes[i], orig)
    {
      results, drained := [], false;
      var alive := DrainStrandedPerturbation(orig);
      if !alive {
        return Died, results, false;
      }
      exit, results := RunProbes(tools, probes, startedAt, orig);
      if exit == Died {
        if * {
          drained := DrainStrandedPerturbation(orig);
        }
      }
    }

    /** Any number of starts, each of which may die anywhere, its own drain included; then the
        first drain that completes leaves every file with its original bytes and no journal. */
    method AnyHistory(tools: Toolchain, starts: seq<seq<Probe>>, startedAt: string, ghost orig: Files)
      returns (drained: bool)
      requires IsClean(orig)
      modifies this
      ensures CanRecover(orig)
      ensures drained ==> IsClean(orig)
    {
      for i := 0 to |starts|
        invariant CanRecover(orig)
      {
        var exit, results, drained' := Start(tools, starts[i], startedAt, orig);
      }
      drained := DrainStrandedPerturbation(orig);
    }
  }
}
