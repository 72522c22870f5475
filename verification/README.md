# Motebit gate models

A Dafny model of the decision cores of motebit's repository gates: the scripts under `scripts/` that
decide whether a dependency graph, a CLI surface, a source tree, a review history or a generated
document may pass. Each module models one core and proves what holds of it for every input, every run
or every reachable state. `dafny verify dfyconfig.toml` checks the whole project.

| module | what it models |
|---|---|
| `DependencyGraph`, `LayerOrder` | the cycle search and the layer check of the dependency gate |
| `CliSurface`, `ReleaseProtocol` | the surface diff, the lockfile gate and its stamp, and runs of gated changes and releases |
| `JsonText`, `JournalCodec`, `TornRecord`, `PerturbationJournal` | the undo journal of the activation probes, with a crash possible inside every file operation, and why no JSON reader accepts a torn record |
| `ReplaceOnce` | the anchor replacement the probes use |
| `AliasClosure`, `AliasParts`, `AliasRules`, `AliasOrder`, `AliasReports` | the credit-caller scan: alias closure, reported sites, what the walk visits and the rules mean, independence of statement order |
| `ReviewVerdict`, `MergeGroup` | standing reviews, the verdict over review histories, paged fetching, merge groups |
| `DelegatorCache`, `DelegatorCallers` | the memo of bootstrapped delegators under every interleaving, and what its callers see |
| `SpecTable`, `SpecRows`, `MarkedBlock`, `SpecWrite` | rewriting and checking the generated endpoint table of the auth-token specification, and when a write comes out clean |
| `SelfKnowledge` | heading splitting and term statistics of the corpus builder |
| `CensusDrift` | the capped line diff of the identity census |
| `Text`, `Collections`, `Options` | string searching, line splitting, lists without repeats and lists of places, optional values |

Functions that a law is stated with are themselves pinned down by laws that do not use them: which
parts of a tree a walk visits, which flags a list offers, what text order means, which lines match the
row pattern, which outcome the gate gives. Code that mutates state is a class or a method with loops, tied by its `ensures` to a function or a
declarative predicate; the laws are lemmas about those. Results worth reading first:

* `DependencyGraph.CheckCircularDeps`: every report is a simple cycle, and every cycle of the graph
  runs through the closing edge of a reported one. That is more than "a report exists if and only if
  a cycle does", which follows.
* `LayerOrder.SilenceIsExactlyAsStrongAsTheTable`: a silent layer check keeps registered packages off
  cycles if and only if every table entry is below the application tier.
* `ReleaseProtocol.NoBreakWithinAMajor` and `TakingBackIsExactlyTheHole`: over every run of gated
  changes, with lockfiles, stamps, changesets and the version edited at will, nothing offered under a
  major is lost under it, unless a step takes a declared major back: lowers the version, or keeps it
  and leaves no major pending where one was. Every such step can complete a loss, and no other step
  can; the one harmless way to lower the version is by one, under a newly pending major, from a tree
  that offers nothing.
  With stamps from `--write` alone and a version that is never lowered (`HonestStampsForbidBreaks`),
  changesets may be deleted at will; a lowered version still lets a break through
  (`ReusedMajorLetsABreakThrough`).
* `PerturbationJournal.Disk.AnyHistory`: after any number of starts that die anywhere, the first
  drain that completes restores every file.
* `AliasClosure.CreditSites` and `AliasRules.ReportsAreTheUses`: the scan gives, in the order of its walk, one report for each place
  that uses a credit function outright or through a chain of names of any length.
  `AliasOrder.OrderIsIrrelevant`, `AliasReports.ReportsKeepTheirKinds`: reordering statement lists,
  each in its own way and at any depth, changes no alias and permutes the reports.
* `DelegatorCallers.ToldCallerRetries`: over every interleaving, a caller who has been told of a
  failed bootstrap is handed a newer attempt whenever it asks again.
* `SpecWrite.WriteIsExact`: for every file, when a write comes out clean and when a second write
  changes nothing, judged from the file the write is given.
* `ReviewVerdict.FailsUntilLifted`: over every history, a failing pull request fails until the first
  event that lifts it, with the lifting events characterised exactly.

Three properties one might expect do not hold of the code, and the exact condition is proved instead.
"The replacement succeeds exactly when the anchor occurs once" holds if and only if the anchor is not
empty and cannot overlap itself (`ReplaceOnce.UniquenessIsExact`). "A check right after a write of a
file whose markers are in order is clean" fails when the row loop rewrites away a marker that stands
in a stale row's cell (`SpecWrite.StaleCellLosesTheOrder`). A write of any file comes out clean if and
only if the markers outside the cells of stale rows are both there and the begin marker comes first
(`SpecWrite.WriteIsExact`); when no stale row's cell holds a marker, that is the order of the markers
in the file (`SpecWrite.FileOrderIsExact`). "A break never ships within a major" fails in three ways,
by a deleted changeset, a lowered version and a reused major (`ReleaseProtocol`'s
`HandSetStampLetsABreakThrough`, `LoweredVersionLetsABreakThrough`, `ReusedMajorLetsABreakThrough`);
the steps that can cause it are exactly those that take a declared major back
(`TakingBackIsExactlyTheHole`).

Where the code and its own text disagree the model follows the code: a comment in
`scripts/check-deps.ts` puts applications at layer 5 and the constant is 7; the refusal in
`fetchReviews` speaks of more than 3000 reviews and is given from 3000 on.

## Model

| member | source | states |
|---|---|---|
| `DependencyGraph.GraphEntryIsPackage` | scripts/check-deps.ts:664-667 | every entry of the graph map is the dependency list of a package of that name |
| `DependencyGraph.GraphHoldsTheLast` | scripts/check-deps.ts:664-667 | of several packages of one name the last gives the entry |
| `DependencyGraph.BuildGraph` | scripts/check-deps.ts:664-667 | the loop builds the graph in which the later of two same-named packages wins; its keys are exactly the graph's nodes, each once, in the order the names first appear |
| `DependencyGraph.CycleSearch.constructor` | scripts/check-deps.ts:669-670 | the search starts with nothing visited and satisfies its invariant for the empty path |
| `DependencyGraph.CycleSearch.Dfs` | scripts/check-deps.ts:672-691 | each call terminates and keeps: `stack` is the set of nodes on the path, the path is a walk without repeats, reports are simple cycles, and the finishing order respects every unreported edge; afterwards the node is finished or its incoming edge was reported |
| `DependencyGraph.CycleSearch.Report` | scripts/check-deps.ts:673-678 | meeting a node on the stack reports a simple cycle that closes with the edge just followed |
| `DependencyGraph.CycleSearch.Enter` | scripts/check-deps.ts:681-682 | entering a node extends path and stack together and shrinks the unvisited set |
| `DependencyGraph.CycleSearch.Leave` | scripts/check-deps.ts:690 | leaving an explored node restores the caller's path and stack and appends it to the finishing order |
| `DependencyGraph.CyclesAreCut` | scripts/check-deps.ts:663-696 | once all nodes are finished, every closed walk uses the closing edge of a reported cycle |
| `DependencyGraph.PositionFalls` | scripts/check-deps.ts:663-696 | along unreported edges the finishing position strictly falls over any walk |
| `DependencyGraph.CheckCircularDeps` | scripts/check-deps.ts:663-696 | reports are simple cycles of the workspace graph, no cycle avoids all reported closing edges, and nothing is reported exactly when the graph is acyclic |
| `LayerOrder.RegisteredLayersAreBelowApps` | scripts/check-deps.ts:35-149 | every registered layer is below the application tier |
| `LayerOrder.ResolveLayers` | scripts/check-deps.ts:762-766 | the loop resolves every registered or filesystem-derived package to its layer, later packages overwriting |
| `LayerOrder.CheckPackage` | scripts/check-deps.ts:768-813 | one package's violations are exactly the unregistered, production and dev inversions it earns |
| `LayerOrder.CheckLayerOrdering` | scripts/check-deps.ts:757-814 | a violation is reported if and only if some package earns it, so silence is exactly a clean workspace |
| `LayerOrder.ResolvingIsExact` | scripts/check-deps.ts:762-766 | a name resolves exactly when some package of that name is registered or an application, and to its registered layer or the application tier |
| `LayerOrder.SilenceIsExact` | scripts/check-deps.ts:768-813 | the check is silent exactly when every package has a layer, every production dependency of a library in the workspace lies strictly lower or is sdk on protocol, and every dev dependency lies no higher or is create-motebit on motebit |
| `LayerOrder.PairIsInjective` | scripts/check-deps.ts:754-804 | the `consumer->dependency` text of an exception names one pair only |
| `LayerOrder.EdgeLowersRank` | scripts/check-deps.ts:785-798 | in a clean workspace every production edge out of a library goes to a library of lower rank, the allowed sdk to protocol edge included |
| `LayerOrder.LibrariesReachOnlyLibraries` | scripts/check-deps.ts:757-798 | no chain of production dependencies leads from a library to an application |
| `LayerOrder.CyclesAreAllApplications` | scripts/check-deps.ts:757-798 | in a clean workspace no library lies on a cycle |
| `LayerOrder.CheckCyclesAndLayers` | scripts/check-deps.ts:1207-1209 | with the registered table, a silent layer check leaves the cycle search only all-application cycles to report |
| `LayerOrder.TableMustStayBelowApps` | scripts/check-deps.ts:121-149 | a table entry at or above the application tier has a workspace that passes the layer check with that package on a cycle |
| `LayerOrder.SilenceIsExactlyAsStrongAsTheTable` | scripts/check-deps.ts:121-149 | silence keeps registered packages off cycles if and only if the whole table is below the application tier |
| `CliSurface.NoDiffMeansAgreement` | scripts/check-cli-surface.ts:468-534 | the diff is empty exactly when the two surfaces agree as sets and maps |
| `CliSurface.NoBreakMeansContainment` | scripts/check-cli-surface.ts:411-422 | the diff has no breaking entry exactly when the baseline is contained in the surface |
| `CliSurface.FlagMapHoldsTheLast` | scripts/check-cli-surface.ts:497-498 | the flag map holds exactly the names of the list, each with the last flag of that name |
| `CliSurface.FlagDiffsAreExact` | scripts/check-cli-surface.ts:496-511 | a flag is added, removed or changed exactly when the lists say so: a name on one side only, or different last flags of a name |
| `CliSurface.NoBreakMeansUsesWork` | scripts/check-cli-surface.ts:410-422 | a change breaks exactly when some use of the baseline, of a command, a flag, an exit code or a path, no longer works |
| `CliSurface.AgreeIsMutualContainment` | scripts/check-cli-surface.ts:468-534 | agreement is containment both ways |
| `CliSurface.NonBreakingChain` | scripts/check-cli-surface.ts:411-422 | a chain of non-breaking changes of any length is non-breaking end to end |
| `CliSurface.PushOnlyIn` | scripts/check-cli-surface.ts:474-479 | one loop pushes exactly the names that are in one set and not the other, each once |
| `CliSurface.DiffSubcommands` | scripts/check-cli-surface.ts:471-479 | exactly the added and removed subcommands, each once |
| `CliSurface.DiffSubsubcommands` | scripts/check-cli-surface.ts:481-494 | exactly the added and removed sub-subcommands of parents present on both sides, each once |
| `CliSurface.DiffFlags` | scripts/check-cli-surface.ts:496-511 | exactly the added, removed and changed flags of the two lists, each once, the last flag of a name counting; reordered keys of a flag object count as a change |
| `CliSurface.DiffExitCodes` | scripts/check-cli-surface.ts:513-521 | exactly the added and removed exit codes, each once |
| `CliSurface.DiffPaths` | scripts/check-cli-surface.ts:523-531 | exactly the added and removed on-disk paths, each once |
| `CliSurface.DiffSurfaces` | scripts/check-cli-surface.ts:468-534 | the list holds exactly the differences, each once; empty means agreement, free of breaking entries means containment |
| `ReleaseProtocol.MajorDeclaredInChangeSet` | scripts/check-cli-surface.ts:645-661 | a declaration is found exactly when the change newly declares a major or raises the version, a changeset taking precedence |
| `ReleaseProtocol.CheckMode` | scripts/check-cli-surface.ts:702-758 | an unresolved merge-base is never green, and drift is reported exactly when there is drift, whatever the merge-base |
| `ReleaseProtocol.RunGate` | scripts/check-cli-surface.ts:702-777 | the gate run on computed diffs gives the outcome of the declarative check, first failure first, failing closed on an unresolved merge-base |
| `ReleaseProtocol.OutcomesAreExact` | scripts/check-cli-surface.ts:702-777 | when each outcome is given, on agreement with the lockfile, containment of the lockfile at the merge-base, the declaration and the stamp; a change that only adds is green |
| `ReleaseProtocol.StampIsExact` | scripts/check-cli-surface.ts:430-439 | a write that loses nothing keeps the stamp; one that does records the next major or the stamp that was there, whichever is higher |
| `ReleaseProtocol.GreenTreesAreLocked` | scripts/check-cli-surface.ts:447-466 | a green tree has a stamped lockfile that agrees with its surface, and a stamp ahead of the package only with a major pending |
| `ReleaseProtocol.GatedStepIsDeclared` | scripts/check-cli-surface.ts:549-568 | a gated change keeps the surface, or leaves a major pending, or raises the major |
| `ReleaseProtocol.RunKeeps` | scripts/check-cli-surface.ts:536-568 | over every such run version and pending major together never fall, and while they stand with nothing pending nothing is lost |
| `ReleaseProtocol.NoBreakWithinAMajor` | scripts/check-cli-surface.ts:536-568 | over every gated run in which no step takes a declared major back, every tree is green and one with no major pending offers unchanged all that any earlier tree of the same major offered |
| `ReleaseProtocol.TakenBackMajorShipsABreak` | scripts/check-cli-surface.ts:718-758 | for every gated step that takes a major back, a gated run through it in which a release loses what an earlier release of its major offered, no other step taking a major back |
| `ReleaseProtocol.TakingBackIsExactlyTheHole` | scripts/check-cli-surface.ts:718-758 | for every gated step: such a run exists if and only if the step takes a major back |
| `ReleaseProtocol.HandSetStampLetsABreakThrough` | scripts/check-cli-surface.ts:718-758 | a green run that ships a removed exit code within one major by deleting the changeset that declared it |
| `ReleaseProtocol.LoweredVersionLetsABreakThrough` | scripts/check-cli-surface.ts:645-661 | one that does so by raising and lowering the version, with no major ever pending |
| `ReleaseProtocol.ReusedMajorLetsABreakThrough` | scripts/check-cli-surface.ts:645-661 | one that lowers the version under a declared major and releases it again, with every stamp as `--write` records it |
| `ReleaseProtocol.WritesKeepThePromise` | scripts/check-cli-surface.ts:430-439 | any number of writes never lowers the stamp, never passes the next major, and promises it whenever something is lost |
| `ReleaseProtocol.ReleaseCommitIsGreen` | scripts/check-cli-surface.ts:62-66 | the commit that consumes the changesets is green with no further action |
| `ReleaseProtocol.FirstWriteIsGreen` | scripts/check-cli-surface.ts:430-437 | the first lockfile written makes its tree green against a merge-base without one |
| `ReleaseProtocol.HonestStepKeeps` | scripts/check-cli-surface.ts:424-466 | one release, or one merge with written stamps that does not lower the version, keeps the tree green, the stamp monotone and at most one ahead |
| `ReleaseProtocol.HonestRunKeeps` | scripts/check-cli-surface.ts:424-466 | over every honest run: green, stamp at most the next major, stamps never fall, and a loss within a major keeps the stamp ahead |
| `ReleaseProtocol.HonestStampsForbidBreaks` | scripts/check-cli-surface.ts:424-466 | with honest stamps no tree without a pending major lacks anything of its major, whatever changesets were deleted |
| `ReleaseProtocol.DeletingTheDeclarationIsRefused` | scripts/check-cli-surface.ts:456-465 | after a break, a change that only deletes the pending majors is refused on the stamp |
| `JournalCodec.RoundTrip` | scripts/check-activation-effective.ts:95-98 | a journal record reads back as the entry written |
| `JournalCodec.ReadBodyOfEscaped` | scripts/check-activation-effective.ts:95-98 | an escaped string body reads back, stopping at its closing quote |
| `JournalCodec.ReadEntryExtends` | scripts/check-activation-effective.ts:116-126 | whatever reads as a record still does with more text behind it |
| `TornRecord.TornRecordDoesNotParse` | scripts/check-activation-effective.ts:116-126 | of all that a crash can leave of a record, cut between characters or inside one, the record's own reader accepts only the whole record |
| `TornRecord.TornRecordIsNotJson` | scripts/check-activation-effective.ts:113-126 | what a crash leaves of a record is the whole record or no JSON text of any kind |
| `TornRecord.AcceptedIsJson` | scripts/check-activation-effective.ts:116-126 | the record's reader accepts JSON texts only |
| `JsonText.JsonIsBalanced` | scripts/check-activation-effective.ts:116-126 | every JSON text closes exactly the brackets and quotes it opens and is not empty |
| `JsonText.CutObjectIsNotJson` | scripts/check-activation-effective.ts:116-126 | no proper prefix of a JSON object is a JSON text of any kind |
| `JsonText.GarbledObjectIsNotJson` | scripts/check-activation-effective.ts:116-126 | nor is a proper prefix of an object with one more character that closes no bracket |
| `TornRecord.RecordIsAnObject` | scripts/check-activation-effective.ts:95-98 | the record written is the text of a JSON object with these three members |
| `TornRecord.BodyMeansItself` | scripts/check-activation-effective.ts:95-98 | by the escape rules of section 7 of RFC 8259 the string bodies of the record stand for the strings written |
| `TornRecord.EveryReaderAgrees` | scripts/check-activation-effective.ts:113-126 | any reader that accepts JSON texts only and reads whole records back, as `JSON.parse` does, gives on everything a crash can leave what the model's reader gives |
| `PerturbationJournal.Disk.OpenJournal` | scripts/check-activation-effective.ts:95-98 | recording on a clean tree leaves it recoverable at every instant, a torn record included |
| `PerturbationJournal.Disk.CloseJournal` | scripts/check-activation-effective.ts:100-102 | removing the journal of a restored tree leaves it clean, or recoverable if the process dies |
| `PerturbationJournal.Disk.WriteUnderJournal` | scripts/check-activation-effective.ts:351-376 | under an open record its file may be written in whole or in part and the tree stays recoverable |
| `PerturbationJournal.Disk.DrainStrandedPerturbation` | scripts/check-activation-effective.ts:113-135 | from any recoverable tree the drain ends with every original byte back and no journal, or dies leaving a recoverable tree |
| `PerturbationJournal.Disk.RunProbe` | scripts/check-activation-effective.ts:349-377 | the tree is clean again unless the process died; the build broke exactly when the severed tree does not build, and the suite discriminates exactly when that tree builds and turns it red |
| `PerturbationJournal.BlindSuiteIsFound` | scripts/check-activation-effective.ts:347-377 | a suite that is green with and without the severing never counts as discriminating, and a broken build never does either |
| `PerturbationJournal.Disk.RunProbes` | scripts/check-activation-effective.ts:343-385 | the loop leaves the tree clean or recoverable and each result is the one its probe has when run alone |
| `PerturbationJournal.Disk.Start` | scripts/check-activation-effective.ts:290-306 | drains before it probes; completes with every probe judged on the original tree, and leaves a clean tree unless it died, also after a signal whose handler lived to drain |
| `PerturbationJournal.Disk.AnyHistory` | scripts/check-activation-effective.ts:68-87 | after any number of starts that die anywhere, the first drain that completes leaves every file original and no journal |
| `ReplaceOnce.ReplacedMeansSplit` | scripts/check-activation-effective.ts:241-254 | a text comes back exactly when the source splits around a first occurrence with none in the rest, and it is that split with the middle exchanged |
| `ReplaceOnce.RefusalsAreExact` | scripts/check-activation-effective.ts:241-254 | not found means no occurrence; not unique means a further occurrence that does not overlap an earlier one |
| `ReplaceOnce.OnceIfNoOverlap` | scripts/check-activation-effective.ts:241-254 | for an anchor that cannot overlap itself, success means exactly one occurrence |
| `ReplaceOnce.OverlapDefeatsUniqueness` | scripts/check-activation-effective.ts:241-254 | for any other anchor some text is judged wrongly |
| `ReplaceOnce.UniquenessIsExact` | scripts/check-activation-effective.ts:241-254 | success means exactly one occurrence on all texts if and only if the anchor is not empty and cannot overlap itself |
| `AliasClosure.BindsIsMonotone` | scripts/check-credit-caller-allowlist.ts:145-170 | more aliases never make a node bind fewer names |
| `AliasClosure.ScanStaysInside` | scripts/check-credit-caller-allowlist.ts:137-172 | a walk whose set grows on the way never leaves a closed set |
| `AliasClosure.QuietScanIsClosed` | scripts/check-credit-caller-allowlist.ts:137-172 | a walk that adds nothing has found a closed set |
| `AliasClosure.Collector.VisitNode` | scripts/check-credit-caller-allowlist.ts:145-170 | the import, binding, destructuring and assignment rules add exactly what the node binds and record growth |
| `AliasClosure.Collector.Visit` | scripts/check-credit-caller-allowlist.ts:145-172 | the recursive walk has the effect of the rules applied to the nodes in visiting order |
| `AliasParts.WalkIsPlaces` | scripts/check-credit-caller-allowlist.ts:200 | the walk visits, parents first and in source order, the places that the fields of each kind of node say there are, call arguments and callbacks included |
| `AliasParts.WalkVisitsTheParts` | scripts/check-credit-caller-allowlist.ts:200 | the nodes visited are exactly the parts of the file, with one place for each node it is made of |
| `AliasParts.EscapesAreExact` | scripts/check-credit-caller-allowlist.ts:206-216 | a node is visited as escaping exactly when it is a call argument, an array or object element or a returned expression of some part of the file |
| `AliasRules.CreditRefIsExact` | scripts/check-credit-caller-allowlist.ts:113-131 | an expression is a credit reference exactly when, stripped of all that keeps the function, a credit name, a credit member or an alias is left |
| `AliasRules.BindsIsExact` | scripts/check-credit-caller-allowlist.ts:145-170 | a node binds a name exactly when it imports or picks a credit member under it or gives it the value of a credit reference |
| `AliasClosure.CollectAliases` | scripts/check-credit-caller-allowlist.ts:134-173 | the repeated walk terminates with the least set closed under the rules |
| `AliasClosure.AliasesAreChainEnds` | scripts/check-credit-caller-allowlist.ts:113-173 | a name is an alias if and only if a chain of bindings, of any length, ends in it |
| `AliasClosure.LeastClosedIsUnique` | scripts/check-credit-caller-allowlist.ts:134-173 | the alias set depends only on which binding nodes the file has |
| `AliasOrder.BindsIsKept` | scripts/check-credit-caller-allowlist.ts:145-170 | a node with statement lists below it reordered binds the same names |
| `AliasOrder.ClosedSetsAreKept` | scripts/check-credit-caller-allowlist.ts:134-173 | reordering statement lists at every depth, each list in its own way, keeps which sets are closed under the rules |
| `AliasOrder.OrderIsIrrelevant` | scripts/check-credit-caller-allowlist.ts:134-173 | reordering the statement lists of a file, at every depth and each list in its own way, leaves its aliases unchanged |
| `AliasOrder.ListIsReordered` | scripts/check-credit-caller-allowlist.ts:134-173 | any permutation of a statement list, with each statement reordered inside in any way, is such a reordering |
| `AliasOrder.EqualListsReorderApart` | scripts/check-credit-caller-allowlist.ts:134-173 | of two equal statement lists one may be reordered and the other not |
| `AliasReports.TreesCorrespond` | scripts/check-credit-caller-allowlist.ts:176-204 | under one alias set, the reports of a reordered tree are, in some order, reports of the same kinds about the reordered nodes |
| `AliasReports.ReportsKeepTheirKinds` | scripts/check-credit-caller-allowlist.ts:134-204 | the whole scan of a file with its statement lists reordered gives the same number of reports, of the same kinds, about the reordered nodes |
| `AliasClosure.CreditRefMeansReach` | scripts/check-credit-caller-allowlist.ts:113-131 | a reference counts exactly when it is a credit function outright or by one name that ends a chain |
| `AliasClosure.VisitSites` | scripts/check-credit-caller-allowlist.ts:181-203 | the reporting walk lists the sites in visiting order |
| `AliasClosure.SitesReportTheUses` | scripts/check-credit-caller-allowlist.ts:181-203 | under the least closed set the sites of any walk are, one by one, reports of its places that use a credit function |
| `AliasClosure.CreditSites` | scripts/check-credit-caller-allowlist.ts:176-204 | in the order of the walk, one report for each place that calls, re-exports under another name or lets escape a credit function, directly or through a chain of any length, and no other; they are the sites of the walk under the least closed set |
| `AliasRules.UsesAreExact` | scripts/check-credit-caller-allowlist.ts:181-203 | the uses of a walk are its using places, each once and in order |
| `AliasRules.ReportsAreTheUses` | scripts/check-credit-caller-allowlist.ts:176-204 | the reports are about exactly the parts of the file that call, re-export under another name or let escape a credit function |
| `ReviewVerdict.SortedIsASort` | scripts/autonomy-tier-verdict.ts:145-149 | the sorted list is a permutation of the reviews, from earlier to later submission time and from lower to higher id at equal times |
| `ReviewVerdict.TextLessIsExact` | scripts/autonomy-tier-verdict.ts:145-149 | a string is smaller exactly when it ends, or has the smaller character, where the two first differ |
| `ReviewVerdict.LowerFoldsCase` | scripts/autonomy-tier-verdict.ts:141 | two logins fold to one exactly when they differ in case alone |
| `ReviewVerdict.StandingStates` | scripts/autonomy-tier-verdict.ts:144-157 | the overwrite loop computes the standing map |
| `ReviewVerdict.StandingIsLatest` | scripts/autonomy-tier-verdict.ts:144-157 | per folded login the standing review is a maximum by time and id among its state-changing reviews, and absent exactly when there is none |
| `ReviewVerdict.StandingOfOneMore` | scripts/autonomy-tier-verdict.ts:144-157 | one more review takes the place of its login's standing one unless it was submitted earlier, or at the same time with a lower id; sorting and overwriting is the same as keeping this up review by review |
| `ReviewVerdict.LaterReviewStands` | scripts/autonomy-tier-verdict.ts:144-157 | an approval, request for changes or dismissed review submitted later than all others of its login stands |
| `ReviewVerdict.CommentsDoNotCount` | scripts/autonomy-tier-verdict.ts:152-154 | comments and drafts leave every standing state as it was |
| `ReviewVerdict.StandingIgnoresListOrder` | scripts/autonomy-tier-verdict.ts:144-157 | with distinct ids any reordering of the reviews gives the same standing map |
| `ReviewVerdict.DecidePr` | scripts/autonomy-tier-verdict.ts:163-209 | passes exactly on a founder approval of the head, or no machine approval, or T0 with the switch on; the reason names which of these decided a pass, and the tier or the switch for a failure |
| `ReviewVerdict.FounderAtHeadIsExact` | scripts/autonomy-tier-verdict.ts:173-178 | with distinct ids the founder has approved the head exactly when the latest state-changing review of that login is an approval of the head by an owner, member or collaborator |
| `ReviewVerdict.VerdictIgnoresListOrder` | scripts/autonomy-tier-verdict.ts:163-209 | with distinct ids the verdict does not depend on the order the reviews are listed in |
| `ReviewVerdict.SubmitDecidesFounder` | scripts/autonomy-tier-verdict.ts:173-178 | a submission creates a founder approval of the head only as the founder's own new standing trusted approval |
| `ReviewVerdict.DismissalNeverApproves` | scripts/autonomy-tier-verdict.ts:20-29 | dismissing reviews never creates a founder approval |
| `ReviewVerdict.DismissalIsOne` | scripts/autonomy-tier-verdict.ts:166-172 | after a dismissal a machine approval remains exactly when another one was there |
| `ReviewVerdict.LiftIsExact` | scripts/autonomy-tier-verdict.ts:163-209 | with tier and switch fixed, an event turns a failure into a pass if and only if it lifts it |
| `ReviewVerdict.FailsUntilLifted` | scripts/autonomy-tier-verdict.ts:163-209 | over every history a failure lasts until the first lifting event and ends right there |
| `ReviewVerdict.OthersNeverLift` | scripts/autonomy-tier-verdict.ts:20-29 | no number of reviews by the machine or any other non-founder login lifts a failure |
| `ReviewVerdict.PassAfterFailHasACause` | scripts/autonomy-tier-verdict.ts:185-208 | a failure that became a pass stands on the founder's latest trusted approval of the head or on no machine approval being left |
| `MergeGroup.FetchReviews` | scripts/autonomy-tier-verdict.ts:286-307 | the paging loop returns all reviews that have a user, in order and field by field, or refuses; it returns exactly below 3000 reviews |
| `MergeGroup.WithUserIsExact` | scripts/autonomy-tier-verdict.ts:293-303 | exactly the reviews that have a user are kept, in order, each with all its fields |
| `MergeGroup.CollectPage` | scripts/autonomy-tier-verdict.ts:293-303 | a page adds its reviews that have a user, in order |
| `MergeGroup.MergeGroupPrs` | scripts/autonomy-tier-verdict.ts:225-256 | succeeds exactly when commits and PR numbers correspond one to one in order with the queue ref's among them; each refusal names its cause: no commit, a commit without a number, a number twice, a ref outside the group |
| `MergeGroup.GatherInputs` | scripts/autonomy-tier-verdict.ts:649-666 | gathers every queued PR's input exactly when each is open against main with a readable review list |
| `MergeGroup.JudgeMergeGroup` | scripts/autonomy-tier-verdict.ts:634-679 | the group passes if and only if it corresponds, the pull request of every commit is open against main with a readable list and passes with its own head and reviews and the tier of that commit, and provenance holds; in the expand phase no observed switch value lets a machine approval through without the founder |
| `DelegatorCache.KeyIsInjective` | scripts/archetype-conformance.ts:206 | different relays or seeds never share an entry |
| `DelegatorCache.Delegators.BootstrappedDelegator` | scripts/archetype-conformance.ts:205-219 | a caller is handed the entry of its key, never one already cleared, or starts the only new attempt |
| `DelegatorCache.Delegators.Settle` | scripts/archetype-conformance.ts:209-213 | settling an attempt changes that attempt alone |
| `DelegatorCache.Delegators.OnRejected` | scripts/archetype-conformance.ts:215 | the deletion handler clears its attempt and its entry |
| `DelegatorCache.StepKeepsValid` | scripts/archetype-conformance.ts:204-219 | every step keeps: the map holds exactly the uncleared attempts, each under its key |
| `DelegatorCache.DeletionEvictsOnlyItsOwn` | scripts/archetype-conformance.ts:214-215 | the deletion, though by key, removes the failed attempt and never a newer one |
| `DelegatorCache.OneLiveAttemptPerKey` | scripts/archetype-conformance.ts:204-219 | over every interleaving at most one attempt per key is live, and every caller of the key is handed it |
| `DelegatorCache.OutcomesAreFinal` | scripts/archetype-conformance.ts:204-219 | attempts keep their key, settled outcomes are final, a failed attempt awaits its deletion |
| `DelegatorCache.SuccessIsSharedForever` | scripts/archetype-conformance.ts:204-219 | a successful bootstrap serves every later caller of its key |
| `DelegatorCache.FailureIsRetried` | scripts/archetype-conformance.ts:214-215 | an attempt whose deletion has run is never handed out again |
| `DelegatorCache.DrainedMapHoldsNoFailure` | scripts/archetype-conformance.ts:214-215 | with no deletion queued, no failed attempt is in the map |
| `DelegatorCache.BootstrapsAreConserved` | scripts/archetype-conformance.ts:204-219 | over every run bootstraps started for a key are its cleared failures plus one if it has an entry |
| `DelegatorCallers.ActKeepsOrder` | scripts/archetype-conformance.ts:204-219 | every call, wait, settlement and queued handler keeps: a failed attempt has one deletion queued, ahead of everyone to be told of it, and only the last attempt of a key is not cleared |
| `DelegatorCallers.QueueNeverBlocks` | scripts/archetype-conformance.ts:214-215 | a queued deletion always meets an attempt that has failed and is not yet cleared |
| `DelegatorCallers.HistoryIsARun` | scripts/archetype-conformance.ts:204-219 | with callers and queue, the memo goes through a run of its own steps, so that all its laws hold |
| `DelegatorCallers.ToldAfterTheDeletion` | scripts/archetype-conformance.ts:214-216 | whoever is told of a failure is told after the failed attempt left the map |
| `DelegatorCallers.ToldCallerRetries` | scripts/archetype-conformance.ts:214-218 | a caller who has been told of a failure and asks again, at any later time, is handed an attempt started after the failed one |
| `SpecTable.RowRoundTripIsExact` | scripts/check-audience-route-parity.ts:849-877 | a written row reads back as itself if and only if its cell holds no column separator |
| `SpecRows.RowsAreExact` | scripts/check-audience-route-parity.ts:849-868 | a line is read as a row exactly when the pattern matches it, and then as the match with the shortest cell |
| `SpecRows.WrittenRowIsAMatch` | scripts/check-audience-route-parity.ts:872 | the text written for a stale row, and that it matches the pattern |
| `SpecRows.TrimIsExact` | scripts/check-audience-route-parity.ts:870 | trimming drops all white space at both ends and nothing else |
| `SpecRows.PaddedCellIsCurrent` | scripts/check-audience-route-parity.ts:863-877 | a row with its audience's cell is current whatever white space stands around it |
| `SpecRows.MissingIsExact` | scripts/check-audience-route-parity.ts:863-886 | a row is reported missing exactly for an audience of the table of which no line is a row |
| `SpecRows.NamesPathMeans` | scripts/check-audience-route-parity.ts:878 | the five path prefixes that make a cell name a relay path |
| `SpecRows.PublicLineNamesTheRoutes` | scripts/check-audience-route-parity.ts:839-847 | tables with different public routes have different blocks |
| `SpecTable.EndpointCellFits` | scripts/check-audience-route-parity.ts:833-837 | a cell generated from routes without markup, line end or column separator has none either and is unchanged by trimming |
| `SpecTable.RoutesAreExact` | scripts/check-audience-route-parity.ts:833-836 | the routes of an audience are exactly those of the table with it, in the order of the table |
| `SpecTable.EndpointCellIsExact` | scripts/check-audience-route-parity.ts:833-837 | there is no cell exactly when no route has the audience, and else it is the cell of all its routes in the order of the table |
| `SpecTable.CellsOfConcat` | scripts/check-audience-route-parity.ts:836 | a cell is its quoted routes with a comma and a space between two |
| `SpecTable.CellsAreInjective` | scripts/check-audience-route-parity.ts:833-837 | a cell names its routes: equal cells come from equal lists of routes |
| `SpecTable.RewrittenLineIsCurrent` | scripts/check-audience-route-parity.ts:863-877 | a rewritten line carries the table's cell and is still one line |
| `SpecWrite.RewrittenRow` | scripts/check-audience-route-parity.ts:871-872 | a stale row is rewritten to the same row with the table's cell |
| `SpecTable.RowsWrittenAreCurrent` | scripts/check-audience-route-parity.ts:857-883 | after the row loop in write mode no row is stale |
| `SpecTable.PutBlockKeepsRowsCurrent` | scripts/check-audience-route-parity.ts:887-902 | writing the public block makes no row stale |
| `SpecWrite.TraceOfRow` | scripts/check-audience-route-parity.ts:849-877 | the first markers of a row's line are those of its audience, its cell and what follows, in this order: no marker spans two of them |
| `SpecWrite.RowLoopTrace` | scripts/check-audience-route-parity.ts:863-887 | after the row loop the first markers are those of the file outside the cells of stale rows |
| `SpecWrite.WriteIsExact` | scripts/check-audience-route-parity.ts:857-904 | for every file: a check right after a write is clean if and only if the markers outside the cells of stale rows are in order; a second write changes nothing if and only if they are not in the wrong order |
| `SpecWrite.RowLoopKeepsOrder` | scripts/check-audience-route-parity.ts:863-887 | the row loop keeps the marker order of a file whose stale cells hold no marker |
| `SpecWrite.WriteThenCheckIsClean` | scripts/check-audience-route-parity.ts:857-904 | for a file with its markers in order and none in a stale row's cell, a check after a write finds no stale cell and no stale block, and a second write changes nothing |
| `SpecWrite.FileOrderIsExact` | scripts/check-audience-route-parity.ts:857-904 | for a file with no marker in a stale row's cell, a write comes out clean if and only if the markers are in order in the file |
| `SpecWrite.StaleCellLosesTheOrder` | scripts/check-audience-route-parity.ts:863-901 | for every audience with a row in the table, a file with its markers in order whose block is stale after a write |
| `SpecWrite.OrderedMarkersCanLeaveAStaleBlock` | scripts/check-audience-route-parity.ts:863-901 | such a table and file exist |
| `SpecWrite.GeneratedBlockIsInOrder` | scripts/check-audience-route-parity.ts:839-847 | the generated block alone is a file with its markers in order and none in a stale row's cell |
| `SpecWrite.CleanMeansSilent` | scripts/check-audience-route-parity.ts:857-904 | clean is exactly that a check without writing reports no differing endpoints, no missing markers and no differing block |
| `SpecTable.CheckRows` | scripts/check-audience-route-parity.ts:863-883 | the row loop rewrites or reports exactly the stale lines, reports misplaced rows and collects the audiences seen |
| `SpecTable.MissingRows` | scripts/check-audience-route-parity.ts:884-886 | exactly the table audiences without a row are reported |
| `SpecTable.CheckBlock` | scripts/check-audience-route-parity.ts:887-902 | missing markers are reported; a stale block is rewritten or reported |
| `SpecTable.CheckSpec` | scripts/check-audience-route-parity.ts:857-904 | the violations are exactly the stale rows, misplaced rows, missing rows and block findings of the text; only a write changes the file |
| `MarkedBlock.PutBlockIsFound` | scripts/check-audience-route-parity.ts:887-901 | with markers in order the block written is the block found again |
| `MarkedBlock.PutBlockReplacesTheBlock` | scripts/check-audience-route-parity.ts:887-901 | with markers in order exactly what stands between them is replaced |
| `MarkedBlock.MisorderedBlockStaysStale` | scripts/check-audience-route-parity.ts:887-901 | with the end marker first the block stays stale and each write lengthens the file |
| `MarkedBlock.OrderIsExact` | scripts/check-audience-route-parity.ts:887-901 | the block step leaves nothing to report about the block if and only if the markers are in order in the text it is given, the one the row loop left |
| `MarkedBlock.FirstsAcross` | scripts/check-audience-route-parity.ts:887-889 | across a character no marker holds, the first markers of a text are those of its two sides combined |
| `MarkedBlock.SettlesUnlessMisordered` | scripts/check-audience-route-parity.ts:887-901 | the block step leaves a current block if and only if its markers are in order, and settles if and only if they are not in the wrong order |
| `SelfKnowledge.SplitByHeading` | scripts/build-self-knowledge.ts:69-95 | the buffer loop yields one chunk for each heading group that is not blank, in order, with the group's title and trimmed text |
| `SelfKnowledge.ChunksAreExact` | scripts/build-self-knowledge.ts:75-81 | the chunks of given groups are those of the groups that are not blank, in order |
| `SelfKnowledge.GroupsPartitionTheLines` | scripts/build-self-knowledge.ts:69-95 | every line that is no heading is in the groups once and in order |
| `SelfKnowledge.GroupsAreTitledInOrder` | scripts/build-self-knowledge.ts:72-91 | the groups are titled by the source and then by the headings in order |
| `SelfKnowledge.GroupsGiveTheDocument` | scripts/build-self-knowledge.ts:69-95 | the heading lines put back before their groups give the document: every line stands under the heading it follows |
| `SelfKnowledge.GroupsAreDetermined` | scripts/build-self-knowledge.ts:69-95 | any groups laid out under heading lines are the groups found in that document |
| `SelfKnowledge.TermFrequencies` | scripts/build-self-knowledge.ts:98-103 | each frequency is the token's number of occurrences and together they sum to the chunk's length |
| `SelfKnowledge.CorpusStatistics` | scripts/build-self-knowledge.ts:144-164 | each document frequency is the number of kept chunks with the term; the average length times the number of kept chunks is the number of tokens of the whole corpus, none lost with the empty chunks, and zero for an empty corpus |
| `SelfKnowledge.KeptIsExact` | scripts/build-self-knowledge.ts:144-149 | the kept chunks are those with a token, in order |
| `SelfKnowledge.ChunksWithCounts` | scripts/build-self-knowledge.ts:153-158 | a document frequency is the number of chunks that contain the term |
| `SelfKnowledge.LengthsOfConcat` | scripts/build-self-knowledge.ts:159-160 | total lengths add up chunk by chunk |
| `CensusDrift.DriftOf` | scripts/check-identity-authority-inventory.ts:30-45 | empty exactly when the texts are equal; otherwise the first `cap` entries of the whole difference, and the fallback line only under a cap below one |
| `CensusDrift.WholeDifferenceIsExact` | scripts/check-identity-authority-inventory.ts:30-45 | the whole difference holds exactly the committed and the fresh text of every differing line as shown, in line order, committed before fresh |
| `CensusDrift.ShownIsShort` | scripts/check-identity-authority-inventory.ts:39-41 | a line is shown without runs of white space and within 200 characters, and unchanged if it already is so |
| `CensusDrift.FoldedOfRun` | scripts/check-identity-authority-inventory.ts:39-41 | a run of white space between two texts is shown as one space, a single white space character as it is |
| `CensusDrift.ShownIsCutFolded` | scripts/check-identity-authority-inventory.ts:39-41 | the text shown is the first 200 characters of the folded line |
| `CensusDrift.DifferentTextsDifferAtALine` | scripts/check-identity-authority-inventory.ts:30-45 | different texts differ at some line |
| `Text.SplitIsInjective` | scripts/check-identity-authority-inventory.ts:32-33 | splitting on newline is injective |
| `Text.SplitJoin` | scripts/check-audience-route-parity.ts:859-887 | joined lines split back into themselves |

## Left out

- Reading files, spawning git, pnpm and flyctl, calling GitHub and the relay, printing reports: their results are parameters (the tree the gate reads, the server's review list, the toolchain's answers).
- File operations that fail with an error instead of ending the process, in the journal model.
- Regex extraction of subcommands, flags, exit codes, changeset front matter, `(#N)` titles and queue refs: the models start from what is extracted.
- The other checks of `scripts/check-deps.ts` compare each package's imports, exports, declared dependencies, key order, tsconfig references and licence texts with a list, one file at a time, and the registry-literal and doc gates compare a list in a document with a list in code. None keeps state or searches a graph; what they decide is one membership test per item, after a regex extraction that is not part of this model.
- `provenanceFailures` and `judgedEvent`: chains of equality tests; a merge group takes the list of provenance failures as input.
- JavaScript details: object-prototype names as keys, `NaN` versions, numbers beyond the exact range, Unicode case folding of logins beyond ASCII letters, and strings as UTF-16 units (a character of the model is a whole code point, also where the census cuts at 200).
- Human edits to a probe's target between a crash and the next drain: the drain writes the journaled text whatever the file holds, so the journal laws assume no outside edit. A write cut after some bytes reads back as the characters before the cut, with one replacement character for a character cut in two (`TornRecord.IsTorn`); the UTF-8 encoding itself and reordered disk blocks after a power failure are not modelled.
- JournalCodec.Decode: reads only the shape the script writes, where `JSON.parse` reads any JSON. A drain meets a record, whole or torn, and on those every JSON reader agrees with it (`TornRecord.EveryReaderAgrees`); JSON texts put into the journal by hand are not modelled.
- The dirty-target check, coverage assertion and final rebuild of the activation gate, and the compiled output: only source files and the journal are modelled.
- DelegatorCallers.ToldCallerRetries: a caller is told by a handler on the promise it was handed; promises derived from it, which settle later still, are not modelled.
- ReleaseProtocol.NoBreakWithinAMajor: each change is judged against the tree it lands on, as the merge queue does; a local run against an older merge-base is not modelled.
- TypeScript syntax the alias rules do not inspect is the one node kind `Other`; names in property position and specifiers are strings, since no rule looks at them as nodes.
- SpecWrite.WriteThenCheckIsClean: asks of the routes that they hold no markup and no line end, and of those in cells no column separator; spelling `:param` as `{param}` is left out, routes come spelled.
- SelfKnowledge.SplitByHeading: heading recognition and trimming are function parameters; slugs, hashing and prettier formatting are left out, and the average length is an exact quotient rather than a rounded one.
