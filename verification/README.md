# The dependency-graph and lockfile engine of pnpm, modelled and proved in Dafny

pnpm schedules package builds, prunes and filters lockfiles, classifies packages, computes dependency states,
merges lockfiles, converts between their two representations and prints and parses dependency paths. This project
models that in-memory code and proves what each part promises. To verify it, call
`dafny verify dfyconfig.toml` in this directory.

How the code is rendered:

- Code that works in place stays imperative: the sequencer, the build selection, the pruner, the walker, the two
  filters, the classifier and the dep-state cache are classes whose methods change their fields; package entries whose
  `optional` flag the pruner sets are objects, changed in place and shared between the old and the pruned lockfile.
  Each such method is proved against a specification (mostly reachability in a graph, module `Digraph`), and the
  lemmas beside it say what that specification means.
- The iteration order of a JavaScript object is an arbitrary choice (module `Records`), so the results hold for every
  order. Where the code lets the last entry win, as in sanitizing file names, any entry may win here.
- The traversals treat dep paths, aliases, references and project ids as opaque values and take `refToRelative`,
  the `link:` test and the like as a parameter (`Lockfile.Reading`). Hence the results hold for every grammar of
  references; the real grammar is in module `DependencyPath`.
- Exceptions are result datatypes. The file system of the directory import is a function that decides freely how each
  attempt ends. `semver.valid`, the short hash, the file-name sanitizer and `toLowerCase` are parameters;
  `semver.gt` is the precedence of section 11 of Semantic Versioning 2.0.0 on parsed versions (module `SemVer`).

What came out:

- The sequencer is exact: `safe`, `cycles` and the chunk order are characterised for every input graph, and on
  acyclic graphs the chunks are the shortest layering. It throws exactly if some included node leads to a cycle and
  has an edge to a node that is no key.
- All the traversals are pinned down by reachability. The pruner and the classifier always agree; the walker's filter
  and the engine filter, which spread dependency maps into one and so drop a repeated alias, agree with them exactly
  when every package to which a reference is dropped is met on another way (`Agreement.TraversalsAgreeExactly`).
- The engine filter's fixed point does not depend on what is installable. Whether a strict engine check stops it, and
  which packages end on the skip list, depends on the order of visits only for packages that are reached both through
  and around refused ones (`EngineFilter.WhenItSucceeds`, `EngineFilter.FinalSkipList`).
- Because of dropped references a filtered lockfile can hold a dangling one although nothing was found missing; it
  is closed exactly when the dropped references resolve too (`FilterByImporters.ReturnedIsClosed`).
- Parsing undoes printing except when there is no patch hash and the first peer group is spelled
  `(patch_hash=`; then `parse` reports a patch hash that is not there (`DependencyPath.ParsePrint` is an
  if-and-only-if, and so is `DependencyPath.PkgIdOfPrinted` for the id used by the dep state).
- The lockfile converter is lossless exactly for objects of the current lockfile version with coherent package info,
  specifiers for exactly the direct dependencies, and no `patched` mark: the type of a package info has that field
  (`lockfile/types`), but neither half of the converter picks it. It always writes the current version
  (`FormatConverters.RoundTrip` is an if-and-only-if).
- The shared dep-state cache is harmless unless, somewhere below a package, another one has a child that repeats the
  first one's id and has children of its own; where children with one id agree on having children, such a repetition
  does show, already in two calls (`DepState.IndependentIffHarmless`).
- The directory import starts over at most three times, whatever the file system does, and a file is certain to be in
  place with its own source, for every file system and every order of the file map, exactly if its name is safe
  (`ImportIndexedDir.SurvivesIffSafe`).
- Whether several lockfiles can be merged, and to which versions, does not depend on the order of merging.

## Model

| member | source | states |
|---|---|---|
| GraphSequencer.SequenceGraph | deps/graph-sequencer/src/index.ts:22-82 | for every graph and included nodes, with parallel edges, self-loops and edges to nodes that are no keys: it throws iff some included node leads to a cycle of included nodes and has an edge to a node that is no key; otherwise the chunks are non-empty and hold every included node exactly once; each dependency of a node off the reported cycles is in a strictly earlier chunk, and no such node waits longer than needed; the cycles are simple, real and disjoint, each lies within one chunk, and a chunk with a node of one holds nothing but such nodes; `cycles` is empty iff the induced graph is acyclic; `safe` iff it has no simple cycle of length two or more |
| GraphSequencer.Sequencer.EnterAllEdges | deps/graph-sequencer/src/index.ts:29-44 | establishes the state invariant: every included node's out-degree is its number of edges, with multiplicity, into remaining nodes, and the reverse lists hold one entry per parallel edge |
| GraphSequencer.Sequencer.RemoveNode | deps/graph-sequencer/src/index.ts:90-96 | keeps that invariant for the remaining nodes when one node leaves |
| GraphSequencer.DegreesAfterRemoval | deps/graph-sequencer/src/index.ts:84-96 | lowering each source once per reverse-list entry of the removed node gives exactly the degrees into the smaller set |
| GraphSequencer.DegreeZero | deps/graph-sequencer/src/index.ts:52-58 | a node's counted degree is zero iff none of its edges leads to a remaining node |
| GraphSequencer.Sequencer.FreeNodes | deps/graph-sequencer/src/index.ts:50-58 | the chunk is the set of remaining nodes without remaining dependencies, and the least degree is zero iff there is one |
| GraphSequencer.Sequencer.FindCycle | deps/graph-sequencer/src/index.ts:98-124 | sound and complete: a result is a simple cycle of remaining nodes from the start; it is empty iff no such cycle passes through the start, and it is a self-loop only if none of length two or more does; the targets of the start and of the cycle are then all keys, and it throws only where a remaining node has a target that is none |
| GraphSequencer.CycleIsFound | deps/graph-sequencer/src/index.ts:103-117 | after the search, any remaining cycle through the start has a found counterpart, of length two or more if the cycle is |
| GraphSequencer.Longest | deps/graph-sequencer/src/index.ts:119-123 | the head after sorting by falling length: the first among the longest cycles |
| GraphSequencer.Sequencer.BreakCycles | deps/graph-sequencer/src/index.ts:64-77 | a stuck round throws iff a remaining node has a target that is no key; otherwise it removes at least one node, removes exactly the nodes of the cycles it reports, and keeps what is known of cycles and `safe` |
| Digraph.CycleExists | deps/graph-sequencer/src/index.ts:60-78 | where every remaining node has a remaining dependency, a simple cycle of remaining nodes exists (pigeonhole), so the scheduling loop makes progress |
| GraphSequencer.FreeRound | deps/graph-sequencer/src/index.ts:60-62 | a round of free nodes keeps the loop invariant: order, tightness, and that no unreported cycle has lost a node |
| GraphSequencer.StuckRound | deps/graph-sequencer/src/index.ts:63-78 | so does a round that breaks cycles |
| GraphSequencer.FreeNodesAvoidCycle | deps/graph-sequencer/src/index.ts:60-62 | a free round never takes a node off a cycle of remaining nodes |
| GraphSequencer.StuckLeads | deps/graph-sequencer/src/index.ts:63-66 | where every remaining node has a remaining dependency, each of them leads to a cycle |
| GraphSequencer.FreeRoundThrows | deps/graph-sequencer/src/index.ts:60-62 | a free round removes no node that leads to a cycle as long as none has been removed, so the first cycle search meets all of them |
| GraphSequencer.CycleReported | deps/graph-sequencer/src/index.ts:65-76 | reporting a found cycle keeps cycles disjoint and `safe` exact |
| GraphSequencer.ChunkIndexIsLongestChain | deps/graph-sequencer/src/index.ts:49-63 | on an acyclic induced graph the index of a node's chunk is the length of its longest dependency chain: one of that length exists and no longer one |
| GraphSequencer.ChunksAreLowest | deps/graph-sequencer/src/index.ts:49-63 | on an acyclic induced graph no valid layering puts a node lower than its chunk |
| GraphSequencer.FewestChunks | deps/graph-sequencer/src/index.ts:49-63 | so no valid layering has fewer layers than there are chunks |
| BuildSequence.BuildSelection.GetSubgraphToBuild | exec/build-modules/src/buildSequence.ts:44-65 | one call adds exactly the unwalked nodes reached from its entries, selects every one that needs building or patching and only nodes from which such a node is reachable, reaches each selected one through selected nodes only, and returns whether it met a needy node itself |
| BuildSequence.SelectionComplete | exec/build-modules/src/buildSequence.ts:31-32 | from the roots the walk covers exactly the reachable nodes, and the selection holds all needy ones, only nodes that lead to needy ones, and with each node a way from a root to it |
| BuildSequence.OnlyBuildEdges | exec/build-modules/src/buildSequence.ts:33-38 | the graph handed to the sequencer is the dependency graph restricted to the selection, its nodes and all targets are keys, so that the sequencer cannot throw |
| BuildSequence.BuildSequence | exec/build-modules/src/buildSequence.ts:27-42 | the chunks partition the selection and are a correct schedule of the graph induced on it |
| BuildSequence.DependencyBuiltFirst | exec/build-modules/src/buildSequence.ts:39-41 | a selected child is in a strictly earlier chunk than its parent unless the parent lies on a cycle of selected packages |
| Pruner.PruneContext.CopyDependencySubGraph | lockfile/pruner/src/index.ts:162-207 | one pass walks exactly the (package, mode) pairs reachable from its roots, and the kept entries, flags, warnings and the caller's graph are what that walked set determines; it terminates on cyclic lockfiles |
| Pruner.PruneContext.EnterPresent | lockfile/pruner/src/index.ts:188-201 | the entry itself gets its flag set or cleared, and so does the caller's graph |
| Pruner.PruneContext.EnterMissing | lockfile/pruner/src/index.ts:180-187 | a path without entry is warned of unless it is a link or a local directory |
| Pruner.AllPassesWalked | lockfile/pruner/src/index.ts:143-151 | the three passes over one walked set walk exactly what is reachable from all roots together |
| Pruner.VisitedRequired | lockfile/pruner/src/index.ts:190-205 | a package is walked as non-optional iff a dev or prod root reaches it through `dependencies` alone |
| Pruner.VisitedKept | lockfile/pruner/src/index.ts:176-205 | a package is walked at all iff some importer reaches it through any fields |
| Pruner.PruneSharedLockfile | lockfile/pruner/src/index.ts:19-44 | keeps exactly the packages that the importers reach through any fields, as the caller's own entry objects; `optional` is absent iff `dependencies` edges alone lead to the package from what some importer lists under `devDependencies` or `dependencies`, whatever it was before; other entries keep their flag; the caller's graph gets the same flags; warned of are the reachable paths without entry that are neither links nor local directories |
| Pruner.PruneIdempotent | lockfile/pruner/src/index.ts:19-44 | pruning a pruned lockfile changes nothing |
| Pruner.FlagsForgotten | lockfile/pruner/src/index.ts:190-201 | lockfiles that differ only in earlier `optional` flags prune to the same packages |
| Lockfile.ResolvedDepsToDepPaths | lockfile/pruner/src/index.ts:156-160 | lists exactly the dep paths a dependency map points to; a `link:` reference points to none |
| Lockfile.FieldDepPaths | lockfile/pruner/src/index.ts:29-31 | lists exactly the dep paths of one dependency field over all importers |
| Lockfile.MergedEdgeByRef | lockfile/walker/src/index.ts:125-132 | a spread package leads exactly where, alias by alias, its optional reference leads if optional dependencies are included and it has one, and else its other one |
| Lockfile.MergedWithoutOptional | lockfile/walker/src/index.ts:125-132 | without optional dependencies the spread edges are those through `dependencies` alone |
| Walker.LockfileWalker.StepOver | lockfile/walker/src/index.ts:91-123 | sorts the targets not walked before, each once, into packages, links and missing paths, and marks all of them walked |
| Walker.LockfileWalker.EnterAt | lockfile/walker/src/index.ts:27-44 | starting from more entry nodes, as each importer of the grouped form does, is an entry step of the state machine and keeps its invariant |
| Walker.LockfileWalker.Next | lockfile/walker/src/index.ts:118-132 | running a thunk follows the merged dependency map of its package and keeps the invariant |
| Walker.RunsKeepInv | lockfile/walker/src/index.ts:55-132 | over every sequence of entries and thunks, in any order and with repetitions: no package is yielded twice, and all that is walked is reachable by paths avoiding `skipped` |
| Walker.CompleteIsReached | lockfile/walker/src/index.ts:91-132 | once every thunk has run, the lists hold exactly what paths avoiding `skipped` reach |
| Walker.AnyOrderYieldsOnce | lockfile/walker/src/index.ts:55-132 | any complete walk, in any thunk order, has yielded each such package exactly once and nothing else, and lists the missing paths |
| FilterByImporters.PickContext.PkgAllDeps | lockfile/filtering/src/filterLockfileByImporters.ts:50-67 | drains a step: runs each thunk exactly once; without an error everything yielded has been picked, and when missing paths are an error there is none |
| FilterByImporters.EntryNodesOf | lockfile/walker/src/index.ts:67-80 | the entry nodes are the dep paths of the importers' maps spread in the order dev, prod, optional |
| FilterByImporters.EntryByRef | lockfile/walker/src/index.ts:67-80 | an entry node is what some given importer lists under an alias in the last of its included fields, in the order dev, prod, optional, that lists it |
| FilterByImporters.FilterLockfileByImporters | lockfile/filtering/src/filterLockfileByImporters.ts:14-48 | keeps exactly the packages reached by paths avoiding `skipped`; fails only when asked to and only for a path that is missing, and then whenever one is |
| FilterByImporters.KeptWithoutOptional | lockfile/filtering/src/filterLockfileByImporters.ts:24-36 | without optional dependencies the kept packages are exactly those reached through `dependencies` edges avoiding `skipped` |
| FilterByImporters.FilteredFields | lockfile/filtering/src/filterLockfileByImporters.ts:38-41 | each given importer lists exactly what its included fields list, field by field, and the other importers stay as they are |
| FilterByImporters.FilteredIsClosed | lockfile/walker/src/index.ts:67-132 | when nothing is missing, every reference that the walk follows is a link or leads to a kept or skipped package |
| FilterByImporters.ReturnedIsClosed | lockfile/filtering/src/filterLockfileByImporters.ts:14-67 | when nothing is missing, every reference in every map of the selected importers and of the packages of the returned lockfile resolves iff those do that spreading the maps into one drops |
| FilterByImporters.ClashDangles | lockfile/filtering/src/filterLockfileByImporters.ts:38-41 | an alias that a project lists for development and for production leaves a dangling reference in the returned lockfile although nothing is found missing |
| EngineFilter.FilterContext.ParseDepRefs | lockfile/filtering/src/filterLockfileByImportersAndEngine.ts:238-256 | splits references into the dep paths of the non-links and the known importers that are linked to |
| EngineFilter.MixedEdgeByRef | lockfile/filtering/src/filterLockfileByImportersAndEngine.ts:182-255 | an edge of the mixed graph is a reference of a package or importer, under an alias in the last included field that lists it, to a known importer if it is a link and else to a known package |
| EngineFilter.MixedWithoutOptional | lockfile/filtering/src/filterLockfileByImportersAndEngine.ts:182-187 | without optional dependencies a package leads exactly where its `dependencies` lead |
| EngineFilter.FilterContext.ToImporterDepPaths | lockfile/filtering/src/filterLockfileByImportersAndEngine.ts:199-231 | selects all importers linked to, at any distance, lists all their dep paths, each met on the same way as the importers given, around or through refused packages, and terminates on cyclic links |
| EngineFilter.FilterContext.PkgAllDeps | lockfile/filtering/src/filterLockfileByImportersAndEngine.ts:117-148 | picks the given packages and follows all newly found vertices to their end, settling each on or off the skip list; an error names a path that something reached refers to, an engine error a package reached around all refused ones; terminates by the unpicked packages |
| EngineFilter.FilterContext.PkgWithDeps | lockfile/filtering/src/filterLockfileByImportersAndEngine.ts:149-196 | the same for one package, through its links into importers |
| EngineFilter.FilterContext.CheckInstallable | lockfile/filtering/src/filterLockfileByImportersAndEngine.ts:149-180 | throws iff the strict check of a required package below an installable parent does; otherwise the skip list loses an installable package, gains an optional one that is not, and stays for a required one |
| EngineFilter.FilterLockfileByImportersAndEngine | lockfile/filtering/src/filterLockfileByImportersAndEngine.ts:46-92 | picked packages and selected importers are together the least fixed point of the mixed graph (importer to package, importer to importer, package to package, package to importer), whatever is installable; the importers lose exactly the optional dependencies that lead to an unpicked package; only picked packages enter or leave the skip list, and each is refused and on it, or reached around refused packages, off it and with strict engines checked, or reached through one and on it if it is optional; an error names a path that something reached refers to, an engine error a failing required package reached around all refused ones; success means no reached reference stops the filter |
| EngineFilter.EngineFields | lockfile/filtering/src/filterLockfileByImportersAndEngine.ts:73-82 | every importer lists exactly what its included fields list, less the optional dependencies that resolve to an unpicked package |
| EngineFilter.FoundIsReached | lockfile/filtering/src/filterLockfileByImportersAndEngine.ts:117-231 | what is found is everything reachable once it holds the roots and its own successors |
| EngineFilter.SkippedFirst | lockfile/filtering/src/filterLockfileByImportersAndEngine.ts:149-180 | the verdict on a package settles it: refused and on the skip list; met around refused packages, off the list and checked; or met through one and on the list if it is optional |
| EngineFilter.ReachedEitherWay | lockfile/filtering/src/filterLockfileByImportersAndEngine.ts:181-195 | everything reached is reached around all refused packages or through one |
| EngineFilter.WhenItSucceeds | lockfile/filtering/src/filterLockfileByImportersAndEngine.ts:142-180 | whatever is refused: success implies that nothing reached stops the filter and, with strict engines, that no failing required package is reached only around refused ones; and if nothing reached stops it and no failing required package is reached around refused ones at all, it succeeds |
| EngineFilter.FinalSkipList | lockfile/filtering/src/filterLockfileByImportersAndEngine.ts:149-180 | at the end a refused package is on the skip list; one neither refused nor below a refused one is off it; one not reached around refused ones is on it if optional and as before if required; an unreached one is as before; and only optional ones have entered |
| EngineFilter.SucceedsExactly | lockfile/filtering/src/filterLockfileByImportersAndEngine.ts:142-180 | where no failing required package is reached both through and around refused ones, the filter succeeds iff nothing reached stops it and, with strict engines, no failing required package is reached around refused ones; where nothing reached is refused, that is every reached one, and exactly the reached packages leave the skip list |
| DetectDepTypes.DetectContext.DetectDepTypesInSubGraph | lockfile/detect-dep-types/src/index.ts:39-72 | a pass walks exactly what its roots reach beyond the walked set, and the record is determined by the two walked sets |
| DetectDepTypes.DetectDepTypes | lockfile/detect-dep-types/src/index.ts:13-37 | a package is DevOnly, ProdOnly, DevAndProd or absent exactly as it is reached from what the importers list under `devDependencies`, from what they list under `dependencies` or `optionalDependencies`, from both or from neither |
| Agreement.TraversalsAgreeExactly | lockfile/filtering/src/filterLockfile.ts:5-16 | for every lockfile with packages: the pruner and the classifier find the same packages; this filter with everything included finds them too iff every known package to which spreading in its order drops a reference is met on another way; and so for the engine filter over all importers with its order |
| Agreement.MetIsAll | lockfile/walker/src/index.ts:125-132 | following the merged maps meets every package that following all maps does iff no package is lost to a dropped reference |
| Agreement.TraversalsAgree | lockfile/filtering/src/filterLockfile.ts:5-16 | in particular all four agree if no alias occurs in two dependency maps with different references |
| Agreement.ClashSeparates | lockfile/walker/src/index.ts:125-132 | an alias in both maps of a package loses a package in either spreading order, if only the overridden reference leads to it |
| Agreement.MixedReachesPlain | lockfile/filtering/src/filterLockfileByImportersAndEngine.ts:181-195 | what the mixed graph reaches through importers is met along merged maps from all importers |
| DepState.DepsStateCache.CalcDepStateObj | packages/calc-dep-state/src/index.ts:43-65 | result and cache are those of the memoised recursion, which terminates on every graph by 2·(ids not among the parents) + (1 if the node's id is) |
| DepState.MeasureDrops | packages/calc-dep-state/src/index.ts:52-61 | every recursive call lowers that measure, also on cyclic graphs |
| DepState.StateShowsWays | packages/calc-dep-state/src/index.ts:43-65 | on every graph and for all ancestors: a sequence of ids leads down an uncached state iff it is that of a way down the graph, always to the last child with an id, which goes on from no package whose id occurs among the ancestors before the package just above |
| DepState.StateShowsPaths | packages/calc-dep-state/src/index.ts:43-65 | where no id repeats below a package or among siblings, the sequences of ids in a state are exactly those of the paths of the graph |
| DepState.BelowShows | packages/calc-dep-state/src/index.ts:61 | there, the id of every package below occurs in the state |
| DepState.NoRepeatsIsHarmless | packages/calc-dep-state/src/index.ts:57-60 | a graph in which no package has its own id below it is harmless |
| DepState.UnfoldSame | packages/calc-dep-state/src/index.ts:52-60 | on a harmless graph the ancestors do not matter to the state of a package, but for whether its own id is among them, and not even that if only leaves repeat it below |
| DepState.MemoIsUnfold | packages/calc-dep-state/src/index.ts:43-65 | on a harmless graph a call whose cache is accurate at and below the package returns the uncached unfolding, keeps the entries below accurate and touches no others, also where a package lists itself |
| DepState.CallsAreIndependent | packages/calc-dep-state/src/index.ts:23-41 | on every harmless graph and for every sequence of calls sharing one cache, each returns the uncached unfolding |
| DepState.HarmShows | packages/calc-dep-state/src/index.ts:49-63 | a harmful repetition makes the second of two calls return a wrong state, the first being for the package whose id is repeated |
| DepState.IndependentIffHarmless | packages/calc-dep-state/src/index.ts:43-65 | where children of one package with one id agree on having children: all sequences of calls return the uncached unfoldings iff no package has another one below it with a child that repeats its id and has children |
| DepState.CycleSpoilsCache | packages/calc-dep-state/src/index.ts:49-63 | on a cycle of two packages the second call returns a state cut off by the first |
| DepState.MemoKeys | packages/calc-dep-state/src/index.ts:54-64 | on every graph, cyclic or not, a state has exactly the ids of the package's known children as keys |
| DepState.LockfileToDepGraph | packages/calc-dep-state/src/index.ts:67-93 | the graph has a node per package with exactly the edges of its merged dependency maps |
| SemVer.GtOrder | lockfile/merger/src/index.ts:102-105 | version precedence is a strict total order: irreflexive, asymmetric and transitive, and versions of which neither is higher are equal |
| SemVer.PrecedenceRules | lockfile/merger/src/index.ts:102-105 | a version is higher exactly by the rules of section 11: major, minor, patch, then releases above pre-releases and pre-releases by their first different identifier |
| Merger.MergeDict | lockfile/merger/src/index.ts:74-90 | fails iff some alias has two references that cannot be compared; otherwise the result is the merge of every alias |
| Merger.MergedDictAt | lockfile/merger/src/index.ts:97-106 | an alias gets the reference of one side, is absent iff both sides lack it, neither side has a higher version, and on a tie it is theirs |
| Merger.MergeLockfileChanges | lockfile/merger/src/index.ts:6-70 | fails iff a lockfile version or some pair of references cannot be compared; otherwise importers, packages, version, checksum and ignored dependencies are merged field by field |
| Merger.MergeSpecifiers | lockfile/merger/src/index.ts:92-95 | an alias has theirs wherever they have one, else ours; an empty specifier drops it |
| Merger.MergeKeepsClosed | lockfile/merger/src/index.ts:26-67 | if every reference of either lockfile resolves in its own packages or has no path, so does every reference of the merge |
| Merger.MergedSlot | lockfile/merger/src/index.ts:26-67 | a merged dependency, of an importer or of a package, is that of one side, neither side has a higher one, and on a tie it is theirs |
| Merger.MergedFields | lockfile/merger/src/index.ts:6-27 | the merge has the importers of both, the higher lockfile version and on a tie ours, our checksum or else theirs but no empty one, and the ignored dependencies of both once each |
| Merger.MergedSpecifiers | lockfile/merger/src/index.ts:40-44 | a specifier is theirs wherever they have one, and else ours, and is dropped if empty |
| Merger.MergedPackageFields | lockfile/merger/src/index.ts:47-66 | the merge has the packages of both, and every other field of a package is theirs wherever they have it |
| Merger.NothingEmpty | lockfile/merger/src/index.ts:36-38 | no merged field is present but empty, and no merged reference is empty |
| Merger.FoldIsMaximal | lockfile/fs/src/read.ts:212-219 | however many lockfiles are merged, in any order and grouping, each dependency of an importer or package gets a reference one of them has, and none has a higher version |
| Merger.ClashBySlots | lockfile/merger/src/index.ts:6-106 | two lockfiles cannot be merged iff one has an invalid lockfile version or some dependency has two different references of which one is no version |
| Merger.FoldsClash | lockfile/fs/src/read.ts:212-219 | two merged lockfiles cannot be merged iff a lockfile of one cannot be merged with a lockfile of the other |
| Merger.ClashIsPairwise | lockfile/fs/src/read.ts:212-219 | merging any number of lockfiles in any order fails iff two of them cannot be merged |
| Merger.FoldOrderIrrelevant | lockfile/fs/src/read.ts:212-219 | two ways of merging the same lockfiles both fail or both succeed, and then they agree on which dependencies there are and on the version of each |
| Merger.FoldKeepsClosed | lockfile/fs/src/read.ts:212-219 | merging closed lockfiles in any order gives a closed lockfile |
| FormatConverters.ConvertToLockfileFile | lockfile/fs/src/lockfileFormatConverters.ts:21-113 | snapshots per dep path, info per suffix-free id taken from a package with that id, inline specifiers, and normalised importers, settings and optional fields |
| FormatConverters.WrittenBase | lockfile/fs/src/lockfileFormatConverters.ts:57-112 | the file has version 9.0; every other field is as in the object unless it is empty, and then absent; settings are present iff they were, with `peersSuffixMaxLength` absent if it is 1000, `injectWorkspacePackages` absent if it is false, and nothing else changed |
| FormatConverters.WrittenImporter | lockfile/fs/src/lockfileFormatConverters.ts:69-83 | each field of an importer is written iff it is not empty, with exactly its dependencies, their references and their specifiers; meta and publish directory are kept unless empty |
| FormatConverters.WrittenPackages | lockfile/fs/src/lockfileFormatConverters.ts:24-49 | every package has its snapshot in the file, every id the info of a package with that id, and both parts are absent iff there is no package |
| FormatConverters.RevertProjectSnapshot | lockfile/fs/src/lockfileFormatConverters.ts:189-223 | throws iff a later block repeats an alias with another specifier; otherwise specifiers and versions are those of the blocks |
| FormatConverters.ConvertToLockfileObject | lockfile/fs/src/lockfileFormatConverters.ts:147-160 | throws iff some importer does; otherwise entries are rejoined from snapshot and info |
| FormatConverters.ReadPackages | lockfile/fs/src/lockfileFormatConverters.ts:150-154 | for every file, also one not written by the converter: a package per snapshot, with the info of its id or none |
| FormatConverters.ReadImporter | lockfile/fs/src/lockfileFormatConverters.ts:189-223 | each field has the versions of its own block, and every listed alias the specifier that any block has for it |
| FormatConverters.ImporterComesBack | lockfile/fs/src/lockfileFormatConverters.ts:162-223 | a written importer reads back with its dependencies, with the specifiers of exactly those, and without conflict |
| FormatConverters.WrittenFilesHaveNoConflict | lockfile/fs/src/lockfileFormatConverters.ts:194-204 | the conflict error cannot occur on a file that the converter wrote |
| FormatConverters.RoundTrip | lockfile/fs/src/lockfileFormatConverters.ts:21-223 | object to file to object is the identity, up to empty fields and default settings, iff the object has the current lockfile version, dep paths with one id carry equal info, no package is marked `patched`, and each importer's specifiers cover exactly its dependencies |
| FormatConverters.TidyIsNormal | lockfile/fs/src/lockfileFormatConverters.ts:57-112 | normalising leaves an object as it is iff it has no field that is present but empty and no default setting, so the identity above is up to nothing else |
| FormatConverters.ExactRoundTrip | lockfile/fs/src/lockfileFormatConverters.ts:21-223 | such an object comes back unchanged iff it meets the condition of the round trip |
| FormatConverters.WrittenFilesAreStable | lockfile/fs/src/lockfileFormatConverters.ts:21-223 | reading a written file and writing it again gives the same file |
| DependencyPath.IndexOfPeersSuffix | packages/dependency-path/src/index.ts:9-31 | the backward loop with its counter is the scan that the lemmas below characterise |
| DependencyPath.ScanThrough | packages/dependency-path/src/index.ts:11-29 | scanning back over any nested bracket text never stops inside it and changes the counter by the depth it closes |
| DependencyPath.SplitsAfter | packages/dependency-path/src/index.ts:9-31 | on text followed by balanced groups the scanner splits exactly after the text |
| DependencyPath.SuffixStart | packages/dependency-path/src/index.ts:9-31 | on every string that ends with a closing bracket, balanced or not, the suffix starts after the last character outside brackets after which as many brackets open as close, and there is none iff there is no such place |
| DependencyPath.SplitWithPatch | packages/dependency-path/src/index.ts:18-22 | with a patch group it finds where that group starts and where the peers start |
| DependencyPath.ParsePrint | packages/dependency-path/src/index.ts:118-165 | for printable parts `parse` returns the name, the version in the field that its validity calls for, the peers suffix or none, and the patch group or none, iff the peers do not pose as a patch hash |
| DependencyPath.UnparsedIffNoSeparator | packages/dependency-path/src/index.ts:126-132 | nothing is parsed from a string iff it has no `@` strictly inside |
| DependencyPath.RemoveSuffixOfPrinted | packages/dependency-path/src/index.ts:52-61 | `removeSuffix` of a printed path is `name@version`, whatever its suffix |
| DependencyPath.RemoveSuffixIdempotent | packages/dependency-path/src/index.ts:52-61 | on every string, `removeSuffix` twice is `removeSuffix` once, and a prefix of the string |
| DependencyPath.PkgIdOfPrinted | packages/dependency-path/src/index.ts:63-73 | the id with patch hash of a printed path drops exactly the peers, and the name if it mentions a protocol, iff the peers do not pose as a patch hash |
| DependencyPath.PackageIdOfPrinted | packages/dependency-path/src/index.ts:75-86 | the package id drops the whole suffix, whatever it is, and the name if it mentions a protocol |
| DependencyPath.RefResolves | packages/dependency-path/src/index.ts:94-108 | the reference of a registry package resolves to the path that prints it |
| DependencyPath.RefCases | packages/dependency-path/src/index.ts:94-108 | for every reference: a link has no path; one with an `@` before any colon or bracket is itself the path; any other follows the name |
| DependencyPath.AliasResolves | packages/dependency-path/src/index.ts:101-106 | a dependency installed under another name keeps its own printed path |
| DependencyPath.PeersDirSuffixIsSuffix | packages/dependency-path/src/index.ts:194-210 | what is generated for any peers, shortened or not, is a sequence of balanced groups, so paths built with it are printable |
| DependencyPath.NestedGroup | packages/dependency-path/src/index.ts:194-209 | a peer with peer groups of its own stands in a group, so paths with nested peers are printable |
| DependencyPath.PeersDirSuffixLists | packages/dependency-path/src/index.ts:194-210 | the suffix is the peers, sorted, each in a group of its own, or the hash of that list where it is longer than the limit |
| DependencyPath.PeerTextOf | packages/dependency-path/src/index.ts:196-204 | a resolved peer is `name@version`, and a path loses its leading slash |
| DependencyPath.PeersOrderIrrelevant | packages/dependency-path/src/index.ts:194-210 | the suffix does not depend on the order of the peers |
| GitMergeFile.ParseMergeFile | lockfile/fs/src/gitMergeFile.ts:24-51 | the two lists the loop fills are those of the line-by-line state machine |
| GitMergeFile.SegmentSplits | lockfile/fs/src/gitMergeFile.ts:29-49 | a common stretch goes to both sides and a conflict, with or without a parent part, to each its own, and the state is back at the top |
| GitMergeFile.SplitRendered | lockfile/fs/src/gitMergeFile.ts:24-51 | for every sequence of common stretches and conflicts with git's markers, whose lines are no markers themselves, splitting recovers exactly our lines and their lines in order |
| ImportIndexedDir.GetUniqueFileMap | fs/indexed-pkg-importer/src/importIndexedDir.ts:106-123 | keeps exactly the least name of every case-folded class with its source, and points every other name to the kept one of its class |
| StringOrder.LeqIsLexicographic | fs/indexed-pkg-importer/src/importIndexedDir.ts:110 | names are ordered by their first different character, prefixes first |
| ImportIndexedDir.OneNamePerClass | fs/indexed-pkg-importer/src/importIndexedDir.ts:106-123 | every class keeps exactly one name |
| ImportIndexedDir.SanitizeFilenames | fs/indexed-pkg-importer/src/importIndexedDir.ts:71-82 | lists exactly the names the sanitizer changes, and maps every sanitized name to the source of a name it came from (the last one, in the code) |
| ImportIndexedDir.SanitizeIdempotent | fs/indexed-pkg-importer/src/importIndexedDir.ts:75 | sanitizing a slash-separated name segment by segment is idempotent if the sanitizer is and emits no slash |
| ImportIndexedDir.SanitizedSegments | fs/indexed-pkg-importer/src/importIndexedDir.ts:75 | a sanitized name has as many segments as the name, each the sanitized one |
| ImportIndexedDir.SegmentsJoin | fs/indexed-pkg-importer/src/importIndexedDir.ts:75 | segments hold no slash and join to the name again |
| ImportIndexedDir.UniqueHasNoConflict | fs/indexed-pkg-importer/src/importIndexedDir.ts:36-51 | after the case repair no conflict is left and no new invalid name, and it changes nothing iff there was no conflict |
| ImportIndexedDir.ImportIndexedDir | fs/indexed-pkg-importer/src/importIndexedDir.ts:16-64 | for every behaviour of the file system the recursion ends, and its outcome is that of the retry rules |
| ImportIndexedDir.RunIsBounded | fs/indexed-pkg-importer/src/importIndexedDir.ts:32-63 | it starts over at most three times, only on EEXIST and ENOENT, ends with success or the last error, and gives up on one of these two only when there is nothing left to repair for it |
| ImportIndexedDir.RunIsDerived | fs/indexed-pkg-importer/src/importIndexedDir.ts:32-63 | final names carry the sources they came with under their own or their sanitized spelling; where no name needs a repair all stay, and where none needs cleaning the final names are all or the first of each class |
| ImportIndexedDir.SurvivesIffSafe | fs/indexed-pkg-importer/src/importIndexedDir.ts:32-63 | for every file system and every order of the file map a successful import has a name in place with its own source, iff the name is clean, first of its case-folded class among the given and among the sanitized names, and no file with another source is sanitized to it |

## Left out

- `pruneLockfile` (lockfile/pruner/src/index.ts:46-121): an easy preparation of one importer before the shared pruning.
- `depPathToFilename`: character replacement and a hash; only easy members.
- `parse` on values that are not strings; the TypeError for it.
- `calcDepState`: the string around the state object and its hash; sorting the keys of a state does not change it as a map.
- `time` in the format converter, which is pruned by a private reading of references with a leading slash.
- FormatConverters.ConvertToLockfileFile: importers have a `specifiers` map, as their type says; the source passes one without on as it is. The `time` map is left out. The file is a new value, so that a default setting is deleted from the caller's own settings object is not captured.
- FormatConverters.ConvertToLockfileObject: does not capture that the info fields are assigned into the file's own snapshot objects.
- `autofixMergeConflicts` beyond the line splitting: YAML, and cutting the text into lines (where blank lines collapse).
- File-system effects of the directory import: making, linking, renaming and merging directories, and its warnings. An attempt is one of four outcomes.
- Hoisting, asynchronous readers, loggers, command lines and registries.
- Platform and engine checks: an arbitrary predicate on dep paths.
- `String.prototype.sort` compares UTF-16 code units; the model orders strings by character code.
- Build selection: a second parent of an already walked node is not selected by the source either, so no claim is made that all ancestors are.
- Members of a cycle chunk may have dependencies in later chunks; no order is claimed for them.
- GraphSequencer.Sequencer.FindCycle: does not say which of several cycles is returned beyond what `safe` needs, because that depends on the order of edges.
- Merger.FoldOrderIrrelevant: two orders may still differ in the peer suffix of equal versions, as the source does.
- DepState.IndependentIffHarmless: the half that a repetition shows assumes that children of one package with one id agree on having children. Otherwise a child may be shadowed by a later one with its id, and the order of children decides whether anything below it is ever cached; harmlessness suffices on every graph (`DepState.CallsAreIndependent`).
- GraphSequencer.SequenceGraph: an edge to a node that is no key makes the search throw as soon as it is met, not when its turn in the queue comes; nothing can be observed in between.
- EngineFilter.FilterLockfileByImportersAndEngine: of a package that is reached both through and around refused packages, the first parent visited decides whether its check is made and, if it is optional, whether it ends on the skip list; for such packages no outcome is claimed.
- ImportIndexedDir.SanitizeFilenames: leaves open which of several names sanitized to one spelling wins; in the code it is the last entry of the file map.
- ImportIndexedDir.SurvivesIffSafe: for one given order of the file map a name that is not safe may still be certain to survive, when the last name sanitized to its spelling is itself.
- Pruner.PruneSharedLockfile: assumes that no two dep paths share one entry object; where they do, the flag of the later visit would show under both.
