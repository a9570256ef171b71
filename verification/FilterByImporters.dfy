/** The lockfile filter of lockfile/filtering that drains the lazy walker. */
module FilterByImporters {
  import opened Digraph
  import opened Records
  import opened Lockfile
  import opened Walker

  datatype Filtered = Filtered(lockfile: LockfileObject) | MissingDependency(depPath: DepPath)

  function FilterImporter(p: ProjectSnapshot, fields: Include): ProjectSnapshot {
    ProjectSnapshot(
      Some(if fields.dependencies then OrEmpty(p.dependencies) else map[]),
      Some(if fields.devDependencies then OrEmpty(p.devDependencies) else map[]),
      Some(if fields.optionalDependencies then OrEmpty(p.optionalDependencies) else map[]))
  }

  /** The direct dependencies of one importer as the walker spreads them: dev, then prod, then optional. */
  function WalkerDeps(p: ProjectSnapshot, fields: Include): ResolvedDependencies {
    (if fields.devDependencies then OrEmpty(p.devDependencies) else map[]) +
    (if fields.dependencies then OrEmpty(p.dependencies) else map[]) +
    (if fields.optionalDependencies then OrEmpty(p.optionalDependencies) else map[])
  }

  ghost function EntryNodes(
    rd: Reading, importers: ProjectSnapshots, ids: set<ProjectId>, fields: Include): set<DepPath>
  {
    set id, d | id in ids && id in importers && d in DepPathsOf(rd, WalkerDeps(importers[id], fields)) :: d
  }

  class PickContext {
    const walker: LockfileWalker
    const failOnMissing: bool
    var pickedPackages: PackageSnapshots

    ghost predicate Valid()
      reads this, walker
    {
      && walker.Valid()
      && pickedPackages.Keys == walker.state.expanded
      && (forall d :: d in pickedPackages ==> d in walker.packages && pickedPackages[d] == walker.packages[d])
    }

    constructor (walker: LockfileWalker, failOnMissing: bool)
      requires walker.Valid() && walker.state.expanded == {}
      ensures Valid() && this.walker == walker && this.failOnMissing == failOnMissing && pickedPackages == map[]
    {
      this.walker, this.failOnMissing, pickedPackages := walker, failOnMissing, map[];
    }

    /** Pick all of a step, running each thunk and draining what it yields before going on. */
    method PkgAllDeps(step: WalkerStep) returns (error: Option<DepPath>)
      requires Valid() && NoDup(step.dependencies)
      requires forall d :: d in step.dependencies ==> d in walker.state.yielded && d !in walker.state.expanded
      requires forall d :: d in step.missing ==> d in walker.state.missing
      modifies this, walker
      ensures Valid()
      ensures Drained(old(walker.state), walker.state, Elems(step.dependencies))
      ensures error.Some? ==> failOnMissing && error.value in walker.state.missing
      ensures error.None? ==> AllExpanded(old(walker.state), walker.state, Elems(step.dependencies))
      ensures error.None? && failOnMissing ==> step.missing == [] && walker.state.missing == old(walker.state.missing)
      decreases walker.packages.Keys - walker.state.expanded
    {
      hide Inv, StepOk, Drained, AllExpanded, Edges;
      ghost var s0, done := walker.state, {};
      NothingDrained(s0);
      var i := 0;
      while i < |step.dependencies|
        invariant 0 <= i <= |step.dependencies| && done == Elems(step.dependencies[..i])
        invariant Valid()
        invariant Drained(s0, walker.state, done) && AllExpanded(s0, walker.state, done)
        invariant failOnMissing ==> walker.state.missing == s0.missing
      {
        var depPath := step.dependencies[i];
        assert done + {depPath} == Elems(step.dependencies[..i + 1]) <= Elems(step.dependencies) by {
          assert step.dependencies[..i + 1] == step.dependencies[..i] + [depPath];
          ElemsAppend(step.dependencies[..i], [depPath]);
          PrefixElems(step.dependencies[..i + 1], step.dependencies);
        }
        assert depPath !in done;
        ghost var s1 := walker.state;
        StillPending(s0, s1, done, depPath);
        YieldedKnown(walker.world, s1, depPath);
        pickedPackages := pickedPackages[depPath := walker.packages[depPath]];
        var next := walker.Next(depPath);
        ghost var s2 := walker.state;
        FreshlyYielded(walker.world, s1, depPath, next, s2);
        error := PkgAllDeps(next);
        OneDrained(s0, s1, s2, walker.state, done, depPath, next, error.None?);
        done := done + {depPath};
        i := i + 1;
        if error != None {
          DrainedMono(s0, walker.state, done, Elems(step.dependencies));
          return;
        }
      }
      assert step.dependencies[..i] == step.dependencies;
      error := None;
      i := 0;
      while i < |step.missing|
        invariant 0 <= i <= |step.missing| && (failOnMissing ==> i == 0)
      {
        if failOnMissing {
          return Some(step.missing[i]);
        }
        i := i + 1;
      }
    }
  }

  /** From `s0` to `s1` only thunks of `roots` and of packages yielded meanwhile were run. */
  ghost predicate Drained(s0: WalkState, s1: WalkState, roots: set<DepPath>) {
    && s0.yielded <= s1.yielded && s0.missing <= s1.missing
    && s1.entered == s0.entered
    && s0.expanded <= s1.expanded <= s0.expanded + roots + (Elems(s1.yielded) - Elems(s0.yielded))
  }

  /** Their thunks, and those of all packages yielded meanwhile, have been run. */
  ghost predicate AllExpanded(s0: WalkState, s1: WalkState, roots: set<DepPath>) {
    roots + (Elems(s1.yielded) - Elems(s0.yielded)) <= s1.expanded
  }

  lemma NothingDrained(s: WalkState)
    ensures Drained(s, s, {}) && AllExpanded(s, s, {})
  {
  }

  lemma DrainedMono(s0: WalkState, s1: WalkState, roots: set<DepPath>, more: set<DepPath>)
    requires Drained(s0, s1, roots) && roots <= more
    ensures Drained(s0, s1, more)
  {
  }

  lemma PrefixElems(s: seq<DepPath>, t: seq<DepPath>)
    requires s <= t
    ensures Elems(s) <= Elems(t)
  {
    forall d | d in Elems(s) ensures d in Elems(t) {
      var i :| 0 <= i < |s| && s[i] == d;
      assert t[i] == d;
    }
  }

  lemma StillPending(s0: WalkState, s1: WalkState, done: set<DepPath>, d: DepPath)
    requires Drained(s0, s1, done) && d in s0.yielded && d !in s0.expanded && d !in done
    ensures d in s1.yielded && d !in s1.expanded && s0.expanded <= s1.expanded
  {
    PrefixElems(s0.yielded, s1.yielded);
    assert d in Elems(s0.yielded);
  }

  lemma YieldedKnown(w: World, s: WalkState, d: DepPath)
    requires Inv(w, s) && d in s.yielded
    ensures d in w.packages
  {
  }

  lemma FreshlyYielded(w: World, s: WalkState, d: DepPath, r: WalkerStep, s': WalkState)
    requires Inv(w, s) && d in s.yielded && StepOk(w, s.walked, Succ(Edges(w), d), r)
    requires s' == After(s, Succ(Edges(w), d), r).(expanded := s.expanded + {d})
    ensures NoDup(r.dependencies)
    ensures forall e :: e in r.dependencies ==> e in s'.yielded && e !in s'.expanded && e !in s.yielded
    ensures forall e :: e in r.missing ==> e in s'.missing
    ensures Elems(s'.yielded) == Elems(s.yielded) + Elems(r.dependencies)
  {
    ElemsAppend(s.yielded, r.dependencies);
    assert forall e :: e in s.yielded ==> e in Elems(s.yielded) && e in s.walked;
    assert forall e :: e in r.dependencies ==> e !in s.walked;
  }

  lemma OneDrained(
    s0: WalkState, s1: WalkState, s2: WalkState, s3: WalkState, done: set<DepPath>, d: DepPath, r: WalkerStep,
    all: bool)
    requires Drained(s0, s1, done) && AllExpanded(s0, s1, done)
    requires s2 == s1.(walked := s2.walked, yielded := s1.yielded + r.dependencies, links := s2.links,
                       missing := s1.missing + r.missing, expanded := s1.expanded + {d})
    requires Elems(s2.yielded) == Elems(s1.yielded) + Elems(r.dependencies)
    requires forall e :: e in r.dependencies ==> e !in s1.yielded
    requires Drained(s2, s3, Elems(r.dependencies))
    requires all ==> AllExpanded(s2, s3, Elems(r.dependencies))
    ensures Drained(s0, s3, done + {d})
    ensures all ==> AllExpanded(s0, s3, done + {d})
  {
    PrefixElems(s0.yielded, s1.yielded);
    PrefixElems(s2.yielded, s3.yielded);
    assert forall e :: e in Elems(r.dependencies) ==> e !in Elems(s1.yielded);
  }

  // ----- The filtered lockfile -----

  ghost function KeptPackages(w: World, roots: set<DepPath>): PackageSnapshots {
    map d | d in w.packages && ReachedAvoiding(w, roots, d) :: w.packages[d]
  }

  ghost predicate IsMissing(w: World, roots: set<DepPath>, d: DepPath) {
    d !in w.packages && !w.rd.isLink(d) && ReachedAvoiding(w, roots, d)
  }

  function FilteredImporters(importers: ProjectSnapshots, ids: set<ProjectId>, fields: Include): ProjectSnapshots {
    map id | id in importers :: if id in ids then FilterImporter(importers[id], fields) else importers[id]
  }

  method EntryNodesOf(rd: Reading, importers: ProjectSnapshots, importerIds: seq<ProjectId>, fields: Include)
    returns (entryNodes: seq<DepPath>)
    requires forall id :: id in importerIds ==> id in importers
    ensures Elems(entryNodes) == EntryNodes(rd, importers, Elems(importerIds), fields)
  {
    hide DepPathsOf, WalkerDeps;
    entryNodes := [];
    var i := 0;
    while i < |importerIds|
      invariant 0 <= i <= |importerIds|
      invariant Elems(entryNodes) == EntryNodes(rd, importers, Elems(importerIds[..i]), fields)
    {
      var id := importerIds[i];
      assert Elems(importerIds[..i + 1]) == Elems(importerIds[..i]) + {id} by {
        assert importerIds[..i + 1] == importerIds[..i] + [id];
        ElemsAppend(importerIds[..i], [id]);
      }
      var more := ResolvedDepsToDepPaths(rd, WalkerDeps(importers[id], fields));
      ElemsAppend(entryNodes, more);
      MoreEntryNodes(rd, importers, Elems(importerIds[..i]), id, fields);
      entryNodes := entryNodes + more;
      i := i + 1;
    }
    assert importerIds[..i] == importerIds;
  }

  lemma MoreEntryNodes(rd: Reading, importers: ProjectSnapshots, ids: set<ProjectId>, id: ProjectId, fields: Include)
    requires id in importers
    ensures EntryNodes(rd, importers, ids + {id}, fields) ==
            EntryNodes(rd, importers, ids, fields) + DepPathsOf(rd, WalkerDeps(importers[id], fields))
  {
    hide DepPathsOf, WalkerDeps;
    var all := EntryNodes(rd, importers, ids + {id}, fields);
    forall d | d in DepPathsOf(rd, WalkerDeps(importers[id], fields)) ensures d in all {
      assert id in ids + {id};
    }
    forall d | d in EntryNodes(rd, importers, ids, fields) ensures d in all {
      var i :| i in ids && i in importers && d in DepPathsOf(rd, WalkerDeps(importers[i], fields));
      assert i in ids + {id};
    }
  }

  method FilterLockfileByImporters(
    rd: Reading, lockfile: LockfileObject, importerIds: seq<ProjectId>, fields: Include, skipped: set<DepPath>,
    failOnMissingDependencies: bool) returns (r: Filtered)
    requires forall id :: id in importerIds ==> id in lockfile.importers
    ensures r.Filtered? ==> r.lockfile.packages.Some? &&
                            r.lockfile.importers == FilteredImporters(lockfile.importers, Elems(importerIds), fields)
    ensures lockfile.packages.None? ==> r.Filtered? && r.lockfile.packages == Some(map[])
    ensures lockfile.packages.Some? ==>
      var w := World(rd, lockfile.packages.value, fields.optionalDependencies, skipped);
      var roots := EntryNodes(rd, lockfile.importers, Elems(importerIds), fields);
      && (r.Filtered? ==> r.lockfile.packages.value == KeptPackages(w, roots))
      && (r.Filtered? && failOnMissingDependencies ==> forall d :: !IsMissing(w, roots, d))
      && (r.MissingDependency? ==> failOnMissingDependencies && IsMissing(w, roots, r.depPath))
  {
    hide Inv, StepOk, Drained, AllExpanded, EntryNodes, ReachedAvoiding;
    var importers := FilteredImporters(lockfile.importers, Elems(importerIds), fields);
    if lockfile.packages == None {
      return Filtered(LockfileObject(importers, Some(map[])));
    }
    var walker := new LockfileWalker(rd, lockfile.packages.value, fields.optionalDependencies, skipped);
    var entryNodes := EntryNodesOf(rd, lockfile.importers, importerIds, fields);
    ghost var s0 := walker.state;
    var step := walker.EnterAt(entryNodes);
    ghost var s1 := walker.state;
    assert s1.entered == Elems(entryNodes);
    StepListed(walker.world, s0.walked, Elems(entryNodes), step);
    var ctx := new PickContext(walker, failOnMissingDependencies);
    var error := ctx.PkgAllDeps(step);
    DrainedFromStart(s1, walker.state, step, error.None?);
    if error != None {
      MissingReached(walker.world, walker.state, error.value);
      return MissingDependency(error.value);
    }
    PickedAreKept(walker.world, walker.state, ctx.pickedPackages);
    return Filtered(LockfileObject(importers, Some(ctx.pickedPackages)));
  }

  lemma StepListed(w: World, walked: set<DepPath>, targets: set<DepPath>, r: WalkerStep)
    requires StepOk(w, walked, targets, r)
    ensures NoDup(r.dependencies)
  {
  }

  lemma DrainedFromStart(s0: WalkState, s1: WalkState, step: WalkerStep, all: bool)
    requires s0.yielded == step.dependencies && s0.expanded == {}
    requires Drained(s0, s1, Elems(step.dependencies)) && (all ==> AllExpanded(s0, s1, Elems(step.dependencies)))
    ensures s1.entered == s0.entered
    ensures all ==> Complete(s1)
  {
    assert forall d :: d in s1.yielded ==> d in Elems(s1.yielded);
  }

  lemma MissingReached(w: World, s: WalkState, d: DepPath)
    requires Inv(w, s) && d in s.missing
    ensures IsMissing(w, s.entered, d)
  {
    assert d in Elems(s.missing);
  }

  lemma PickedAreKept(w: World, s: WalkState, picked: PackageSnapshots)
    requires Inv(w, s) && Complete(s) && picked.Keys == s.expanded
    requires forall d :: d in picked ==> d in w.packages && picked[d] == w.packages[d]
    ensures picked == KeptPackages(w, s.entered)
    ensures s.missing == [] ==> forall d :: !IsMissing(w, s.entered, d)
  {
    hide NoDup, Reaches, ReachedAvoiding, Edges;
    CompleteIsReached(w, s);
    assert forall d :: d in s.yielded <==> d in Elems(s.yielded);
  }

  // ----- The included fields, reference by reference -----

  predicate Lists(deps: Option<ResolvedDependencies>, alias: Alias) {
    deps.Some? && alias in deps.value
  }

  /** The reference that is followed under an alias: of the included fields the last one that lists it counts. */
  ghost function DirectRef(p: ProjectSnapshot, fields: Include, alias: Alias): Option<Ref> {
    if fields.optionalDependencies && Lists(p.optionalDependencies, alias)
    then Some(p.optionalDependencies.value[alias])
    else if fields.dependencies && Lists(p.dependencies, alias) then Some(p.dependencies.value[alias])
    else if fields.devDependencies && Lists(p.devDependencies, alias) then Some(p.devDependencies.value[alias])
    else None
  }

  lemma SpreadByAlias(p: ProjectSnapshot, fields: Include, alias: Alias)
    ensures var m := WalkerDeps(p, fields); DirectRef(p, fields, alias) == if alias in m then Some(m[alias]) else None
  {
  }

  /** The entry nodes are what the included fields of the given importers refer to. */
  lemma EntryByRef(rd: Reading, importers: ProjectSnapshots, ids: set<ProjectId>, fields: Include, d: DepPath)
    ensures d in EntryNodes(rd, importers, ids, fields) <==>
      exists id, alias :: id in ids && id in importers &&
        var ref := DirectRef(importers[id], fields, alias); ref.Some? && rd.refToRelative(ref.value, alias) == Some(d)
  {
    hide WalkerDeps, DirectRef;
    forall id, alias | id in importers
      ensures var m := WalkerDeps(importers[id], fields);
              DirectRef(importers[id], fields, alias) == if alias in m then Some(m[alias]) else None
    {
      SpreadByAlias(importers[id], fields, alias);
    }
    if id, alias :| id in ids && id in importers && DirectRef(importers[id], fields, alias).Some? &&
                    rd.refToRelative(DirectRef(importers[id], fields, alias).value, alias) == Some(d) {
      assert d in DepPathsOf(rd, WalkerDeps(importers[id], fields));
    }
  }

  /** The edges through `dependencies` between packages that are not skipped. */
  ghost function RequiredAvoiding(rd: Reading, packages: PackageSnapshots, skipped: set<DepPath>): Graph<DepPath> {
    map d | d in packages && d !in skipped :: Succ(RequiredEdges(rd, packages), d) - skipped
  }

  /** Without optional dependencies the kept packages are those reached through `dependencies` alone. */
  lemma KeptWithoutOptional(
    rd: Reading, packages: PackageSnapshots, skipped: set<DepPath>, roots: set<DepPath>, d: DepPath)
    ensures d in KeptPackages(World(rd, packages, false, skipped), roots) <==>
      d in packages && Reaches(RequiredAvoiding(rd, packages, skipped), roots - skipped, d)
  {
    hide Reaches, RequiredEdges, MergedEdges;
    var w := World(rd, packages, false, skipped);
    MergedWithoutOptional(rd, packages);
    assert Avoiding(w) == RequiredAvoiding(rd, packages, skipped);
  }

  /** A filtered importer lists exactly what its included fields list; importers that are not given stay. */
  lemma FilteredFields(importers: ProjectSnapshots, ids: set<ProjectId>, fields: Include, id: ProjectId, alias: Alias)
    requires id in importers
    ensures FilteredImporters(importers, ids, fields).Keys == importers.Keys
    ensures var p, q := importers[id], FilteredImporters(importers, ids, fields)[id];
            if id !in ids then q == p
            else
              && (Lists(q.dependencies, alias) <==> fields.dependencies && Lists(p.dependencies, alias))
              && (Lists(q.devDependencies, alias) <==> fields.devDependencies && Lists(p.devDependencies, alias))
              && (Lists(q.optionalDependencies, alias) <==>
                   fields.optionalDependencies && Lists(p.optionalDependencies, alias))
              && (Lists(q.dependencies, alias) ==> q.dependencies.value[alias] == p.dependencies.value[alias])
              && (Lists(q.devDependencies, alias) ==> q.devDependencies.value[alias] == p.devDependencies.value[alias])
              && (Lists(q.optionalDependencies, alias) ==>
                   q.optionalDependencies.value[alias] == p.optionalDependencies.value[alias])
  {
  }

  // ----- What a filtered lockfile refers to -----

  /** The reference is a link, or its dep path is kept, was skipped on demand, or is spelled as a link. */
  ghost predicate Resolves(w: World, roots: set<DepPath>, alias: Alias, ref: Ref) {
    var target := w.rd.refToRelative(ref, alias);
    || target.None?
    || target.value in KeptPackages(w, roots)
    || target.value in w.skipped
    || w.rd.isLink(target.value)
  }

  ghost predicate RefsResolve(w: World, roots: set<DepPath>, deps: ResolvedDependencies) {
    forall alias :: alias in deps ==> Resolves(w, roots, alias, deps[alias])
  }

  /** With nothing missing, all references that the walk follows resolve. */
  lemma FilteredIsClosed(
    w: World, importers: ProjectSnapshots, ids: set<ProjectId>, fields: Include, roots: set<DepPath>)
    requires w.includeOptional == fields.optionalDependencies && ids <= importers.Keys
    requires roots == EntryNodes(w.rd, importers, ids, fields)
    requires forall d :: !IsMissing(w, roots, d)
    ensures forall id :: id in ids ==> RefsResolve(w, roots, WalkerDeps(importers[id], fields))
    ensures forall d :: d in KeptPackages(w, roots) ==>
      RefsResolve(w, roots, MergedDeps(w.packages[d], w.includeOptional))
  {
    hide Reaches, ReachedAvoiding;
    forall id | id in ids ensures RefsResolve(w, roots, WalkerDeps(importers[id], fields)) {
      forall d | d in DepPathsOf(w.rd, WalkerDeps(importers[id], fields)) && d !in w.skipped
        ensures ReachedAvoiding(w, roots, d)
      {
        assert d in roots;
        EntryReached(w, roots, d);
      }
      ReachedResolve(w, roots, WalkerDeps(importers[id], fields));
    }
    forall d | d in KeptPackages(w, roots)
      ensures RefsResolve(w, roots, MergedDeps(w.packages[d], w.includeOptional))
    {
      KeptIsNotSkipped(w, roots, d);
      forall e | e in DepPathsOf(w.rd, MergedDeps(w.packages[d], w.includeOptional)) && e !in w.skipped
        ensures ReachedAvoiding(w, roots, e)
      {
        NextReached(w, roots, d, e);
      }
      ReachedResolve(w, roots, MergedDeps(w.packages[d], w.includeOptional));
    }
  }

  lemma KeptIsNotSkipped(w: World, roots: set<DepPath>, d: DepPath)
    requires ReachedAvoiding(w, roots, d)
    ensures d !in w.skipped
  {
    hide Reaches, Edges;
    var inv := (n: DepPath) => n !in w.skipped;
    assert forall a, b :: b in Succ(Avoiding(w), a) ==> inv(b);
    ReachesInvariant(Avoiding(w), roots - w.skipped, inv, d);
  }

  /** The entries of `deps` that its spread form follows under another reference, or not at all. */
  ghost predicate DroppedResolve(
    w: World, roots: set<DepPath>, deps: ResolvedDependencies, spread: ResolvedDependencies)
  {
    forall alias :: alias in deps && (alias !in spread || spread[alias] != deps[alias]) ==>
      Resolves(w, roots, alias, deps[alias])
  }

  /** Every reference in every map of the given importers and of the packages of `l` resolves. */
  ghost predicate AllResolve(w: World, roots: set<DepPath>, ids: set<ProjectId>, l: LockfileObject)
    requires l.packages.Some? && ids <= l.importers.Keys
  {
    && (forall id, field :: id in ids ==> RefsResolve(w, roots, FieldOf(l.importers[id], field)))
    && (forall d :: d in l.packages.value ==>
         && RefsResolve(w, roots, OrEmpty(l.packages.value[d].dependencies))
         && RefsResolve(w, roots, OrEmpty(l.packages.value[d].optionalDependencies)))
  }

  /** Those that spreading drops do. */
  ghost predicate AllDroppedResolve(w: World, roots: set<DepPath>, ids: set<ProjectId>, l: LockfileObject)
    requires l.packages.Some? && ids <= l.importers.Keys
  {
    && (forall id, field :: id in ids ==>
         DroppedResolve(w, roots, FieldOf(l.importers[id], field), WalkerDeps(l.importers[id], EVERYTHING)))
    && (forall d :: d in l.packages.value ==>
         var s := l.packages.value[d];
         && DroppedResolve(w, roots, OrEmpty(s.dependencies), MergedDeps(s, w.includeOptional))
         && DroppedResolve(w, roots, OrEmpty(s.optionalDependencies), MergedDeps(s, w.includeOptional)))
  }

  /** The lockfile that the filter returns, with nothing missing, is closed exactly when the references that
    * spreading drops resolve too.
    */
  lemma ReturnedIsClosed(
    w: World, importers: ProjectSnapshots, ids: set<ProjectId>, fields: Include, roots: set<DepPath>, r: LockfileObject)
    requires w.includeOptional == fields.optionalDependencies && ids <= importers.Keys
    requires roots == EntryNodes(w.rd, importers, ids, fields)
    requires forall d :: !IsMissing(w, roots, d)
    requires r == LockfileObject(FilteredImporters(importers, ids, fields), Some(KeptPackages(w, roots)))
    ensures AllResolve(w, roots, ids, r) <==> AllDroppedResolve(w, roots, ids, r)
  {
    hide Resolves, KeptPackages, EntryNodes, MergedDeps;
    FilteredIsClosed(w, importers, ids, fields, roots);
    KeptAsGiven(w, roots);
    forall id, field | id in ids
      ensures RefsResolve(w, roots, FieldOf(r.importers[id], field)) <==>
              DroppedResolve(w, roots, FieldOf(r.importers[id], field), WalkerDeps(r.importers[id], EVERYTHING))
    {
      assert WalkerDeps(r.importers[id], EVERYTHING) == WalkerDeps(importers[id], fields);
      SpreadResolves(w, roots, FieldOf(r.importers[id], field), WalkerDeps(importers[id], fields));
    }
    forall d | d in r.packages.value
      ensures var s := r.packages.value[d];
              && (RefsResolve(w, roots, OrEmpty(s.dependencies)) <==>
                  DroppedResolve(w, roots, OrEmpty(s.dependencies), MergedDeps(s, w.includeOptional)))
              && (RefsResolve(w, roots, OrEmpty(s.optionalDependencies)) <==>
                  DroppedResolve(w, roots, OrEmpty(s.optionalDependencies), MergedDeps(s, w.includeOptional)))
    {
      var s := r.packages.value[d];
      SpreadResolves(w, roots, OrEmpty(s.dependencies), MergedDeps(s, w.includeOptional));
      SpreadResolves(w, roots, OrEmpty(s.optionalDependencies), MergedDeps(s, w.includeOptional));
    }
  }

  lemma KeptAsGiven(w: World, roots: set<DepPath>)
    ensures forall d :: d in KeptPackages(w, roots) ==> d in w.packages && KeptPackages(w, roots)[d] == w.packages[d]
  {
  }

  lemma SpreadResolves(w: World, roots: set<DepPath>, deps: ResolvedDependencies, spread: ResolvedDependencies)
    requires RefsResolve(w, roots, spread)
    ensures RefsResolve(w, roots, deps) <==> DroppedResolve(w, roots, deps, spread)
  {
    hide Resolves;
  }

  /** A project that lists `alias` for development and for production, with no entry for the former. */
  function TwoFields(id: ProjectId, alias: Alias, devRef: Ref, prodRef: Ref, prod: DepPath): LockfileObject {
    LockfileObject(
      map[id := ProjectSnapshot(Some(map[alias := prodRef]), Some(map[alias := devRef]), None)],
      Some(map[prod := PackageSnapshot(None, None, false)]))
  }

  /** So the returned lockfile can have a dangling reference although nothing was found missing. */
  lemma ClashDangles(rd: Reading, id: ProjectId, alias: Alias, devRef: Ref, prodRef: Ref, dev: DepPath, prod: DepPath)
    requires rd.refToRelative(devRef, alias) == Some(dev) && rd.refToRelative(prodRef, alias) == Some(prod)
    requires dev != prod && !rd.isLink(dev)
    ensures var l := TwoFields(id, alias, devRef, prodRef, prod);
            var w, roots := World(rd, l.packages.value, true, {}), EntryNodes(rd, l.importers, {id}, EVERYTHING);
            var r := LockfileObject(FilteredImporters(l.importers, {id}, EVERYTHING), Some(KeptPackages(w, roots)));
            (forall d :: !IsMissing(w, roots, d)) && !AllResolve(w, roots, {id}, r)
  {
    hide Reaches;
    var l := TwoFields(id, alias, devRef, prodRef, prod);
    var w, roots := World(rd, l.packages.value, true, {}), EntryNodes(rd, l.importers, {id}, EVERYTHING);
    assert WalkerDeps(l.importers[id], EVERYTHING) == map[alias := prodRef];
    OneAlias(rd, alias, prodRef);
    NoAlias(rd);
    assert roots == {prod};
    assert Succ(Avoiding(w), prod) == {};
    forall d | ReachedAvoiding(w, roots, d) ensures d == prod {
      ReachesInClosed(Avoiding(w), roots - {}, {prod}, d);
    }
    var p := FilterImporter(l.importers[id], EVERYTHING);
    assert alias in FieldOf(p, Dev) && !Resolves(w, roots, alias, FieldOf(p, Dev)[alias]);
  }

  lemma EntryReached(w: World, roots: set<DepPath>, d: DepPath)
    requires d in roots && d !in w.skipped
    ensures ReachedAvoiding(w, roots, d)
  {
    ReachesRoot(Avoiding(w), roots - w.skipped, d);
  }

  lemma ReachedResolve(w: World, roots: set<DepPath>, deps: ResolvedDependencies)
    requires forall d :: !IsMissing(w, roots, d)
    requires forall d :: d in DepPathsOf(w.rd, deps) && d !in w.skipped ==> ReachedAvoiding(w, roots, d)
    ensures RefsResolve(w, roots, deps)
  {
    hide ReachedAvoiding;
    forall alias | alias in deps && w.rd.refToRelative(deps[alias], alias).Some?
      ensures Resolves(w, roots, alias, deps[alias])
    {
      var d := w.rd.refToRelative(deps[alias], alias).value;
      assert d in DepPathsOf(w.rd, deps);
      assert !IsMissing(w, roots, d);
    }
  }
}
