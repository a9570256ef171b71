/** The engine-aware lockfile filter of lockfile/filtering. Besides packages it follows `link:` references
  * into workspace importers, so its graph has two kinds of vertices.
  */
module EngineFilter {
  import opened Digraph
  import opened Records
  import opened Lockfile
  import opened FilterByImporters

  datatype Vertex = Pkg(depPath: DepPath) | Imp(id: ProjectId)

  /** What the filter is given. `supported` is the platform and engine check of a package. */
  datatype Setup = Setup(
    rd: Reading,
    importers: ProjectSnapshots,
    packages: PackageSnapshots,
    fields: Include,
    supported: DepPath -> bool,
    includeIncompatible: bool,
    engineStrict: bool,
    failOnMissing: bool)

  datatype FilterError =
    | LockfileMissingDependency(depPath: DepPath)
    | Unsupported(depPath: DepPath)
    | TypeError(depPath: DepPath)

  datatype Verdict = Installable | NotInstallable | Throws

  /** `packageIsInstallable`: only an optional package is refused; a required one passes unless engines are strict. */
  function PackageIsInstallable(c: Setup, depPath: DepPath, optional: bool): Verdict {
    if c.supported(depPath) then Installable
    else if optional then NotInstallable
    else if c.engineStrict then Throws
    else Installable
  }

  /** The same below a parent: nothing is installable below what is not. */
  function InstallableBelow(c: Setup, depPath: DepPath, parentIsInstallable: bool): Verdict
    requires depPath in c.packages
  {
    if !parentIsInstallable then NotInstallable
    else if c.includeIncompatible then Installable
    else PackageIsInstallable(c, depPath, c.packages[depPath].optional)
  }

  // ----- References -----

  ghost function PathsIn(c: Setup, refs: set<(Alias, Ref)>): set<DepPath> {
    set p | p in refs && c.rd.linkTarget(p.1).None? && c.rd.refToRelative(p.1, p.0).Some? ::
      c.rd.refToRelative(p.1, p.0).value
  }

  ghost function LinksIn(c: Setup, refs: set<(Alias, Ref)>): set<ProjectId> {
    set p | p in refs && c.rd.linkTarget(p.1).Some? && c.rd.linkTarget(p.1).value in c.importers ::
      c.rd.linkTarget(p.1).value
  }

  /** The direct dependencies of an importer as this filter spreads them: prod, then dev, then optional. */
  function ImporterDeps(c: Setup, id: ProjectId): ResolvedDependencies
    requires id in c.importers
  {
    var p := c.importers[id];
    (if c.fields.dependencies then OrEmpty(p.dependencies) else map[]) +
    (if c.fields.devDependencies then OrEmpty(p.devDependencies) else map[]) +
    (if c.fields.optionalDependencies then OrEmpty(p.optionalDependencies) else map[])
  }

  ghost function Refs(c: Setup, v: Vertex): set<(Alias, Ref)> {
    match v
    case Pkg(d) => if d in c.packages then MergedDeps(c.packages[d], c.fields.optionalDependencies).Items else {}
    case Imp(id) => if id in c.importers then ImporterDeps(c, id).Items else {}
  }

  ghost function Pkgs(ds: set<DepPath>): set<Vertex> {
    set d | d in ds :: Pkg(d)
  }

  ghost function Imps(ids: set<ProjectId>): set<Vertex> {
    set id | id in ids :: Imp(id)
  }

  /** The mixed graph: importer and package edges to known packages and, by links, to known importers. */
  ghost function MixedGraph(c: Setup): Graph<Vertex> {
    map v | v in Pkgs(c.packages.Keys) + Imps(c.importers.Keys) ::
      Pkgs(PathsIn(c, Refs(c, v)) * c.packages.Keys) + Imps(LinksIn(c, Refs(c, v)))
  }

  ghost predicate Reached(c: Setup, roots: set<ProjectId>, v: Vertex) {
    Reaches(MixedGraph(c), Imps(roots), v)
  }

  /** Something that is reached refers to `d`. */
  ghost predicate Referred(c: Setup, roots: set<ProjectId>, d: DepPath) {
    exists v :: Reached(c, roots, v) && d in PathsIn(c, Refs(c, v))
  }

  // ----- The mixed graph, reference by reference -----

  /** The reference that is followed under an alias: of the included fields the last one that lists it counts. */
  ghost function RefUnder(c: Setup, v: Vertex, alias: Alias): Option<Ref> {
    match v
    case Pkg(d) => if d in c.packages then RefOf(c.packages[d], c.fields.optionalDependencies, alias) else None
    case Imp(id) =>
      if id !in c.importers then None
      else
        var p := c.importers[id];
        if c.fields.optionalDependencies && Lists(p.optionalDependencies, alias)
        then Some(p.optionalDependencies.value[alias])
        else if c.fields.devDependencies && Lists(p.devDependencies, alias) then Some(p.devDependencies.value[alias])
        else if c.fields.dependencies && Lists(p.dependencies, alias) then Some(p.dependencies.value[alias])
        else None
  }

  lemma RefsByAlias(c: Setup, v: Vertex, alias: Alias, ref: Ref)
    ensures (alias, ref) in Refs(c, v) <==> RefUnder(c, v, alias) == Some(ref)
  {
    match v
    case Pkg(d) =>
      if d in c.packages {
        MergedByAlias(c.packages[d], c.fields.optionalDependencies, alias);
      }
    case Imp(id) =>
      if id in c.importers {
        SpreadEngineByAlias(c, id, alias);
      }
  }

  lemma SpreadEngineByAlias(c: Setup, id: ProjectId, alias: Alias)
    requires id in c.importers
    ensures var m := ImporterDeps(c, id); RefUnder(c, Imp(id), alias) == if alias in m then Some(m[alias]) else None
  {
  }

  /** A link leads to a known importer, any other reference to a known package. */
  ghost predicate Leads(c: Setup, alias: Alias, ref: Ref, w: Vertex) {
    match w
    case Pkg(e) => c.rd.linkTarget(ref).None? && c.rd.refToRelative(ref, alias) == Some(e) && e in c.packages
    case Imp(id) => c.rd.linkTarget(ref) == Some(id) && id in c.importers
  }

  lemma MixedEdgeByRef(c: Setup, v: Vertex, w: Vertex)
    ensures w in Succ(MixedGraph(c), v) <==>
      exists alias :: RefUnder(c, v, alias).Some? && Leads(c, alias, RefUnder(c, v, alias).value, w)
  {
    hide Refs, RefUnder;
    forall alias, ref ensures (alias, ref) in Refs(c, v) <==> RefUnder(c, v, alias) == Some(ref) {
      RefsByAlias(c, v, alias, ref);
    }
    NoRefsOfUnknown(c, v);
    if w in Succ(MixedGraph(c), v) {
      var p :| p in Refs(c, v) && Leads(c, p.0, p.1, w);
      assert (p.0, p.1) in Refs(c, v);
    }
    if alias :| RefUnder(c, v, alias).Some? && Leads(c, alias, RefUnder(c, v, alias).value, w) {
      assert (alias, RefUnder(c, v, alias).value) in Refs(c, v);
    }
  }

  lemma NoRefsOfUnknown(c: Setup, v: Vertex)
    ensures v !in MixedGraph(c) ==> Refs(c, v) == {}
  {
  }

  /** Without optional dependencies a package leads where its `dependencies` lead. */
  lemma MixedWithoutOptional(c: Setup, d: DepPath, w: Vertex)
    requires !c.fields.optionalDependencies
    ensures w in Succ(MixedGraph(c), Pkg(d)) <==>
      d in c.packages && exists alias ::
        Lists(c.packages[d].dependencies, alias) && Leads(c, alias, c.packages[d].dependencies.value[alias], w)
  {
    hide MixedGraph, Leads;
    MixedEdgeByRef(c, Pkg(d), w);
    if d in c.packages {
      var deps := c.packages[d].dependencies;
      forall alias
        ensures RefUnder(c, Pkg(d), alias) == if Lists(deps, alias) then Some(deps.value[alias]) else None
      {
      }
      if alias :| Lists(deps, alias) && Leads(c, alias, deps.value[alias], w) {
        assert RefUnder(c, Pkg(d), alias) == Some(deps.value[alias]);
      }
    }
  }

  // ----- Around and below refused packages -----

  /** The check of this package fails and the package is optional, so the filter does not want it installed. */
  ghost predicate Refused(c: Setup, d: DepPath) {
    d in c.packages && c.packages[d].optional && !c.includeIncompatible && !c.supported(d)
  }

  predicate Passes(c: Setup, d: DepPath) {
    c.includeIncompatible || c.supported(d)
  }

  /** The mixed graph without what refused packages refer to. */
  ghost function CutGraph(c: Setup): Graph<Vertex> {
    map v | v in MixedGraph(c) && !(v.Pkg? && Refused(c, v.depPath)) :: MixedGraph(c)[v]
  }

  /** Reached on a way around all refused packages. */
  ghost predicate FreelyReached(c: Setup, roots: set<ProjectId>, v: Vertex) {
    Reaches(CutGraph(c), Imps(roots), v)
  }

  /** Reached on a way through a refused package. */
  ghost predicate BelowRefused(c: Setup, roots: set<ProjectId>, v: Vertex) {
    exists r :: Refused(c, r) && Reached(c, roots, Pkg(r)) && Reaches(MixedGraph(c), Succ(MixedGraph(c), Pkg(r)), v)
  }

  /** How a vertex is met: below packages that are all installable, or below one that is not. */
  ghost predicate MetVia(c: Setup, roots: set<ProjectId>, installable: bool, v: Vertex) {
    if installable then FreelyReached(c, roots, v) else BelowRefused(c, roots, v)
  }

  /** How what `v` refers to is met. */
  ghost predicate LeadsOn(c: Setup, roots: set<ProjectId>, installable: bool, v: Vertex) {
    var refused := v.Pkg? && Refused(c, v.depPath);
    if installable then FreelyReached(c, roots, v) && !refused
    else BelowRefused(c, roots, v) || (refused && Reached(c, roots, v))
  }

  ghost predicate ReferredVia(c: Setup, roots: set<ProjectId>, installable: bool, d: DepPath) {
    exists v :: LeadsOn(c, roots, installable, v) && d in PathsIn(c, Refs(c, v))
  }

  lemma MetIsReached(c: Setup, roots: set<ProjectId>, installable: bool, v: Vertex)
    requires MetVia(c, roots, installable, v)
    ensures Reached(c, roots, v)
  {
    hide Reaches, MixedGraph;
    var g := MixedGraph(c);
    if installable {
      assert forall x :: x in CutGraph(c) ==> Succ(CutGraph(c), x) <= Succ(g, x);
      ReachesMono(CutGraph(c), g, Imps(roots), Imps(roots), v);
    } else {
      var r :| Refused(c, r) && Reached(c, roots, Pkg(r)) && Reaches(g, Succ(g, Pkg(r)), v);
      forall w | w in Succ(g, Pkg(r)) ensures Reaches(g, Imps(roots), w) {
        ReachesStep(g, Imps(roots), Pkg(r), w);
      }
      ReachesTrans(g, Imps(roots), Succ(g, Pkg(r)), v);
    }
  }

  lemma LeadsOnIsReached(c: Setup, roots: set<ProjectId>, installable: bool, v: Vertex)
    requires LeadsOn(c, roots, installable, v)
    ensures Reached(c, roots, v)
  {
    hide Reached, FreelyReached, BelowRefused, Refused;
    if installable || BelowRefused(c, roots, v) {
      MetIsReached(c, roots, installable, v);
    }
  }

  lemma ReferredViaIsReferred(c: Setup, roots: set<ProjectId>, installable: bool, d: DepPath)
    requires ReferredVia(c, roots, installable, d)
    ensures Referred(c, roots, d)
  {
    hide Reached, LeadsOn, PathsIn, Refs;
    var v :| LeadsOn(c, roots, installable, v) && d in PathsIn(c, Refs(c, v));
    LeadsOnIsReached(c, roots, installable, v);
  }

  lemma MetStep(c: Setup, roots: set<ProjectId>, installable: bool, v: Vertex, w: Vertex)
    requires LeadsOn(c, roots, installable, v) && w in Succ(MixedGraph(c), v)
    ensures MetVia(c, roots, installable, w)
  {
    hide Reaches, MixedGraph, Refused;
    var g := MixedGraph(c);
    if installable {
      assert w in Succ(CutGraph(c), v);
      ReachesStep(CutGraph(c), Imps(roots), v, w);
    } else if BelowRefused(c, roots, v) {
      var r :| Refused(c, r) && Reached(c, roots, Pkg(r)) && Reaches(g, Succ(g, Pkg(r)), v);
      ReachesStep(g, Succ(g, Pkg(r)), v, w);
    } else {
      ReachesRoot(g, Succ(g, v), w);
    }
  }

  /** Everything reached is met on one way or the other. */
  lemma ReachedEitherWay(c: Setup, roots: set<ProjectId>, v: Vertex)
    requires Reached(c, roots, v)
    ensures FreelyReached(c, roots, v) || BelowRefused(c, roots, v)
  {
    hide Reaches, MixedGraph, Refused;
    var inv := (v: Vertex) => Reached(c, roots, v) && (FreelyReached(c, roots, v) || BelowRefused(c, roots, v));
    forall r | r in Imps(roots) ensures inv(r) {
      ReachesRoot(MixedGraph(c), Imps(roots), r);
      ReachesRoot(CutGraph(c), Imps(roots), r);
    }
    forall a, b | inv(a) && b in Succ(MixedGraph(c), a) ensures inv(b) {
      ReachesStep(MixedGraph(c), Imps(roots), a, b);
      var installable := FreelyReached(c, roots, a) && !(a.Pkg? && Refused(c, a.depPath));
      assert LeadsOn(c, roots, installable, a);
      MetStep(c, roots, installable, a, b);
    }
    ReachesInvariant(MixedGraph(c), Imps(roots), inv, v);
  }

  // ----- Invariants of the traversal -----

  ghost function Found(picked: set<DepPath>, selected: set<ProjectId>): set<Vertex> {
    Pkgs(picked) + Imps(selected)
  }

  /** A dep path without an entry that does not stop the filter. */
  predicate Acceptable(c: Setup, d: DepPath) {
    d in c.packages || (!c.failOnMissing && !c.rd.isLink(d))
  }

  ghost predicate VertexDone(c: Setup, v: Vertex, found: set<Vertex>) {
    && Succ(MixedGraph(c), v) <= found
    && forall d :: d in PathsIn(c, Refs(c, v)) ==> Acceptable(c, d)
  }

  /** Everything found between the two states has been followed to its end. */
  ghost predicate Closing(c: Setup, found0: set<Vertex>, found1: set<Vertex>) {
    && found0 <= found1
    && forall v {:trigger VertexDone(c, v, found1)} :: v in found1 && v !in found0 ==> VertexDone(c, v, found1)
  }

  lemma ClosingTrans(c: Setup, found0: set<Vertex>, found1: set<Vertex>, found2: set<Vertex>)
    requires Closing(c, found0, found1) && Closing(c, found1, found2)
    ensures Closing(c, found0, found2)
  {
    forall v | v in found2 && v !in found0 ensures VertexDone(c, v, found2) {
      if v in found1 {
        assert VertexDone(c, v, found1);
      } else {
        assert VertexDone(c, v, found2);
      }
    }
  }

  ghost predicate Explains(c: Setup, roots: set<ProjectId>, error: FilterError) {
    match error
    case LockfileMissingDependency(d) => c.failOnMissing && d !in c.packages && !c.rd.isLink(d) && Referred(c, roots, d)
    case TypeError(d) => d !in c.packages && c.rd.isLink(d) && Referred(c, roots, d)
    case Unsupported(d) =>
      d in c.packages && c.engineStrict && !Passes(c, d) && !c.packages[d].optional && FreelyReached(c, roots, Pkg(d))
  }

  /** What becomes of a picked package, given the skip list before and after: refused, it is on the list; met below
    * installable packages only, it is off the list and with strict engines has passed its check; met below a package
    * that is not installable, it is on the list if it is optional and stays on or off it if it is not.
    */
  ghost predicate Settled(c: Setup, roots: set<ProjectId>, skipped0: set<DepPath>, skipped1: set<DepPath>, d: DepPath) {
    if Refused(c, d) then d in skipped1
    else
      || (FreelyReached(c, roots, Pkg(d)) && d !in skipped1 && (c.engineStrict ==> Passes(c, d)))
      || (BelowRefused(c, roots, Pkg(d)) && d in c.packages &&
          if c.packages[d].optional then d in skipped1 else (d in skipped1 <==> d in skipped0))
  }

  /** Only newly picked packages enter or leave the skip list, and all of them are settled. */
  ghost predicate SkippedOk(
    c: Setup, roots: set<ProjectId>, skipped0: set<DepPath>, skipped1: set<DepPath>,
    picked0: set<DepPath>, picked1: set<DepPath>)
  {
    && (forall d :: d in picked0 || d !in picked1 ==> (d in skipped0 <==> d in skipped1))
    && (forall d :: d in picked1 && d !in picked0 ==> Settled(c, roots, skipped0, skipped1, d))
  }

  // ----- The code -----

  class FilterContext {
    const c: Setup
    ghost const roots: set<ProjectId>
    var pickedPackages: PackageSnapshots
    var importerIdSet: set<ProjectId>
    var skipped: set<DepPath>

    ghost predicate Valid()
      reads this
    {
      && pickedPackages.Keys <= c.packages.Keys
      && (forall d :: d in pickedPackages ==> pickedPackages[d] == c.packages[d])
      && importerIdSet <= c.importers.Keys
      && (forall d :: d in pickedPackages ==> Reached(c, roots, Pkg(d)))
      && (forall id :: id in importerIdSet ==> Reached(c, roots, Imp(id)))
    }

    constructor (c: Setup, importerIds: seq<ProjectId>, skipped: set<DepPath>)
      requires Elems(importerIds) <= c.importers.Keys
      ensures Valid() && this.c == c && roots == Elems(importerIds)
      ensures pickedPackages == map[] && importerIdSet == Elems(importerIds) && this.skipped == skipped
    {
      this.c, roots := c, Elems(importerIds);
      pickedPackages, importerIdSet, this.skipped := map[], Elems(importerIds), skipped;
      new;
      forall id | id in importerIdSet ensures Reached(c, roots, Imp(id)) {
        ReachesRoot(MixedGraph(c), Imps(roots), Imp(id));
      }
    }

    method ParseDepRefs(refs: seq<(Alias, Ref)>) returns (depPaths: seq<DepPath>, importerIds: seq<ProjectId>)
      ensures Elems(depPaths) == PathsIn(c, Elems(refs))
      ensures Elems(importerIds) == LinksIn(c, Elems(refs))
    {
      depPaths, importerIds := [], [];
      var i := 0;
      while i < |refs|
        invariant 0 <= i <= |refs|
        invariant Elems(depPaths) == PathsIn(c, Elems(refs[..i]))
        invariant Elems(importerIds) == LinksIn(c, Elems(refs[..i]))
      {
        var (alias, ref) := refs[i];
        assert Elems(refs[..i + 1]) == Elems(refs[..i]) + {refs[i]} by {
          assert refs[..i + 1] == refs[..i] + [refs[i]];
          ElemsAppend(refs[..i], [refs[i]]);
        }
        OneMoreRef(c, Elems(refs[..i]), refs[i]);
        i := i + 1;
        var target := c.rd.linkTarget(ref);
        if target != None {
          if target.value in c.importers {
            ElemsAppend(importerIds, [target.value]);
            importerIds := importerIds + [target.value];
          }
          continue;
        }
        var depPath := c.rd.refToRelative(ref, alias);
        if depPath == None {
          continue;
        }
        ElemsAppend(depPaths, [depPath.value]);
        depPaths := depPaths + [depPath.value];
      }
      assert refs[..i] == refs;
    }

    /** The dep paths of these importers and of all importers they link to that were not selected before. */
    method ToImporterDepPaths(importerIds: seq<ProjectId>, ghost installable: bool) returns (r: seq<DepPath>)
      requires Valid() && Elems(importerIds) <= importerIdSet
      requires forall id :: id in Elems(importerIds) ==> MetVia(c, roots, installable, Imp(id))
      modifies this`importerIdSet
      ensures Valid() && old(importerIdSet) <= importerIdSet
      ensures ImportersFollowed(c, Elems(importerIds) + (importerIdSet - old(importerIdSet)), importerIdSet, Elems(r))
      ensures forall d :: d in r ==> ReferredVia(c, roots, installable, d)
      decreases c.importers.Keys - importerIdSet, |importerIds|
    {
      hide PathsIn, LinksIn, Refs, Reached, MetVia, ReferredVia, RefsOfAll, ImportersFollowed;
      var refs := UnnestDeps(importerIds);
      var depPaths, nextImporterIds := ParseDepRefs(refs);
      FollowImporters(c, roots, installable, Elems(importerIds));
      ghost var before, links := importerIdSet, Elems(nextImporterIds);
      if nextImporterIds == [] {
        assert links == {};
        FollowedNoLinks(c, Elems(importerIds), before, Elems(depPaths));
        assert Elems(importerIds) + (importerIdSet - before) == Elems(importerIds);
        return depPaths;
      }
      NoRefs(c);
      assert importerIds != [] by {
        assert nextImporterIds[0] in links;
        assert Elems<ProjectId>([]) == {};
      }
      nextImporterIds := NotIn(nextImporterIds, importerIdSet);
      assert nextImporterIds != [] ==> nextImporterIds[0] in Elems(nextImporterIds) - before;
      importerIdSet := importerIdSet + Elems(nextImporterIds);
      var more := ToImporterDepPaths(nextImporterIds, installable);
      ElemsAppend(depPaths, more);
      FollowedMore(
        c, Elems(importerIds), links, Elems(nextImporterIds), before, importerIdSet, Elems(depPaths), Elems(more));
      r := depPaths + more;
    }

    /** Pick the given packages and all they lead to. */
    method PkgAllDeps(depPaths: seq<DepPath>, parentIsInstallable: bool) returns (error: Option<FilterError>)
      requires Valid() && forall d :: d in depPaths ==> ReferredVia(c, roots, parentIsInstallable, d)
      modifies this
      ensures Valid() && old(pickedPackages.Keys) <= pickedPackages.Keys && old(importerIdSet) <= importerIdSet
      ensures SkippedOk(c, roots, old(skipped), skipped, old(pickedPackages.Keys), pickedPackages.Keys)
      ensures error.Some? ==> Explains(c, roots, error.value)
      ensures error.None? ==>
        && Closing(c, old(Found(pickedPackages.Keys, importerIdSet)), Found(pickedPackages.Keys, importerIdSet))
        && forall d :: d in depPaths ==> Acceptable(c, d) && (d in c.packages ==> d in pickedPackages)
      decreases c.packages.Keys - pickedPackages.Keys
    {
      hide Reached, ReferredVia, Settled, Closing, VertexDone, Explains;
      ghost var picked0, ids0, skipped0 := pickedPackages.Keys, importerIdSet, skipped;
      ClosingRefl(c, Found(picked0, ids0));
      error := None;
      var i := 0;
      while i < |depPaths|
        invariant 0 <= i <= |depPaths| && error.None?
        invariant Valid() && picked0 <= pickedPackages.Keys && ids0 <= importerIdSet
        invariant SkippedOk(c, roots, skipped0, skipped, picked0, pickedPackages.Keys)
        invariant Closing(c, Found(picked0, ids0), Found(pickedPackages.Keys, importerIdSet))
        invariant forall k :: 0 <= k < i ==>
          Acceptable(c, depPaths[k]) && (depPaths[k] in c.packages ==> depPaths[k] in pickedPackages)
      {
        var depPath := depPaths[i];
        i := i + 1;
        if depPath in pickedPackages {
          continue;
        }
        if depPath !in c.packages && !c.rd.isLink(depPath) {
          if c.failOnMissing {
            error := Some(LockfileMissingDependency(depPath));
            ReferredViaIsReferred(c, roots, parentIsInstallable, depPath);
            ErrorExplained(c, roots, error.value);
            return;
          }
          continue;
        }
        ghost var picked1, ids1, skipped1 := pickedPackages.Keys, importerIdSet, skipped;
        error := PkgWithDeps(depPath, parentIsInstallable);
        SkippedTrans(c, roots, skipped0, skipped1, skipped, picked0, picked1, pickedPackages.Keys);
        if error != None {
          return;
        }
        ClosingTrans(c, Found(picked0, ids0), Found(picked1, ids1), Found(pickedPackages.Keys, importerIdSet));
      }
    }

    /** One package that is not picked yet: the body of the loop over dep paths. */
    method PkgWithDeps(depPath: DepPath, parentIsInstallable: bool) returns (error: Option<FilterError>)
      requires Valid() && ReferredVia(c, roots, parentIsInstallable, depPath) && depPath !in pickedPackages
      requires depPath in c.packages || c.rd.isLink(depPath)
      modifies this
      ensures Valid() && old(pickedPackages.Keys) <= pickedPackages.Keys && old(importerIdSet) <= importerIdSet
      ensures SkippedOk(c, roots, old(skipped), skipped, old(pickedPackages.Keys), pickedPackages.Keys)
      ensures error.Some? ==> Explains(c, roots, error.value)
      ensures error.None? ==>
        && Closing(c, old(Found(pickedPackages.Keys, importerIdSet)), Found(pickedPackages.Keys, importerIdSet))
        && Acceptable(c, depPath) && depPath in pickedPackages
      decreases c.packages.Keys - pickedPackages.Keys, 0
    {
      hide Reached, Referred, ReferredVia, MetVia, LeadsOn, Closing, VertexDone, Explains, Found;
      hide PathsIn, LinksIn, Refs, ImportersFollowed, SkippedOk, InstallableBelow;
      ghost var picked0, ids0, skipped0 := pickedPackages.Keys, importerIdSet, skipped;
      SkippedSame(c, roots, skipped0, picked0);
      ReferredViaIsReferred(c, roots, parentIsInstallable, depPath);
      if depPath !in c.packages {
        error := Some(TypeError(depPath));
        ErrorExplained(c, roots, error.value);
        return;
      }
      var installable;
      error, installable := CheckInstallable(depPath, parentIsInstallable);
      if error != None {
        return;
      }
      var pkgSnapshot := c.packages[depPath];
      PickedReached(c, roots, depPath);
      NextLeadsOn(c, roots, parentIsInstallable, depPath, installable);
      pickedPackages := pickedPackages[depPath := pkgSnapshot];
      ghost var picked1, skipped1 := pickedPackages.Keys, skipped;
      assert picked1 == picked0 + {depPath};
      var nextRelDepPaths, additionalImporterIds := ParsePackage(depPath, installable);
      importerIdSet := importerIdSet + Elems(additionalImporterIds);
      ghost var ids1 := importerIdSet;
      var more := ToImporterDepPaths(additionalImporterIds, installable);
      ghost var ids2 := importerIdSet;
      ElemsAppend(nextRelDepPaths, more);
      error := PkgAllDeps(nextRelDepPaths + more, installable);
      SkippedTrans(c, roots, skipped0, skipped1, skipped, picked0, picked1, pickedPackages.Keys);
      if error == None {
        PickedDone(c, depPath, picked0, ids0, ids2, Elems(more), Elems(nextRelDepPaths + more),
                   pickedPackages.Keys, importerIdSet);
      }
    }

    method ParsePackage(depPath: DepPath, ghost installable: bool)
      returns (depPaths: seq<DepPath>, importerIds: seq<ProjectId>)
      requires depPath in c.packages && LeadsOn(c, roots, installable, Pkg(depPath))
      ensures Elems(depPaths) == PathsIn(c, Refs(c, Pkg(depPath)))
      ensures Elems(importerIds) == LinksIn(c, Refs(c, Pkg(depPath)))
      ensures forall d :: d in depPaths ==> ReferredVia(c, roots, installable, d)
      ensures forall id :: id in Elems(importerIds) ==>
        id in c.importers && Reached(c, roots, Imp(id)) && MetVia(c, roots, installable, Imp(id))
    {
      hide ReferredVia, MetVia, LeadsOn, Reached, PathsIn, LinksIn, Refs;
      var refs := Entries(MergedDeps(c.packages[depPath], c.fields.optionalDependencies));
      RefsOfPackage(c, depPath);
      depPaths, importerIds := ParseDepRefs(refs);
      RefsLeadOn(c, roots, installable, depPath);
      assert forall d :: d in depPaths ==> d in Elems(depPaths);
    }

    /** Whether the package can be installed below its parent, and what that does to the skip list. */
    method CheckInstallable(depPath: DepPath, parentIsInstallable: bool)
      returns (error: Option<FilterError>, installable: bool)
      requires depPath in c.packages && depPath !in pickedPackages
      requires ReferredVia(c, roots, parentIsInstallable, depPath)
      modifies this`skipped
      ensures error.Some? <==> InstallableBelow(c, depPath, parentIsInstallable) == Throws
      ensures error.Some? ==> Explains(c, roots, error.value) && skipped == old(skipped)
      ensures error.None? ==> (installable <==> InstallableBelow(c, depPath, parentIsInstallable) == Installable)
      ensures error.None? && installable ==> skipped == old(skipped) - {depPath}
      ensures error.None? && !installable ==>
        skipped == old(skipped) + if c.packages[depPath].optional then {depPath} else {}
      ensures error.None? ==>
        SkippedOk(c, roots, old(skipped), skipped, pickedPackages.Keys, pickedPackages.Keys + {depPath})
    {
      hide ReferredVia, MetVia, SkippedOk;
      PickMet(c, roots, parentIsInstallable, depPath);
      error, installable := None, false;
      var pkgSnapshot := c.packages[depPath];
      if !parentIsInstallable {
        if pkgSnapshot.optional {
          skipped := skipped + {depPath};
        }
      } else {
        var verdict :=
          if c.includeIncompatible then Installable else PackageIsInstallable(c, depPath, pkgSnapshot.optional);
        if verdict == Throws {
          error := Some(Unsupported(depPath));
          ThrowExplained(c, roots, depPath);
          return;
        }
        installable := verdict == Installable;
        if !installable {
          if pkgSnapshot.optional {
            skipped := skipped + {depPath};
          }
        } else {
          skipped := skipped - {depPath};
        }
      }
      SkippedFirst(c, roots, old(skipped), skipped, pickedPackages.Keys, depPath, parentIsInstallable, installable);
    }

    method UnnestDeps(importerIds: seq<ProjectId>) returns (refs: seq<(Alias, Ref)>)
      requires Elems(importerIds) <= c.importers.Keys
      ensures Elems(refs) == RefsOfAll(c, Elems(importerIds))
    {
      hide RefsOfAll;
      NoRefs(c);
      assert Elems(importerIds[..0]) == {};
      refs := [];
      var i := 0;
      while i < |importerIds|
        invariant 0 <= i <= |importerIds|
        invariant Elems(refs) == RefsOfAll(c, Elems(importerIds[..i]))
      {
        assert Elems(importerIds[..i + 1]) == Elems(importerIds[..i]) + {importerIds[i]} by {
          assert importerIds[..i + 1] == importerIds[..i] + [importerIds[i]];
          ElemsAppend(importerIds[..i], [importerIds[i]]);
        }
        assert importerIds[i] in Elems(importerIds);
        var more := Entries(ImporterDeps(c, importerIds[i]));
        ElemsAppend(refs, more);
        OneMoreImporter(c, Elems(importerIds[..i]), importerIds[i]);
        refs := refs + more;
        i := i + 1;
      }
      assert importerIds[..i] == importerIds;
    }
  }

  lemma NoRefs(c: Setup)
    ensures RefsOfAll(c, {}) == {} && LinksIn(c, {}) == {}
  {
  }

  function NotIn(ids: seq<ProjectId>, s: set<ProjectId>): (r: seq<ProjectId>)
    ensures Elems(r) == Elems(ids) - s
  {
    if ids == [] then []
    else
      var init, last := ids[..|ids| - 1], ids[|ids| - 1];
      assert ids == init + [last];
      ElemsAppend(init, [last]);
      ElemsAppend(NotIn(init, s), [last]);
      if last in s then NotIn(init, s) else NotIn(init, s) + [last]
  }

  lemma OneMoreRef(c: Setup, refs: set<(Alias, Ref)>, p: (Alias, Ref))
    ensures PathsIn(c, refs + {p}) == PathsIn(c, refs) +
      if c.rd.linkTarget(p.1).None? && c.rd.refToRelative(p.1, p.0).Some? then {c.rd.refToRelative(p.1, p.0).value}
      else {}
    ensures LinksIn(c, refs + {p}) == LinksIn(c, refs) +
      if c.rd.linkTarget(p.1).Some? && c.rd.linkTarget(p.1).value in c.importers then {c.rd.linkTarget(p.1).value}
      else {}
  {
    assert p in refs + {p};
  }

  ghost function RefsOfAll(c: Setup, ids: set<ProjectId>): set<(Alias, Ref)> {
    set id, p | id in ids && p in Refs(c, Imp(id)) :: p
  }

  lemma OneMoreImporter(c: Setup, ids: set<ProjectId>, id: ProjectId)
    ensures RefsOfAll(c, ids + {id}) == RefsOfAll(c, ids) + Refs(c, Imp(id))
  {
    hide Refs;
    assert id in ids + {id};
    assert forall i :: i in ids ==> i in ids + {id};
  }

  /** All dep paths of `ids` are listed, and all their links selected. */
  ghost predicate ImportersFollowed(c: Setup, ids: set<ProjectId>, selected: set<ProjectId>, listed: set<DepPath>) {
    forall id :: id in ids ==> PathsIn(c, Refs(c, Imp(id))) <= listed && LinksIn(c, Refs(c, Imp(id))) <= selected
  }

  lemma FollowImporters(c: Setup, roots: set<ProjectId>, installable: bool, ids: set<ProjectId>)
    requires ids <= c.importers.Keys && forall id :: id in ids ==> MetVia(c, roots, installable, Imp(id))
    ensures ImportersFollowed(c, ids, LinksIn(c, RefsOfAll(c, ids)), PathsIn(c, RefsOfAll(c, ids)))
    ensures forall d :: d in PathsIn(c, RefsOfAll(c, ids)) ==> ReferredVia(c, roots, installable, d)
    ensures forall l :: l in LinksIn(c, RefsOfAll(c, ids)) ==>
      l in c.importers && Reached(c, roots, Imp(l)) && MetVia(c, roots, installable, Imp(l))
  {
    hide Refs, Reached, FreelyReached, BelowRefused;
    forall id | id in ids
      ensures PathsIn(c, Refs(c, Imp(id))) <= PathsIn(c, RefsOfAll(c, ids))
      ensures LinksIn(c, Refs(c, Imp(id))) <= LinksIn(c, RefsOfAll(c, ids))
    {
      assert Refs(c, Imp(id)) <= RefsOfAll(c, ids);
    }
    forall d | d in PathsIn(c, RefsOfAll(c, ids)) ensures ReferredVia(c, roots, installable, d) {
      var p :| p in RefsOfAll(c, ids) && c.rd.linkTarget(p.1).None? && c.rd.refToRelative(p.1, p.0) == Some(d);
      var id :| id in ids && p in Refs(c, Imp(id));
      assert LeadsOn(c, roots, installable, Imp(id)) && d in PathsIn(c, Refs(c, Imp(id)));
    }
    forall l | l in LinksIn(c, RefsOfAll(c, ids))
      ensures Reached(c, roots, Imp(l)) && MetVia(c, roots, installable, Imp(l))
    {
      var p :| p in RefsOfAll(c, ids) && c.rd.linkTarget(p.1) == Some(l);
      var id :| id in ids && p in Refs(c, Imp(id));
      assert l in LinksIn(c, Refs(c, Imp(id)));
      assert Imp(l) in Succ(MixedGraph(c), Imp(id));
      MetStep(c, roots, installable, Imp(id), Imp(l));
      MetIsReached(c, roots, installable, Imp(l));
    }
  }

  lemma FollowedNoLinks(c: Setup, ids: set<ProjectId>, selected: set<ProjectId>, listed: set<DepPath>)
    requires ImportersFollowed(c, ids, {}, listed)
    ensures ImportersFollowed(c, ids, selected, listed)
  {
  }

  /** Following `ids` lists `listed` and links to `links`; following the new ones of those completes the job. */
  lemma FollowedMore(
    c: Setup, ids: set<ProjectId>, links: set<ProjectId>, next: set<ProjectId>,
    before: set<ProjectId>, after: set<ProjectId>,
    listed: set<DepPath>, more: set<DepPath>)
    requires ImportersFollowed(c, ids, links, listed) && next == links - before
    requires before + next <= after
    requires ImportersFollowed(c, next + (after - (before + next)), after, more)
    ensures ImportersFollowed(c, ids + (after - before), after, listed + more)
  {
    hide PathsIn, LinksIn, Refs;
  }

  // ----- Steps of the traversal -----

  lemma ClosingRefl(c: Setup, found: set<Vertex>)
    ensures Closing(c, found, found)
  {
  }

  lemma ErrorExplained(c: Setup, roots: set<ProjectId>, error: FilterError)
    requires Referred(c, roots, error.depPath)
    requires match error
             case LockfileMissingDependency(d) => c.failOnMissing && d !in c.packages && !c.rd.isLink(d)
             case TypeError(d) => d !in c.packages && c.rd.isLink(d)
             case Unsupported(d) => false
    ensures Explains(c, roots, error)
  {
  }

  lemma ThrowExplained(c: Setup, roots: set<ProjectId>, d: DepPath)
    requires d in c.packages && MetVia(c, roots, true, Pkg(d)) && InstallableBelow(c, d, true) == Throws
    ensures Explains(c, roots, Unsupported(d))
  {
    hide Reaches;
  }

  /** A known package is met as what refers to it leads on. */
  lemma PickMet(c: Setup, roots: set<ProjectId>, installable: bool, d: DepPath)
    requires d in c.packages && ReferredVia(c, roots, installable, d)
    ensures MetVia(c, roots, installable, Pkg(d))
  {
    hide Refs, LeadsOn;
    var v :| LeadsOn(c, roots, installable, v) && d in PathsIn(c, Refs(c, v));
    RefsOfKnown(c, v);
    MetStep(c, roots, installable, v, Pkg(d));
  }

  /** What a picked package refers to is met below an installable package exactly if it is one itself. */
  lemma NextLeadsOn(c: Setup, roots: set<ProjectId>, parent: bool, d: DepPath, installable: bool)
    requires d in c.packages && ReferredVia(c, roots, parent, d)
    requires InstallableBelow(c, d, parent) != Throws
    requires installable <==> InstallableBelow(c, d, parent) == Installable
    ensures LeadsOn(c, roots, installable, Pkg(d))
  {
    hide Reached, FreelyReached, BelowRefused, ReferredVia;
    PickMet(c, roots, parent, d);
    MetIsReached(c, roots, parent, Pkg(d));
  }

  lemma RefsLeadOn(c: Setup, roots: set<ProjectId>, installable: bool, d: DepPath)
    requires d in c.packages && LeadsOn(c, roots, installable, Pkg(d))
    ensures forall e :: e in PathsIn(c, Refs(c, Pkg(d))) ==> ReferredVia(c, roots, installable, e)
    ensures forall id :: id in LinksIn(c, Refs(c, Pkg(d))) ==>
      id in c.importers && Reached(c, roots, Imp(id)) && MetVia(c, roots, installable, Imp(id))
  {
    hide Refs, LeadsOn, Reached, MetVia;
    forall id | id in LinksIn(c, Refs(c, Pkg(d)))
      ensures Reached(c, roots, Imp(id)) && MetVia(c, roots, installable, Imp(id))
    {
      assert Imp(id) in Succ(MixedGraph(c), Pkg(d));
      MetStep(c, roots, installable, Pkg(d), Imp(id));
      MetIsReached(c, roots, installable, Imp(id));
    }
  }

  lemma PickedReached(c: Setup, roots: set<ProjectId>, d: DepPath)
    requires d in c.packages && Referred(c, roots, d)
    ensures Reached(c, roots, Pkg(d))
  {
    hide Refs, Reaches;
    var v :| Reached(c, roots, v) && d in PathsIn(c, Refs(c, v));
    RefsOfKnown(c, v);
    ReachesStep(MixedGraph(c), Imps(roots), v, Pkg(d));
  }

  lemma RefsOfKnown(c: Setup, v: Vertex)
    ensures v !in MixedGraph(c) ==> Refs(c, v) == {} && PathsIn(c, Refs(c, v)) == {}
  {
  }

  lemma RefsOfPackage(c: Setup, d: DepPath)
    requires d in c.packages
    ensures Refs(c, Pkg(d)) == MergedDeps(c.packages[d], c.fields.optionalDependencies).Items
  {
  }

  /** After the recursive call, the package, the importers it linked to and all they lead to are done. */
  lemma PickedDone(
    c: Setup, d: DepPath, picked0: set<DepPath>, ids0: set<ProjectId>, ids2: set<ProjectId>,
    more: set<DepPath>, next: set<DepPath>, picked3: set<DepPath>, ids3: set<ProjectId>)
    requires d in c.packages && picked0 + {d} <= picked3 && ids0 + LinksIn(c, Refs(c, Pkg(d))) <= ids2 <= ids3
    requires ids2 <= c.importers.Keys
    requires var links := LinksIn(c, Refs(c, Pkg(d)));
             ImportersFollowed(c, links + (ids2 - (ids0 + links)), ids2, more)
    requires PathsIn(c, Refs(c, Pkg(d))) + more <= next
    requires forall e :: e in next ==> Acceptable(c, e) && (e in c.packages ==> e in picked3)
    requires Closing(c, Found(picked0 + {d}, ids2), Found(picked3, ids3))
    ensures Closing(c, Found(picked0, ids0), Found(picked3, ids3))
  {
    hide PathsIn, LinksIn, Refs, Acceptable;
    var found3 := Found(picked3, ids3);
    forall v | v in found3 && v !in Found(picked0, ids0) ensures VertexDone(c, v, found3) {
      if v in Found(picked0 + {d}, ids2) {
        match v
        case Pkg(e) =>
        case Imp(id) => assert id in ids2 && id !in ids0;
      } else {
        assert VertexDone(c, v, found3);
      }
    }
  }

  // ----- The skip list -----

  lemma SkippedSame(c: Setup, roots: set<ProjectId>, skipped: set<DepPath>, picked: set<DepPath>)
    ensures SkippedOk(c, roots, skipped, skipped, picked, picked)
  {
  }

  lemma SkippedTrans(
    c: Setup, roots: set<ProjectId>, skipped0: set<DepPath>, skipped1: set<DepPath>, skipped2: set<DepPath>,
    picked0: set<DepPath>, picked1: set<DepPath>, picked2: set<DepPath>)
    requires picked0 <= picked1 <= picked2
    requires SkippedOk(c, roots, skipped0, skipped1, picked0, picked1)
    requires SkippedOk(c, roots, skipped1, skipped2, picked1, picked2)
    ensures SkippedOk(c, roots, skipped0, skipped2, picked0, picked2)
  {
    hide FreelyReached, BelowRefused, Refused, Passes;
    forall d | d in picked2 && d !in picked0 ensures Settled(c, roots, skipped0, skipped2, d) {
      if d in picked1 {
        assert Settled(c, roots, skipped0, skipped1, d);
      } else {
        assert Settled(c, roots, skipped1, skipped2, d);
      }
    }
  }

  /** The verdict on one package settles it. */
  lemma SkippedFirst(
    c: Setup, roots: set<ProjectId>, skipped0: set<DepPath>, skipped1: set<DepPath>, picked0: set<DepPath>, d: DepPath,
    parent: bool, installable: bool)
    requires d in c.packages && d !in picked0 && MetVia(c, roots, parent, Pkg(d))
    requires if installable then skipped1 == skipped0 - {d}
             else skipped1 == skipped0 + if c.packages[d].optional then {d} else {}
    requires installable <==> InstallableBelow(c, d, parent) == Installable
    requires InstallableBelow(c, d, parent) != Throws
    ensures SkippedOk(c, roots, skipped0, skipped1, picked0, picked0 + {d})
  {
    hide FreelyReached, BelowRefused;
    assert Settled(c, roots, skipped0, skipped1, d);
  }

  // ----- The filtered lockfile -----

  datatype EngineFiltered =
    | EngineFiltered(lockfile: LockfileObject, selectedImporterIds: set<ProjectId>, skipped: set<DepPath>)
    | EngineFailed(error: FilterError, skipped: set<DepPath>)

  /** An optional dependency stays only if it resolves to nothing or to a picked package. */
  function EngineImporter(c: Setup, p: ProjectSnapshot, picked: set<DepPath>): ProjectSnapshot {
    var q := FilterImporter(p, c.fields);
    var all := OrEmpty(q.optionalDependencies);
    q.(optionalDependencies := Some(map alias | alias in all &&
         var depPath := c.rd.refToRelative(all[alias], alias); depPath.None? || depPath.value in picked :: all[alias]))
  }

  function EngineImporters(c: Setup, picked: set<DepPath>): ProjectSnapshots {
    map id | id in c.importers :: EngineImporter(c, c.importers[id], picked)
  }

  /** What an importer of the filtered lockfile lists: what its included fields list, without the optional
    * dependencies that resolve to a package that is not picked.
    */
  lemma EngineFields(c: Setup, picked: set<DepPath>, id: ProjectId, alias: Alias)
    requires id in c.importers
    ensures EngineImporters(c, picked).Keys == c.importers.Keys
    ensures var p, q := c.importers[id], EngineImporters(c, picked)[id];
            && (Lists(q.dependencies, alias) <==> c.fields.dependencies && Lists(p.dependencies, alias))
            && (Lists(q.devDependencies, alias) <==> c.fields.devDependencies && Lists(p.devDependencies, alias))
            && (Lists(q.optionalDependencies, alias) <==>
                 && c.fields.optionalDependencies && Lists(p.optionalDependencies, alias)
                 && var target := c.rd.refToRelative(p.optionalDependencies.value[alias], alias);
                    target.Some? ==> target.value in picked)
            && (Lists(q.dependencies, alias) ==> q.dependencies.value[alias] == p.dependencies.value[alias])
            && (Lists(q.devDependencies, alias) ==> q.devDependencies.value[alias] == p.devDependencies.value[alias])
            && (Lists(q.optionalDependencies, alias) ==>
                 q.optionalDependencies.value[alias] == p.optionalDependencies.value[alias])
  {
  }

  ghost function ReachedPackages(c: Setup, roots: set<ProjectId>): PackageSnapshots {
    map d | d in c.packages && Reached(c, roots, Pkg(d)) :: c.packages[d]
  }

  ghost function ReachedImporters(c: Setup, roots: set<ProjectId>): set<ProjectId> {
    set id | id in c.importers && Reached(c, roots, Imp(id))
  }

  /** Picked packages and selected importers together are what the given importers reach in the mixed graph. */
  ghost predicate FilteredOk(c: Setup, roots: set<ProjectId>, skipped: set<DepPath>, r: EngineFiltered) {
    match r
    case EngineFiltered(l, selected, skipped') =>
      && l.packages == Some(ReachedPackages(c, roots))
      && selected == ReachedImporters(c, roots)
      && l.importers == EngineImporters(c, ReachedPackages(c, roots).Keys)
      && SkippedOk(c, roots, skipped, skipped', {}, ReachedPackages(c, roots).Keys)
    case EngineFailed(e, _) => Explains(c, roots, e)
  }

  /** Everything that is reached refers only to packages with an entry or, where missing entries do not
    * stop the filter, to missing ones.
    */
  ghost predicate AllAcceptable(c: Setup, roots: set<ProjectId>) {
    forall v, d {:trigger Reached(c, roots, v), Acceptable(c, d)} ::
      Reached(c, roots, v) && d in PathsIn(c, Refs(c, v)) ==> Acceptable(c, d)
  }

  lemma RootsAreFree(c: Setup, roots: set<ProjectId>)
    ensures forall id :: id in roots ==> MetVia(c, roots, true, Imp(id))
  {
    forall id | id in roots ensures MetVia(c, roots, true, Imp(id)) {
      ReachesRoot(CutGraph(c), Imps(roots), Imp(id));
    }
  }

  // ----- The outcome, whatever is refused -----

  /** A required package whose check fails. */
  ghost predicate FailsRequired(c: Setup, d: DepPath) {
    d in c.packages && !c.packages[d].optional && !Passes(c, d)
  }

  /** A package whose strict check is made whatever the order, and fails. */
  ghost predicate MustThrow(c: Setup, roots: set<ProjectId>, d: DepPath) {
    FailsRequired(c, d) && Reached(c, roots, Pkg(d)) && !BelowRefused(c, roots, Pkg(d))
  }

  /** A package whose strict check is made in some order, and fails. */
  ghost predicate MayThrow(c: Setup, roots: set<ProjectId>, d: DepPath) {
    FailsRequired(c, d) && FreelyReached(c, roots, Pkg(d))
  }

  /** The filter succeeds only if nothing that is reached stops it and no strict check must fail, and it does succeed
    * if moreover none may.
    */
  lemma WhenItSucceeds(c: Setup, roots: set<ProjectId>, skipped: set<DepPath>, r: EngineFiltered)
    requires FilteredOk(c, roots, skipped, r) && (r.EngineFiltered? ==> AllAcceptable(c, roots))
    ensures r.EngineFiltered? ==> AllAcceptable(c, roots) && (c.engineStrict ==> forall d :: !MustThrow(c, roots, d))
    ensures AllAcceptable(c, roots) && (c.engineStrict ==> forall d :: !MayThrow(c, roots, d)) ==> r.EngineFiltered?
  {
    hide PathsIn, Reached, FreelyReached, BelowRefused, EngineImporters;
    if r.EngineFailed? {
      var d := r.error.depPath;
      if r.error.Unsupported? {
        assert MayThrow(c, roots, d);
      } else {
        var v :| Reached(c, roots, v) && d in PathsIn(c, Refs(c, v));
        assert !Acceptable(c, d);
      }
    } else {
      forall d | MustThrow(c, roots, d) ensures !c.engineStrict {
        assert Settled(c, roots, skipped, r.skipped, d);
      }
    }
  }

  /** The final skip list: which packages are on it for certain, and which are off it. Only of a package met on both
    * ways does the order of visits decide.
    */
  lemma FinalSkipList(c: Setup, roots: set<ProjectId>, skipped: set<DepPath>, r: EngineFiltered, d: DepPath)
    requires FilteredOk(c, roots, skipped, r) && r.EngineFiltered?
    ensures !(d in c.packages && Reached(c, roots, Pkg(d))) ==> (d in r.skipped <==> d in skipped)
    ensures d in c.packages && Reached(c, roots, Pkg(d)) ==>
      && (Refused(c, d) ==> d in r.skipped)
      && (!Refused(c, d) && !BelowRefused(c, roots, Pkg(d)) ==> d !in r.skipped)
      && (!FreelyReached(c, roots, Pkg(d)) && c.packages[d].optional ==> d in r.skipped)
      && (!FreelyReached(c, roots, Pkg(d)) && !c.packages[d].optional ==> (d in r.skipped <==> d in skipped))
      && (d in r.skipped && d !in skipped ==> c.packages[d].optional)
  {
    hide Reached, FreelyReached, BelowRefused, EngineImporters;
    if d in ReachedPackages(c, roots) {
      assert Settled(c, roots, skipped, r.skipped, d);
    }
  }

  ghost predicate NoneRefused(c: Setup, ds: set<DepPath>) {
    forall d :: d in ds ==> !Refused(c, d)
  }

  lemma NothingBelow(c: Setup, roots: set<ProjectId>)
    requires NoneRefused(c, ReachedPackages(c, roots).Keys)
    ensures forall v :: !BelowRefused(c, roots, v)
  {
    hide Reaches, Reached;
  }

  /** The outcome is determined where no failing required package is met on both ways, in particular where nothing
    * that is reached is refused; and then exactly the reached packages leave the skip list.
    */
  lemma SucceedsExactly(c: Setup, roots: set<ProjectId>, skipped: set<DepPath>, r: EngineFiltered)
    requires FilteredOk(c, roots, skipped, r) && (r.EngineFiltered? ==> AllAcceptable(c, roots))
    ensures (forall d :: MayThrow(c, roots, d) ==> MustThrow(c, roots, d)) ==>
      (r.EngineFiltered? <==> AllAcceptable(c, roots) && (c.engineStrict ==> forall d :: !MustThrow(c, roots, d)))
    ensures NoneRefused(c, ReachedPackages(c, roots).Keys) ==>
      && (forall d :: MayThrow(c, roots, d) <==> FailsRequired(c, d) && Reached(c, roots, Pkg(d)))
      && (forall d :: MustThrow(c, roots, d) <==> FailsRequired(c, d) && Reached(c, roots, Pkg(d)))
      && (r.EngineFiltered? ==> r.skipped == skipped - ReachedPackages(c, roots).Keys)
  {
    hide FilteredOk, Reached, FreelyReached, BelowRefused, FailsRequired, AllAcceptable, Refused;
    WhenItSucceeds(c, roots, skipped, r);
    if NoneRefused(c, ReachedPackages(c, roots).Keys) {
      NothingBelow(c, roots);
      forall d ensures FreelyReached(c, roots, Pkg(d)) <==> Reached(c, roots, Pkg(d)) {
        if FreelyReached(c, roots, Pkg(d)) {
          MetIsReached(c, roots, true, Pkg(d));
        }
        if Reached(c, roots, Pkg(d)) {
          ReachedEitherWay(c, roots, Pkg(d));
        }
      }
      if r.EngineFiltered? {
        forall d ensures d in r.skipped <==> d in skipped - ReachedPackages(c, roots).Keys {
          FinalSkipList(c, roots, skipped, r, d);
        }
      }
    }
  }

  method FilterLockfileByImportersAndEngine(
    lockfile: LockfileObject, importerIds: seq<ProjectId>, c: Setup, skipped: set<DepPath>) returns (r: EngineFiltered)
    requires c.importers == lockfile.importers
    requires c.packages == if lockfile.packages.Some? then lockfile.packages.value else map[]
    requires Elems(importerIds) <= lockfile.importers.Keys
    ensures FilteredOk(c, Elems(importerIds), skipped, r)
    ensures r.EngineFiltered? && lockfile.packages.Some? ==> AllAcceptable(c, Elems(importerIds))
  {
    hide Reached, MetVia, ReferredVia, Closing, VertexDone, Explains, ImportersFollowed, SkippedOk, Acceptable, Found;
    hide AllAcceptable;
    hide EngineImporters, ReachedPackages, ReachedImporters;
    var ctx := new FilterContext(c, importerIds, skipped);
    ghost var roots := Elems(importerIds);
    RootsAreFree(c, roots);
    var directDepPaths := ctx.ToImporterDepPaths(importerIds, true);
    ghost var ids1 := ctx.importerIdSet;
    assert roots + (ids1 - roots) == ids1;
    assert ctx.pickedPackages.Keys == {};
    SkippedSame(c, roots, skipped, {});
    if lockfile.packages != None {
      var error := ctx.PkgAllDeps(directDepPaths, true);
      if error != None {
        return EngineFailed(error.value, ctx.skipped);
      }
      assert forall d :: d in Elems(directDepPaths) ==> d in directDepPaths;
      AllDone(c, roots, ids1, Elems(directDepPaths), ctx.pickedPackages.Keys, ctx.importerIdSet);
    } else {
      LinksDone(c, roots, ids1, Elems(directDepPaths));
    }
    FoundIsReached(c, roots, ctx.pickedPackages, ctx.importerIdSet);
    var importers := EngineImporters(c, ctx.pickedPackages.Keys);
    r := EngineFiltered(LockfileObject(importers, Some(ctx.pickedPackages)), ctx.importerIdSet, ctx.skipped);
  }

  /** The vertices found hold the roots and their own successors. */
  ghost predicate FoundAll(c: Setup, roots: set<ProjectId>, picked: set<DepPath>, ids: set<ProjectId>) {
    && roots <= ids
    && forall v {:trigger Succ(MixedGraph(c), v)} :: v in Found(picked, ids) ==>
         Succ(MixedGraph(c), v) <= Found(picked, ids)
  }

  lemma AllDone(
    c: Setup, roots: set<ProjectId>, ids1: set<ProjectId>, listed: set<DepPath>, picked: set<DepPath>,
    ids: set<ProjectId>)
    requires roots <= ids1 <= ids && ids1 <= c.importers.Keys
    requires ImportersFollowed(c, ids1, ids1, listed)
    requires forall d :: d in listed ==> Acceptable(c, d) && (d in c.packages ==> d in picked)
    requires Closing(c, Found({}, ids1), Found(picked, ids))
    ensures FoundAll(c, roots, picked, ids) && AllAcceptable(c, roots)
  {
    hide PathsIn, LinksIn, Refs, Acceptable, Reaches;
    var found := Found(picked, ids);
    forall v | v in found ensures VertexDone(c, v, found) {
      if v.Imp? && v.id in ids1 {
        assert PathsIn(c, Refs(c, v)) <= listed && LinksIn(c, Refs(c, v)) <= ids1;
      } else {
        assert v !in Found({}, ids1);
        assert VertexDone(c, v, found);
      }
    }
    forall v, d | Reached(c, roots, v) && d in PathsIn(c, Refs(c, v)) ensures Acceptable(c, d) {
      ReachesInClosed(MixedGraph(c), Imps(roots), found, v);
      assert VertexDone(c, v, found);
    }
  }

  lemma LinksDone(c: Setup, roots: set<ProjectId>, ids: set<ProjectId>, listed: set<DepPath>)
    requires c.packages == map[] && roots <= ids <= c.importers.Keys
    requires ImportersFollowed(c, ids, ids, listed)
    ensures FoundAll(c, roots, {}, ids)
  {
    hide PathsIn, LinksIn, Refs;
  }

  lemma FoundIsReached(c: Setup, roots: set<ProjectId>, picked: PackageSnapshots, ids: set<ProjectId>)
    requires FoundAll(c, roots, picked.Keys, ids)
    requires picked.Keys <= c.packages.Keys && forall d :: d in picked ==>
      picked[d] == c.packages[d] && Reached(c, roots, Pkg(d))
    requires ids <= c.importers.Keys && forall id :: id in ids ==> Reached(c, roots, Imp(id))
    ensures picked == ReachedPackages(c, roots) && ids == ReachedImporters(c, roots)
  {
    hide MixedGraph, Reaches;
    var found := Found(picked.Keys, ids);
    forall v | Reached(c, roots, v) ensures v in found {
      ReachesInClosed(MixedGraph(c), Imps(roots), found, v);
    }
  }
}
