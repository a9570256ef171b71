/** The lockfile as the traversals see it. Dep paths, aliases, references and project ids are opaque here:
  * what is proved about a traversal holds for any reading of references as dep paths, in particular for
  * the one of module DependencyPath.
  */
module Lockfile {
  import opened Digraph
  import opened Records

  type DepPath(==,!new)
  type ProjectId(==,!new)
  type Alias(==,!new)
  type Ref(==,!new)

  type ResolvedDependencies = map<Alias, Ref>

  /** How references and dep paths are read: `refToRelative`, the target of a `link:` reference, and the
    * tests on the spelling of a dep path.
    */
  datatype Reading = Reading(
    refToRelative: (Ref, Alias) -> Option<DepPath>,
    linkTarget: Ref -> Option<ProjectId>,
    isLink: DepPath -> bool,
    isLocalDirectory: DepPath -> bool)

  /** An absent map has no entries. */
  function OrEmpty(deps: Option<ResolvedDependencies>): (r: ResolvedDependencies)
    ensures forall alias :: alias in r <==> deps.Some? && alias in deps.value
    ensures forall alias :: alias in r ==> r[alias] == deps.value[alias]
  {
    match deps
    case None => map[]
    case Some(m) => m
  }

  datatype PackageSnapshot = PackageSnapshot(
    dependencies: Option<ResolvedDependencies>,
    optionalDependencies: Option<ResolvedDependencies>,
    optional: bool)

  type PackageSnapshots = map<DepPath, PackageSnapshot>

  datatype ProjectSnapshot = ProjectSnapshot(
    dependencies: Option<ResolvedDependencies>,
    devDependencies: Option<ResolvedDependencies>,
    optionalDependencies: Option<ResolvedDependencies>)

  type ProjectSnapshots = map<ProjectId, ProjectSnapshot>

  datatype LockfileObject = LockfileObject(importers: ProjectSnapshots, packages: Option<PackageSnapshots>)

  datatype Include = Include(dependencies: bool, devDependencies: bool, optionalDependencies: bool)

  const EVERYTHING := Include(true, true, true)

  // ----- Edges -----

  /** The dep paths a dependency map points to; a `link:` reference points to none. */
  function DepPathsOf(rd: Reading, deps: ResolvedDependencies): set<DepPath> {
    set alias | alias in deps && rd.refToRelative(deps[alias], alias).Some? ::
      rd.refToRelative(deps[alias], alias).value
  }

  lemma OneAlias(rd: Reading, alias: Alias, ref: Ref)
    requires rd.refToRelative(ref, alias).Some?
    ensures DepPathsOf(rd, map[alias := ref]) == {rd.refToRelative(ref, alias).value}
  {
    assert alias in map[alias := ref];
  }

  lemma NoAlias(rd: Reading)
    ensures DepPathsOf(rd, map[]) == {}
  {
  }

  method ResolvedDepsToDepPaths(rd: Reading, deps: ResolvedDependencies) returns (r: seq<DepPath>)
    ensures Elems(r) == DepPathsOf(rd, deps)
  {
    var entries := Entries(deps);
    r := [];
    var i := 0;
    while i < |entries|
      invariant 0 <= i <= |entries|
      invariant forall d :: d in r ==> d in DepPathsOf(rd, deps)
      invariant forall k :: 0 <= k < i && rd.refToRelative(entries[k].1, entries[k].0).Some? ==>
        rd.refToRelative(entries[k].1, entries[k].0).value in r
    {
      var (alias, reference) := entries[i];
      var depPath := rd.refToRelative(reference, alias);
      if depPath != None {
        assert alias in deps && deps[alias] == reference;
        r := r + [depPath.value];
      }
      i := i + 1;
    }
    forall d | d in DepPathsOf(rd, deps) ensures d in Elems(r) {
      var alias :| alias in deps && rd.refToRelative(deps[alias], alias) == Some(d);
      assert (alias, deps[alias]) in entries;
    }
  }

  /** Edges of the traversals that follow one dependency field after the other. */
  ghost function UnionEdges(rd: Reading, packages: PackageSnapshots): Graph<DepPath> {
    map d | d in packages ::
      DepPathsOf(rd, OrEmpty(packages[d].dependencies)) + DepPathsOf(rd, OrEmpty(packages[d].optionalDependencies))
  }

  /** Edges through `dependencies` alone. */
  ghost function RequiredEdges(rd: Reading, packages: PackageSnapshots): Graph<DepPath> {
    map d | d in packages :: DepPathsOf(rd, OrEmpty(packages[d].dependencies))
  }

  /** Spreading both fields into one map, where an optional entry wins its alias. */
  function MergedDeps(snapshot: PackageSnapshot, includeOptional: bool): ResolvedDependencies {
    OrEmpty(snapshot.dependencies) + (if includeOptional then OrEmpty(snapshot.optionalDependencies) else map[])
  }

  /** The reference that spreading leaves under an alias. */
  ghost function RefOf(snapshot: PackageSnapshot, includeOptional: bool, alias: Alias): Option<Ref> {
    if includeOptional && snapshot.optionalDependencies.Some? && alias in snapshot.optionalDependencies.value
    then Some(snapshot.optionalDependencies.value[alias])
    else if snapshot.dependencies.Some? && alias in snapshot.dependencies.value
    then Some(snapshot.dependencies.value[alias])
    else None
  }

  lemma MergedByAlias(snapshot: PackageSnapshot, includeOptional: bool, alias: Alias)
    ensures var m := MergedDeps(snapshot, includeOptional);
            RefOf(snapshot, includeOptional, alias) == if alias in m then Some(m[alias]) else None
  {
  }

  /** The edges of the traversals that spread, reference by reference. */
  lemma MergedEdgeByRef(rd: Reading, packages: PackageSnapshots, includeOptional: bool, d: DepPath, e: DepPath)
    ensures e in Succ(MergedEdges(rd, packages, includeOptional), d) <==>
      d in packages && exists alias ::
        var ref := RefOf(packages[d], includeOptional, alias);
        ref.Some? && rd.refToRelative(ref.value, alias) == Some(e)
  {
    hide MergedDeps, RefOf;
    if d in packages {
      var m := MergedDeps(packages[d], includeOptional);
      forall alias ensures RefOf(packages[d], includeOptional, alias) == if alias in m then Some(m[alias]) else None {
        MergedByAlias(packages[d], includeOptional, alias);
      }
    }
  }

  /** Without optional dependencies they are the edges through `dependencies`. */
  lemma MergedWithoutOptional(rd: Reading, packages: PackageSnapshots)
    ensures MergedEdges(rd, packages, false) == RequiredEdges(rd, packages)
  {
    hide DepPathsOf;
    forall d | d in packages ensures MergedDeps(packages[d], false) == OrEmpty(packages[d].dependencies) {
    }
  }

  ghost function MergedEdges(rd: Reading, packages: PackageSnapshots, includeOptional: bool): Graph<DepPath> {
    map d | d in packages :: DepPathsOf(rd, MergedDeps(packages[d], includeOptional))
  }

  // ----- Direct dependencies of all importers, by field -----

  datatype Field = Prod | Dev | Optional

  function FieldOf(p: ProjectSnapshot, field: Field): ResolvedDependencies {
    match field
    case Prod => OrEmpty(p.dependencies)
    case Dev => OrEmpty(p.devDependencies)
    case Optional => OrEmpty(p.optionalDependencies)
  }

  ghost function ProdRoots(rd: Reading, importers: ProjectSnapshots): set<DepPath> {
    set id, d | id in importers && d in DepPathsOf(rd, OrEmpty(importers[id].dependencies)) :: d
  }

  ghost function DevRoots(rd: Reading, importers: ProjectSnapshots): set<DepPath> {
    set id, d | id in importers && d in DepPathsOf(rd, OrEmpty(importers[id].devDependencies)) :: d
  }

  ghost function OptionalRoots(rd: Reading, importers: ProjectSnapshots): set<DepPath> {
    set id, d | id in importers && d in DepPathsOf(rd, OrEmpty(importers[id].optionalDependencies)) :: d
  }

  ghost function Roots(rd: Reading, importers: ProjectSnapshots, field: Field): set<DepPath> {
    match field
    case Prod => ProdRoots(rd, importers)
    case Dev => DevRoots(rd, importers)
    case Optional => OptionalRoots(rd, importers)
  }

  lemma RootsByField(rd: Reading, importers: ProjectSnapshots, field: Field, d: DepPath)
    ensures d in Roots(rd, importers, field) <==>
      exists id :: id in importers && d in DepPathsOf(rd, FieldOf(importers[id], field))
  {
    hide DepPathsOf;
  }

  ghost function AllRoots(rd: Reading, importers: ProjectSnapshots): set<DepPath> {
    ProdRoots(rd, importers) + DevRoots(rd, importers) + OptionalRoots(rd, importers)
  }

  method FieldDepPaths(rd: Reading, importers: ProjectSnapshots, field: Field) returns (r: seq<DepPath>)
    ensures Elems(r) == Roots(rd, importers, field)
  {
    hide DepPathsOf, Roots;
    var projects := Entries(importers);
    forall d: DepPath
      ensures d in Roots(rd, importers, field) <==>
        exists id :: id in importers && d in DepPathsOf(rd, FieldOf(importers[id], field))
    {
      RootsByField(rd, importers, field, d);
    }
    r := [];
    var i := 0;
    while i < |projects|
      invariant 0 <= i <= |projects|
      invariant forall d :: d in r ==> d in Roots(rd, importers, field)
      invariant forall k, d :: 0 <= k < i && d in DepPathsOf(rd, FieldOf(projects[k].1, field)) ==> d in r
    {
      var (id, project) := projects[i];
      var more := ResolvedDepsToDepPaths(rd, FieldOf(project, field));
      assert forall d :: d in more <==> d in Elems(more);
      r := r + more;
      i := i + 1;
    }
    forall d | d in Roots(rd, importers, field) ensures d in Elems(r) {
      var id :| id in importers && d in DepPathsOf(rd, FieldOf(importers[id], field));
      assert (id, importers[id]) in projects;
    }
  }
}
