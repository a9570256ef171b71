/** Four traversals written independently of each other: what each finds, and exactly when they find the same. */
module Agreement {
  import opened Digraph
  import opened Records
  import opened Lockfile
  import Pruner
  import Walker
  import FilterByImporters
  import EngineFilter
  import DetectDepTypes

  /** No alias occurs in both maps with different references. */
  ghost predicate NoClash(m: ResolvedDependencies, n: ResolvedDependencies) {
    forall alias :: alias in m && alias in n ==> m[alias] == n[alias]
  }

  ghost predicate NoAliasClash(lockfile: LockfileObject) {
    && (forall id :: id in lockfile.importers ==>
         var p := lockfile.importers[id];
         && NoClash(OrEmpty(p.dependencies), OrEmpty(p.devDependencies))
         && NoClash(OrEmpty(p.dependencies), OrEmpty(p.optionalDependencies))
         && NoClash(OrEmpty(p.devDependencies), OrEmpty(p.optionalDependencies)))
    && (lockfile.packages.Some? ==> forall d :: d in lockfile.packages.value ==>
         var s := lockfile.packages.value[d]; NoClash(OrEmpty(s.dependencies), OrEmpty(s.optionalDependencies)))
  }

  /** A `link:` reference has no dep path. */
  ghost predicate LinksHaveNoPath(rd: Reading) {
    forall ref, alias :: rd.linkTarget(ref).Some? ==> rd.refToRelative(ref, alias).None?
  }

  // ----- The packages each traversal finds -----

  ghost function ByPruner(rd: Reading, l: LockfileObject): set<DepPath>
    requires l.packages.Some?
  {
    Pruner.PrunedPackages(rd, l.importers, l.packages.value).Keys
  }

  ghost function ByWalker(rd: Reading, l: LockfileObject): set<DepPath>
    requires l.packages.Some?
  {
    FilterByImporters.KeptPackages(
      Walker.World(rd, l.packages.value, true, {}),
      FilterByImporters.EntryNodes(rd, l.importers, l.importers.Keys, EVERYTHING)).Keys
  }

  ghost function ByEngineFilter(
    rd: Reading, l: LockfileObject, supported: DepPath -> bool, incompatible: bool, strict: bool,
    fail: bool): set<DepPath>
    requires l.packages.Some?
  {
    EngineFilter.ReachedPackages(
      EngineFilter.Setup(rd, l.importers, l.packages.value, EVERYTHING, supported, incompatible, strict, fail),
      l.importers.Keys).Keys
  }

  ghost function ByDetectDepTypes(rd: Reading, l: LockfileObject): set<DepPath>
    requires l.packages.Some?
  {
    set d | d in l.packages.value &&
      DetectDepTypes.TypeOf(DetectDepTypes.DevReached(rd, l, l.packages.value, d),
                            DetectDepTypes.ProdReached(rd, l, l.packages.value, d)).Some?
  }

  ghost function ReachedFromAll(rd: Reading, l: LockfileObject): set<DepPath>
    requires l.packages.Some?
  {
    set d | d in l.packages.value && Reaches(UnionEdges(rd, l.packages.value), AllRoots(rd, l.importers), d)
  }

  // ----- What spreading drops -----

  /** The two orders in which importers' fields are spread into one map; a later field wins an alias. */
  datatype Order = WalkerOrder | EngineOrder

  function Spread(order: Order, p: ProjectSnapshot): ResolvedDependencies {
    match order
    case WalkerOrder => OrEmpty(p.devDependencies) + OrEmpty(p.dependencies) + OrEmpty(p.optionalDependencies)
    case EngineOrder => OrEmpty(p.dependencies) + OrEmpty(p.devDependencies) + OrEmpty(p.optionalDependencies)
  }

  ghost function SpreadRoots(rd: Reading, importers: ProjectSnapshots, order: Order): set<DepPath> {
    set id, d | id in importers && d in DepPathsOf(rd, Spread(order, importers[id])) :: d
  }

  /** The spreading traversals meet `d`. */
  ghost predicate Met(rd: Reading, l: LockfileObject, order: Order, d: DepPath)
    requires l.packages.Some?
  {
    Reaches(MergedEdges(rd, l.packages.value, true), SpreadRoots(rd, l.importers, order), d)
  }

  /** Spreading drops a reference to `d` in an importer or in a package that is met. */
  ghost predicate Dropped(rd: Reading, l: LockfileObject, order: Order, d: DepPath)
    requires l.packages.Some?
  {
    || d in AllRoots(rd, l.importers) - SpreadRoots(rd, l.importers, order)
    || exists a :: Met(rd, l, order, a) &&
         d in Succ(UnionEdges(rd, l.packages.value), a) - Succ(MergedEdges(rd, l.packages.value, true), a)
  }

  /** Every package to which a reference is dropped is met on another way. */
  ghost predicate NothingLost(rd: Reading, l: LockfileObject, order: Order)
    requires l.packages.Some?
  {
    forall d :: d in l.packages.value && Dropped(rd, l, order, d) ==> Met(rd, l, order, d)
  }

  ghost function MetPackages(rd: Reading, l: LockfileObject, order: Order): set<DepPath>
    requires l.packages.Some?
  {
    set d | d in l.packages.value && Met(rd, l, order, d)
  }

  // ----- When the traversals agree -----

  /** The pruner and the classifier always agree. The walker's filter agrees with them exactly when spreading in its
    * order loses nothing, and so does the engine filter with its order.
    */
  lemma TraversalsAgreeExactly(
    rd: Reading, l: LockfileObject, supported: DepPath -> bool, incompatible: bool, strict: bool, fail: bool)
    requires l.packages.Some? && LinksHaveNoPath(rd)
    ensures ByPruner(rd, l) == ByDetectDepTypes(rd, l) == ReachedFromAll(rd, l)
    ensures ByWalker(rd, l) == ByPruner(rd, l) <==> NothingLost(rd, l, WalkerOrder)
    ensures ByEngineFilter(rd, l, supported, incompatible, strict, fail) == ByPruner(rd, l) <==>
      NothingLost(rd, l, EngineOrder)
  {
    hide LinksHaveNoPath, NothingLost, Met, ReachedFromAll, ByPruner, ByWalker, ByEngineFilter, ByDetectDepTypes;
    PrunerFinds(rd, l);
    DetectFinds(rd, l);
    WalkerFinds(rd, l);
    EngineFinds(rd, l, supported, incompatible, strict, fail);
    MetIsAll(rd, l, WalkerOrder);
    MetIsAll(rd, l, EngineOrder);
  }

  /** In particular all four agree when no alias occurs in two dependency maps with different references. */
  lemma TraversalsAgree(
    rd: Reading, l: LockfileObject, supported: DepPath -> bool, incompatible: bool, strict: bool, fail: bool)
    requires l.packages.Some? && NoAliasClash(l) && LinksHaveNoPath(rd)
    ensures ByPruner(rd, l) == ByWalker(rd, l) == ByEngineFilter(rd, l, supported, incompatible, strict, fail)
            == ByDetectDepTypes(rd, l) == ReachedFromAll(rd, l)
  {
    hide NoAliasClash, LinksHaveNoPath, Dropped, ReachedFromAll, ByPruner, ByWalker, ByEngineFilter, ByDetectDepTypes;
    TraversalsAgreeExactly(rd, l, supported, incompatible, strict, fail);
    NothingDropped(rd, l, WalkerOrder);
    NothingDropped(rd, l, EngineOrder);
  }

  lemma MetIsAll(rd: Reading, l: LockfileObject, order: Order)
    requires l.packages.Some?
    ensures MetPackages(rd, l, order) == ReachedFromAll(rd, l) <==> NothingLost(rd, l, order)
  {
    hide Reaches, UnionEdges, MergedEdges, AllRoots, SpreadRoots;
    var packages := l.packages.value;
    var u, m := UnionEdges(rd, packages), MergedEdges(rd, packages, true);
    var all, roots := AllRoots(rd, l.importers), SpreadRoots(rd, l.importers, order);
    SpreadIsPart(rd, l, order);
    forall d | Met(rd, l, order, d) ensures Reaches(u, all, d) {
      ReachesMono(m, u, roots, all, d);
    }
    forall d | Dropped(rd, l, order, d) ensures Reaches(u, all, d) {
      if d in all {
        ReachesRoot(u, all, d);
      } else {
        var a :| Met(rd, l, order, a) && d in Succ(u, a) - Succ(m, a);
        ReachesStep(u, all, a, d);
      }
    }
    if NothingLost(rd, l, order) {
      var inv := (n: DepPath) => n in packages ==> Met(rd, l, order, n);
      forall n | n in all ensures inv(n) {
        if n in roots {
          ReachesRoot(m, roots, n);
        }
      }
      forall a, b | inv(a) && b in Succ(u, a) ensures inv(b) {
        assert a in packages by {
          UnionKeys(rd, packages);
        }
        if b in Succ(m, a) {
          ReachesStep(m, roots, a, b);
        }
      }
      forall d | d in ReachedFromAll(rd, l) ensures Met(rd, l, order, d) {
        ReachesInvariant(u, all, inv, d);
      }
    } else {
      var d :| d in packages && Dropped(rd, l, order, d) && !Met(rd, l, order, d);
      assert d in ReachedFromAll(rd, l) && d !in MetPackages(rd, l, order);
    }
  }

  lemma UnionKeys(rd: Reading, packages: PackageSnapshots)
    ensures UnionEdges(rd, packages).Keys == packages.Keys
  {
  }

  /** Spreading adds no reference. */
  lemma SpreadIsPart(rd: Reading, l: LockfileObject, order: Order)
    requires l.packages.Some?
    ensures SpreadRoots(rd, l.importers, order) <= AllRoots(rd, l.importers)
    ensures var u, m := UnionEdges(rd, l.packages.value), MergedEdges(rd, l.packages.value, true);
            forall a :: a in m ==> Succ(m, a) <= Succ(u, a)
  {
    hide DepPathsOf, AllRoots;
    forall d | d in SpreadRoots(rd, l.importers, order) ensures d in AllRoots(rd, l.importers) {
      var id :| id in l.importers && d in DepPathsOf(rd, Spread(order, l.importers[id]));
      var p := l.importers[id];
      var dev, prod := OrEmpty(p.devDependencies), OrEmpty(p.dependencies);
      MergeIsPart(rd, dev, prod);
      MergeIsPart(rd, prod, dev);
      MergeIsPart(rd, if order == WalkerOrder then dev + prod else prod + dev, OrEmpty(p.optionalDependencies));
      AllRootsOf(rd, l.importers, d);
    }
    forall a | a in l.packages.value
      ensures Succ(MergedEdges(rd, l.packages.value, true), a) <= Succ(UnionEdges(rd, l.packages.value), a)
    {
      var s := l.packages.value[a];
      MergeIsPart(rd, OrEmpty(s.dependencies), OrEmpty(s.optionalDependencies));
    }
  }

  lemma MergeIsPart(rd: Reading, m: ResolvedDependencies, n: ResolvedDependencies)
    ensures DepPathsOf(rd, m + n) <= DepPathsOf(rd, m) + DepPathsOf(rd, n)
  {
  }

  // ----- Without a clash nothing is dropped -----

  lemma MergeNoClash(rd: Reading, m: ResolvedDependencies, n: ResolvedDependencies)
    requires NoClash(m, n)
    ensures DepPathsOf(rd, m + n) == DepPathsOf(rd, m) + DepPathsOf(rd, n)
  {
    forall d | d in DepPathsOf(rd, m) ensures d in DepPathsOf(rd, m + n) {
      var alias :| alias in m && rd.refToRelative(m[alias], alias) == Some(d);
      assert alias in m + n && (m + n)[alias] == m[alias];
    }
    forall d | d in DepPathsOf(rd, n) ensures d in DepPathsOf(rd, m + n) {
      var alias :| alias in n && rd.refToRelative(n[alias], alias) == Some(d);
      assert alias in m + n && (m + n)[alias] == n[alias];
    }
  }

  lemma SameEdges(rd: Reading, l: LockfileObject)
    requires l.packages.Some? && NoAliasClash(l)
    ensures MergedEdges(rd, l.packages.value, true) == UnionEdges(rd, l.packages.value)
  {
    hide DepPathsOf, NoClash;
    forall d | d in l.packages.value
      ensures MergedEdges(rd, l.packages.value, true)[d] == UnionEdges(rd, l.packages.value)[d]
    {
      var s := l.packages.value[d];
      MergeNoClash(rd, OrEmpty(s.dependencies), OrEmpty(s.optionalDependencies));
    }
  }

  ghost function ImporterRoots(rd: Reading, p: ProjectSnapshot): set<DepPath> {
    DepPathsOf(rd, OrEmpty(p.dependencies)) +
    DepPathsOf(rd, OrEmpty(p.devDependencies)) +
    DepPathsOf(rd, OrEmpty(p.optionalDependencies))
  }

  lemma ThreeFields(rd: Reading, a: ResolvedDependencies, b: ResolvedDependencies, c: ResolvedDependencies)
    requires NoClash(a, b) && NoClash(a, c) && NoClash(b, c)
    ensures DepPathsOf(rd, a + b + c) == DepPathsOf(rd, a) + DepPathsOf(rd, b) + DepPathsOf(rd, c)
  {
    hide DepPathsOf;
    MergeNoClash(rd, a, b);
    MergeNoClash(rd, a + b, c);
  }

  lemma NothingDropped(rd: Reading, l: LockfileObject, order: Order)
    requires l.packages.Some? && NoAliasClash(l)
    ensures forall d :: !Dropped(rd, l, order, d)
  {
    hide DepPathsOf, NoAliasClash, AllRoots, ImporterRoots, Reaches, UnionEdges, MergedEdges;
    SameEdges(rd, l);
    forall d | d in AllRoots(rd, l.importers) ensures d in SpreadRoots(rd, l.importers, order) {
      AllRootsOf(rd, l.importers, d);
      var id :| id in l.importers && d in ImporterRoots(rd, l.importers[id]);
      ImporterSpread(rd, l, id, order);
    }
  }

  lemma ImporterSpread(rd: Reading, l: LockfileObject, id: ProjectId, order: Order)
    requires NoAliasClash(l) && id in l.importers
    ensures DepPathsOf(rd, Spread(order, l.importers[id])) == ImporterRoots(rd, l.importers[id])
  {
    hide DepPathsOf;
    var p := l.importers[id];
    ThreeFields(rd, OrEmpty(p.dependencies), OrEmpty(p.devDependencies), OrEmpty(p.optionalDependencies));
    ThreeFields(rd, OrEmpty(p.devDependencies), OrEmpty(p.dependencies), OrEmpty(p.optionalDependencies));
  }

  lemma AllRootsOf(rd: Reading, importers: ProjectSnapshots, d: DepPath)
    ensures d in AllRoots(rd, importers) <==> exists id :: id in importers && d in ImporterRoots(rd, importers[id])
  {
    hide DepPathsOf;
    if id :| id in importers && d in ImporterRoots(rd, importers[id]) {
      assert d in DepPathsOf(rd, FieldOf(importers[id], Prod)) || d in DepPathsOf(rd, FieldOf(importers[id], Dev)) ||
             d in DepPathsOf(rd, FieldOf(importers[id], Optional));
    }
    if d in AllRoots(rd, importers) {
      var field :=
        if d in ProdRoots(rd, importers) then Prod
        else if d in DevRoots(rd, importers) then Dev
        else Optional;
      RootsByField(rd, importers, field, d);
      var id :| id in importers && d in DepPathsOf(rd, FieldOf(importers[id], field));
      assert d in ImporterRoots(rd, importers[id]);
    }
  }

  // ----- A clash that loses a package -----

  const NO_DEPS := PackageSnapshot(None, None, false)

  /** A project with one direct dependency `r0` whose package lists `alias` in both maps. */
  function TwoRefs(
    id: ProjectId, alias: Alias, r0: Ref, r1: Ref, r2: Ref, d0: DepPath, d1: DepPath, d2: DepPath): LockfileObject
  {
    LockfileObject(
      map[id := ProjectSnapshot(Some(map[alias := r0]), None, None)],
      Some(map[
        d0 := PackageSnapshot(Some(map[alias := r1]), Some(map[alias := r2]), false),
        d1 := NO_DEPS,
        d2 := NO_DEPS]))
  }

  /** Where the optional map of a package overrides an alias, the spreading traversals lose the package that only
    * the overridden reference leads to.
    */
  lemma ClashSeparates(
    rd: Reading, id: ProjectId, alias: Alias, r0: Ref, r1: Ref, r2: Ref, d0: DepPath, d1: DepPath, d2: DepPath,
    order: Order)
    requires rd.refToRelative(r0, alias) == Some(d0) && rd.refToRelative(r1, alias) == Some(d1)
    requires rd.refToRelative(r2, alias) == Some(d2)
    requires d0 != d1 && d0 != d2 && d1 != d2
    ensures !NothingLost(rd, TwoRefs(id, alias, r0, r1, r2, d0, d1, d2), order)
  {
    hide Reaches, MergedEdges, UnionEdges, SpreadRoots, AllRoots;
    var l := TwoRefs(id, alias, r0, r1, r2, d0, d1, d2);
    TwoRefsEdges(rd, id, alias, r0, r1, r2, d0, d1, d2, order);
    var m, roots := MergedEdges(rd, l.packages.value, true), SpreadRoots(rd, l.importers, order);
    ReachesRoot(m, roots, d0);
    assert Met(rd, l, order, d0) && Dropped(rd, l, order, d1);
    if Met(rd, l, order, d1) {
      ReachesInClosed(m, roots, {d0, d2}, d1);
    }
  }

  lemma TwoRefsEdges(
    rd: Reading, id: ProjectId, alias: Alias, r0: Ref, r1: Ref, r2: Ref, d0: DepPath, d1: DepPath, d2: DepPath,
    order: Order)
    requires rd.refToRelative(r0, alias) == Some(d0) && rd.refToRelative(r1, alias) == Some(d1)
    requires rd.refToRelative(r2, alias) == Some(d2)
    requires d0 != d1 && d0 != d2 && d1 != d2
    ensures var l := TwoRefs(id, alias, r0, r1, r2, d0, d1, d2);
            var m := MergedEdges(rd, l.packages.value, true);
            && SpreadRoots(rd, l.importers, order) == {d0}
            && Succ(m, d0) == {d2} && Succ(m, d2) == {}
            && d1 in Succ(UnionEdges(rd, l.packages.value), d0)
  {
    hide DepPathsOf;
    var l := TwoRefs(id, alias, r0, r1, r2, d0, d1, d2);
    OneAlias(rd, alias, r0);
    OneAlias(rd, alias, r1);
    OneAlias(rd, alias, r2);
    NoAlias(rd);
    assert Spread(order, l.importers[id]) == map[alias := r0];
    assert MergedDeps(l.packages.value[d0], true) == map[alias := r2];
    assert MergedDeps(l.packages.value[d2], true) == map[];
  }

  // ----- The pruner -----

  lemma PrunerFinds(rd: Reading, l: LockfileObject)
    requires l.packages.Some?
    ensures ByPruner(rd, l) == ReachedFromAll(rd, l)
  {
    hide Reaches, UnionEdges, AllRoots;
  }

  // ----- The walker -----

  lemma WalkerFinds(rd: Reading, l: LockfileObject)
    requires l.packages.Some?
    ensures ByWalker(rd, l) == MetPackages(rd, l, WalkerOrder)
  {
    var w := Walker.World(rd, l.packages.value, true, {});
    var entries := FilterByImporters.EntryNodes(rd, l.importers, l.importers.Keys, EVERYTHING);
    NothingAvoided(w);
    hide Reaches, MergedEdges, DepPathsOf, Walker.Avoiding;
    assert entries - {} == entries;
    forall d: DepPath ensures d in entries <==> d in SpreadRoots(rd, l.importers, WalkerOrder) {
      assert forall id :: id in l.importers ==>
        FilterByImporters.WalkerDeps(l.importers[id], EVERYTHING) == Spread(WalkerOrder, l.importers[id]);
    }
    assert entries == SpreadRoots(rd, l.importers, WalkerOrder);
  }

  lemma NothingAvoided(w: Walker.World)
    requires w.skipped == {}
    ensures Walker.Avoiding(w) == Walker.Edges(w)
  {
    hide DepPathsOf;
    forall d | d in w.packages ensures Walker.Avoiding(w)[d] == Walker.Edges(w)[d] {
      assert Succ(Walker.Edges(w), d) - {} == Walker.Edges(w)[d];
    }
  }

  // ----- The classifier -----

  lemma ReachesUnion(g: Graph<DepPath>, a: set<DepPath>, b: set<DepPath>, d: DepPath)
    ensures Reaches(g, a + b, d) <==> Reaches(g, a, d) || Reaches(g, b, d)
  {
    if Reaches(g, a + b, d) {
      var p :| PathFromTo(g, p, a + b, d);
      assert PathFromTo(g, p, a, d) || PathFromTo(g, p, b, d);
    }
    if Reaches(g, a, d) {
      ReachesMono(g, g, a, a + b, d);
    }
    if Reaches(g, b, d) {
      ReachesMono(g, g, b, a + b, d);
    }
  }

  lemma DetectFinds(rd: Reading, l: LockfileObject)
    requires l.packages.Some?
    ensures ByDetectDepTypes(rd, l) == ReachedFromAll(rd, l)
  {
    hide ProdRoots, DevRoots, OptionalRoots, Reaches, UnionEdges;
    var dev, prod := DevRoots(rd, l.importers), OptionalRoots(rd, l.importers) + ProdRoots(rd, l.importers);
    assert dev + prod == AllRoots(rd, l.importers);
    forall d | d in l.packages.value ensures d in ByDetectDepTypes(rd, l) <==> d in ReachedFromAll(rd, l) {
      ReachesUnion(UnionEdges(rd, l.packages.value), dev, prod, d);
    }
  }

  // ----- The engine filter -----

  lemma PathsAreDepPaths(c: EngineFilter.Setup, m: ResolvedDependencies)
    requires LinksHaveNoPath(c.rd)
    ensures EngineFilter.PathsIn(c, m.Items) == DepPathsOf(c.rd, m)
  {
    forall d | d in DepPathsOf(c.rd, m) ensures d in EngineFilter.PathsIn(c, m.Items) {
      var alias :| alias in m && c.rd.refToRelative(m[alias], alias) == Some(d);
      assert (alias, m[alias]) in m.Items;
    }
    forall d | d in EngineFilter.PathsIn(c, m.Items) ensures d in DepPathsOf(c.rd, m) {
      var p :| p in m.Items && c.rd.refToRelative(p.1, p.0) == Some(d);
      assert p.0 in m && m[p.0] == p.1;
    }
  }

  /** What a vertex of the mixed graph refers to. */
  lemma VertexPaths(c: EngineFilter.Setup)
    requires LinksHaveNoPath(c.rd) && c.fields == EVERYTHING
    ensures forall d :: d in c.packages ==>
      EngineFilter.PathsIn(c, EngineFilter.Refs(c, EngineFilter.Pkg(d))) == Succ(MergedEdges(c.rd, c.packages, true), d)
    ensures forall id :: id in c.importers ==>
      EngineFilter.PathsIn(c, EngineFilter.Refs(c, EngineFilter.Imp(id))) ==
      DepPathsOf(c.rd, Spread(EngineOrder, c.importers[id]))
  {
    hide DepPathsOf, LinksHaveNoPath, EngineFilter.PathsIn;
    forall d | d in c.packages
      ensures EngineFilter.PathsIn(c, EngineFilter.Refs(c, EngineFilter.Pkg(d))) ==
              Succ(MergedEdges(c.rd, c.packages, true), d)
    {
      PathsAreDepPaths(c, MergedDeps(c.packages[d], true));
    }
    forall id | id in c.importers
      ensures EngineFilter.PathsIn(c, EngineFilter.Refs(c, EngineFilter.Imp(id))) ==
              DepPathsOf(c.rd, Spread(EngineOrder, c.importers[id]))
    {
      PathsAreDepPaths(c, EngineFilter.ImporterDeps(c, id));
    }
  }

  lemma EngineFinds(
    rd: Reading, l: LockfileObject, supported: DepPath -> bool, incompatible: bool, strict: bool, fail: bool)
    requires l.packages.Some? && LinksHaveNoPath(rd)
    ensures ByEngineFilter(rd, l, supported, incompatible, strict, fail) == MetPackages(rd, l, EngineOrder)
  {
    var c := EngineFilter.Setup(rd, l.importers, l.packages.value, EVERYTHING, supported, incompatible, strict, fail);
    hide Reaches, LinksHaveNoPath, EngineFilter.MixedGraph, MergedEdges, SpreadRoots;
    forall d | d in l.packages.value
      ensures EngineFilter.Reached(c, l.importers.Keys, EngineFilter.Pkg(d)) <==> Met(rd, l, EngineOrder, d)
    {
      if EngineFilter.Reached(c, l.importers.Keys, EngineFilter.Pkg(d)) {
        MixedReachesPlain(c, l, d);
      }
      if Met(rd, l, EngineOrder, d) {
        PlainReachesMixed(c, l, d);
      }
    }
  }

  lemma MixedReachesPlain(c: EngineFilter.Setup, l: LockfileObject, d: DepPath)
    requires l.packages.Some? && LinksHaveNoPath(c.rd)
    requires c.importers == l.importers && c.packages == l.packages.value && c.fields == EVERYTHING
    requires EngineFilter.Reached(c, l.importers.Keys, EngineFilter.Pkg(d))
    ensures Met(c.rd, l, EngineOrder, d)
  {
    hide Reaches, LinksHaveNoPath, EngineFilter.PathsIn;
    hide EngineFilter.LinksIn, EngineFilter.Refs, MergedEdges, DepPathsOf;
    var g, roots := MergedEdges(c.rd, c.packages, true), SpreadRoots(c.rd, c.importers, EngineOrder);
    VertexPaths(c);
    var inv := (v: EngineFilter.Vertex) => v.Pkg? ==> Reaches(g, roots, v.depPath);
    forall v, w | inv(v) && w in Succ(EngineFilter.MixedGraph(c), v) ensures inv(w) {
      if w.Pkg? {
        assert w.depPath in EngineFilter.PathsIn(c, EngineFilter.Refs(c, v));
        match v
        case Pkg(e) => ReachesStep(g, roots, e, w.depPath);
        case Imp(id) => ReachesRoot(g, roots, w.depPath);
      }
    }
    ReachesInvariant(EngineFilter.MixedGraph(c), EngineFilter.Imps(l.importers.Keys), inv, EngineFilter.Pkg(d));
  }

  lemma PlainReachesMixed(c: EngineFilter.Setup, l: LockfileObject, d: DepPath)
    requires l.packages.Some? && LinksHaveNoPath(c.rd)
    requires c.importers == l.importers && c.packages == l.packages.value && c.fields == EVERYTHING
    requires d in c.packages && Met(c.rd, l, EngineOrder, d)
    ensures EngineFilter.Reached(c, l.importers.Keys, EngineFilter.Pkg(d))
  {
    hide Reaches, LinksHaveNoPath, EngineFilter.PathsIn, EngineFilter.LinksIn, EngineFilter.Refs, DepPathsOf;
    var g, roots := MergedEdges(c.rd, c.packages, true), SpreadRoots(c.rd, c.importers, EngineOrder);
    var mixed, imps := EngineFilter.MixedGraph(c), EngineFilter.Imps(l.importers.Keys);
    VertexPaths(c);
    var inv := (e: DepPath) => e in c.packages ==> Reaches(mixed, imps, EngineFilter.Pkg(e));
    forall e | e in roots ensures inv(e) {
      var id :| id in c.importers && e in DepPathsOf(c.rd, Spread(EngineOrder, c.importers[id]));
      ReachesRoot(mixed, imps, EngineFilter.Imp(id));
      if e in c.packages {
        assert EngineFilter.Pkg(e) in Succ(mixed, EngineFilter.Imp(id));
        ReachesStep(mixed, imps, EngineFilter.Imp(id), EngineFilter.Pkg(e));
      }
    }
    forall a, b | inv(a) && b in Succ(g, a) ensures inv(b) {
      if b in c.packages {
        assert a in c.packages;
        assert EngineFilter.Pkg(b) in Succ(mixed, EngineFilter.Pkg(a));
        ReachesStep(mixed, imps, EngineFilter.Pkg(a), EngineFilter.Pkg(b));
      }
    }
    ReachesInvariant(g, roots, inv, d);
  }
}
