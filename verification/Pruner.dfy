/** The lockfile pruner of lockfile/pruner: keep what the importers reach and recompute the `optional` flags.
  * Package entries are objects: the pruner changes the flag of the caller's own entry, and the pruned
  * lockfile shares that entry.
  */
module Pruner {
  import opened Digraph
  import opened Records
  import opened Lockfile

  class SnapshotObject {
    var snapshot: PackageSnapshot

    constructor (snapshot: PackageSnapshot)
      ensures this.snapshot == snapshot
    {
      this.snapshot := snapshot;
    }
  }

  type SnapshotObjects = map<DepPath, SnapshotObject>

  /** No two dep paths share an entry object. */
  ghost predicate OwnEntries(objects: SnapshotObjects) {
    forall d, e :: d in objects && e in objects && d != e ==> objects[d] != objects[e]
  }

  ghost function View(objects: SnapshotObjects): PackageSnapshots
    reads objects.Values
  {
    map d | d in objects :: objects[d].snapshot
  }

  /** A visit of a package in one of the two modes; the code keys its walked set by both. */
  datatype Visit = Visit(depPath: DepPath, optional: bool)

  ghost function Visits(ds: set<DepPath>, optional: bool): set<Visit> {
    set d | d in ds :: Visit(d, optional)
  }

  ghost function NextVisits(rd: Reading, packages: PackageSnapshots, v: Visit): set<Visit>
    requires v.depPath in packages
  {
    var s := packages[v.depPath];
    Visits(DepPathsOf(rd, OrEmpty(s.dependencies)), v.optional) +
    Visits(DepPathsOf(rd, OrEmpty(s.optionalDependencies)), true)
  }

  ghost function VisitGraph(rd: Reading, packages: PackageSnapshots): Graph<Visit> {
    map v | v in Visits(packages.Keys, true) + Visits(packages.Keys, false) :: NextVisits(rd, packages, v)
  }

  /** Local dependencies need no entry; `isLocalDirectory` is the test for `file:` without `.tar.gz`. */
  predicate NeedsNoEntry(rd: Reading, depPath: DepPath) {
    rd.isLink(depPath) || rd.isLocalDirectory(depPath)
  }

  // ----- Everything the walk writes, as a function of the visits made -----

  ghost function FlagAfter(walked: set<Visit>, d: DepPath, before: bool): bool {
    if Visit(d, false) in walked then false else if Visit(d, true) in walked then true else before
  }

  ghost predicate Visited(walked: set<Visit>, d: DepPath) {
    Visit(d, false) in walked || Visit(d, true) in walked
  }

  ghost function Flagged(packages: PackageSnapshots, walked: set<Visit>): PackageSnapshots {
    map d | d in packages :: packages[d].(optional := FlagAfter(walked, d, packages[d].optional))
  }

  ghost function GraphFlagged(graph: map<DepPath, bool>, known: set<DepPath>, walked: set<Visit>): map<DepPath, bool> {
    map d | d in graph :: if d in known then FlagAfter(walked, d, graph[d]) else graph[d]
  }

  ghost function Copied(objects: SnapshotObjects, walked: set<Visit>): SnapshotObjects {
    map d | d in objects && Visited(walked, d) :: objects[d]
  }

  ghost function NonOptional(known: set<DepPath>, walked: set<Visit>): set<DepPath> {
    set d | d in known && Visit(d, false) in walked
  }

  ghost function Warned(rd: Reading, known: set<DepPath>, walked: set<Visit>): set<DepPath> {
    set v | v in walked && v.depPath !in known && !NeedsNoEntry(rd, v.depPath) :: v.depPath
  }

  lemma MissingFlags(packages: PackageSnapshots, graph: map<DepPath, bool>, walked: set<Visit>, v: Visit)
    requires v.depPath !in packages
    ensures Flagged(packages, walked + {v}) == Flagged(packages, walked)
    ensures GraphFlagged(graph, packages.Keys, walked + {v}) == GraphFlagged(graph, packages.Keys, walked)
  {
  }

  lemma MissingSets(rd: Reading, packages: PackageSnapshots, objects: SnapshotObjects, walked: set<Visit>, v: Visit)
    requires v.depPath !in packages && objects.Keys == packages.Keys
    ensures Copied(objects, walked + {v}) == Copied(objects, walked)
    ensures NonOptional(packages.Keys, walked + {v}) == NonOptional(packages.Keys, walked)
    ensures Warned(rd, packages.Keys, walked + {v}) ==
            Warned(rd, packages.Keys, walked) + if NeedsNoEntry(rd, v.depPath) then {} else {v.depPath}
  {
    hide NeedsNoEntry;
    if !NeedsNoEntry(rd, v.depPath) {
      assert v in walked + {v} && v.depPath in Warned(rd, packages.Keys, walked + {v});
    }
    assert Warned(rd, packages.Keys, walked) <= Warned(rd, packages.Keys, walked + {v});
  }

  lemma PresentFlags(packages: PackageSnapshots, graph: map<DepPath, bool>, walked: set<Visit>, v: Visit)
    requires v.depPath in packages && v !in walked
    ensures var d, flag := v.depPath, v.optional && v.depPath !in NonOptional(packages.Keys, walked);
            && Flagged(packages, walked + {v}) == Flagged(packages, walked)[d := packages[d].(optional := flag)]
            && GraphFlagged(graph, packages.Keys, walked + {v}) ==
               (if d in graph then GraphFlagged(graph, packages.Keys, walked)[d := flag]
                else GraphFlagged(graph, packages.Keys, walked))
  {
  }

  lemma PresentSets(rd: Reading, packages: PackageSnapshots, objects: SnapshotObjects, walked: set<Visit>, v: Visit)
    requires v.depPath in packages && objects.Keys == packages.Keys && v !in walked
    ensures var d, flag := v.depPath, v.optional && v.depPath !in NonOptional(packages.Keys, walked);
            && Copied(objects, walked + {v}) == Copied(objects, walked)[d := objects[d]]
            && NonOptional(packages.Keys, walked + {v}) ==
               NonOptional(packages.Keys, walked) + (if flag then {} else {d})
            && Warned(rd, packages.Keys, walked + {v}) == Warned(rd, packages.Keys, walked)
  {
    hide NeedsNoEntry;
    assert Warned(rd, packages.Keys, walked) <= Warned(rd, packages.Keys, walked + {v});
  }

  class PruneContext {
    const rd: Reading
    const originalPackages: SnapshotObjects
    ghost const packages: PackageSnapshots
    ghost const graphBefore: map<DepPath, bool>
    var copiedSnapshots: SnapshotObjects
    var nonOptional: set<DepPath>
    var walked: set<Visit>
    var warned: seq<DepPath>
    var dependenciesGraph: map<DepPath, bool>

    ghost predicate Valid()
      reads this, originalPackages.Values
    {
      && OwnEntries(originalPackages)
      && originalPackages.Keys == packages.Keys
      && View(originalPackages) == Flagged(packages, walked)
      && copiedSnapshots == Copied(originalPackages, walked)
      && nonOptional == NonOptional(packages.Keys, walked)
      && Elems(warned) == Warned(rd, packages.Keys, walked)
      && dependenciesGraph == GraphFlagged(graphBefore, packages.Keys, walked)
    }

    constructor (rd: Reading, originalPackages: SnapshotObjects, dependenciesGraph: map<DepPath, bool>)
      requires OwnEntries(originalPackages)
      ensures Valid() && walked == {} && this.rd == rd && this.originalPackages == originalPackages
      ensures packages == View(originalPackages) && graphBefore == dependenciesGraph
    {
      this.rd := rd;
      this.originalPackages, this.packages := originalPackages, View(originalPackages);
      this.graphBefore, this.dependenciesGraph := dependenciesGraph, dependenciesGraph;
      copiedSnapshots, nonOptional, walked, warned := map[], {}, {}, [];
    }

    method CopyDependencySubGraph(depPaths: seq<DepPath>, optional: bool)
      requires Valid()
      modifies this, originalPackages.Values
      ensures Valid()
      ensures Walk(VisitGraph(rd, packages), Visits(Elems(depPaths), optional), old(walked), walked)
      ensures Visits(Elems(depPaths), optional) <= walked
      decreases Visits(packages.Keys, true) + Visits(packages.Keys, false) - walked
    {
      hide NeedsNoEntry, Flagged, GraphFlagged, Copied, NonOptional, Warned, OwnEntries, View, DepPathsOf;
      ghost var g, entries := VisitGraph(rd, packages), Visits(Elems(depPaths), optional);
      var i := 0;
      while i < |depPaths|
        invariant 0 <= i <= |depPaths|
        invariant Valid()
        invariant Walk(g, entries, old(walked), walked)
        invariant Visits(Elems(depPaths[..i]), optional) <= walked
      {
        var depPath := depPaths[i];
        assert Visits(Elems(depPaths[..i + 1]), optional) ==
          Visits(Elems(depPaths[..i]), optional) + {Visit(depPath, optional)} by {
          assert depPaths[..i + 1] == depPaths[..i] + [depPath];
          ElemsAppend(depPaths[..i], [depPath]);
        }
        assert depPath in Elems(depPaths) && Visit(depPath, optional) in entries;
        i := i + 1;
        if Visit(depPath, optional) in walked {
          continue;
        }
        ghost var before := walked;
        if depPath !in originalPackages {
          EnterMissing(depPath, optional);
          WalkNode(g, entries, Visit(depPath, optional), before, walked);
          WalkTrans(g, entries, old(walked), before, walked);
          continue;
        }
        EnterPresent(depPath, optional);
        ghost var entered := walked;
        var depLockfile := originalPackages[depPath].snapshot;
        var newDependencies := ResolvedDepsToDepPaths(rd, OrEmpty(depLockfile.dependencies));
        CopyDependencySubGraph(newDependencies, optional);
        ghost var halfway := walked;
        var newOptionalDependencies := ResolvedDepsToDepPaths(rd, OrEmpty(depLockfile.optionalDependencies));
        CopyDependencySubGraph(newOptionalDependencies, true);
        BothFieldsWalked(rd, packages, Visit(depPath, optional), entered, halfway, walked);
        WalkNode(g, entries, Visit(depPath, optional), before, walked);
        WalkTrans(g, entries, old(walked), before, walked);
      }
      assert depPaths[..i] == depPaths;
    }

    /** A dep path without an entry: warn unless it is a local dependency. */
    method EnterMissing(depPath: DepPath, optional: bool)
      requires Valid() && depPath !in originalPackages
      modifies this
      ensures Valid() && walked == old(walked) + {Visit(depPath, optional)}
    {
      hide NeedsNoEntry, Flagged, GraphFlagged, Copied, NonOptional, Warned, OwnEntries;
      MissingFlags(packages, graphBefore, walked, Visit(depPath, optional));
      MissingSets(rd, packages, originalPackages, walked, Visit(depPath, optional));
      walked := walked + {Visit(depPath, optional)};
      if !NeedsNoEntry(rd, depPath) {
        ElemsAppend(warned, [depPath]);
        warned := warned + [depPath];
      }
    }

    /** Copy the entry and set or clear its flag, in the entry itself. */
    method EnterPresent(depPath: DepPath, optional: bool)
      requires Valid() && Visit(depPath, optional) !in walked && depPath in originalPackages
      modifies this, originalPackages.Values
      ensures Valid() && walked == old(walked) + {Visit(depPath, optional)}
      ensures var s := originalPackages[depPath].snapshot; s == packages[depPath].(optional := s.optional)
    {
      hide GraphFlagged, Copied, NonOptional, Warned, Flagged, View, OwnEntries;
      PresentFlags(packages, graphBefore, walked, Visit(depPath, optional));
      PresentSets(rd, packages, originalPackages, walked, Visit(depPath, optional));
      EntryFlagged(packages, walked, depPath);
      GraphKeys(graphBefore, packages.Keys, walked);
      walked := walked + {Visit(depPath, optional)};
      copiedSnapshots := copiedSnapshots[depPath := originalPackages[depPath]];
      var flag := optional && depPath !in nonOptional;
      if !flag {
        nonOptional := nonOptional + {depPath};
      }
      assert View(originalPackages)[depPath] ==
        packages[depPath].(optional := View(originalPackages)[depPath].optional);
      SetOptional(originalPackages, depPath, flag);
      ViewAt(originalPackages, depPath);
      if depPath in dependenciesGraph {
        dependenciesGraph := dependenciesGraph[depPath := flag];
      }
    }
  }

  /** Sets the flag of one entry, or deletes it (`false`); the other entries keep theirs. */
  method SetOptional(objects: SnapshotObjects, depPath: DepPath, flag: bool)
    requires OwnEntries(objects) && depPath in objects
    modifies objects[depPath]
    ensures View(objects) == old(View(objects))[depPath := old(View(objects))[depPath].(optional := flag)]
  {
    var depLockfile := objects[depPath];
    depLockfile.snapshot := depLockfile.snapshot.(optional := flag);
  }

  lemma ViewAt(objects: SnapshotObjects, d: DepPath)
    requires d in objects
    ensures d in View(objects) && View(objects)[d] == objects[d].snapshot
  {
  }

  lemma EntryFlagged(packages: PackageSnapshots, walked: set<Visit>, d: DepPath)
    requires d in packages
    ensures d in Flagged(packages, walked)
    ensures Flagged(packages, walked)[d] == packages[d].(optional := Flagged(packages, walked)[d].optional)
  {
  }

  lemma GraphKeys(graph: map<DepPath, bool>, known: set<DepPath>, walked: set<Visit>)
    ensures GraphFlagged(graph, known, walked).Keys == graph.Keys
  {
  }

  /** After both dependency fields of a visited package have been walked, all its next visits have. */
  lemma BothFieldsWalked(
    rd: Reading, packages: PackageSnapshots, v: Visit, walked0: set<Visit>, walked1: set<Visit>, walked2: set<Visit>)
    requires v.depPath in packages
    requires var s := packages[v.depPath];
             var ds := Visits(DepPathsOf(rd, OrEmpty(s.dependencies)), v.optional);
             var os := Visits(DepPathsOf(rd, OrEmpty(s.optionalDependencies)), true);
             && Walk(VisitGraph(rd, packages), ds, walked0, walked1) && ds <= walked1
             && Walk(VisitGraph(rd, packages), os, walked1, walked2) && os <= walked2
    ensures var next := Succ(VisitGraph(rd, packages), v);
            Walk(VisitGraph(rd, packages), next, walked0, walked2) && next <= walked2
  {
    hide DepPathsOf;
    var g := VisitGraph(rd, packages);
    var s := packages[v.depPath];
    assert v in Visits(packages.Keys, v.optional);
    var ds := Visits(DepPathsOf(rd, OrEmpty(s.dependencies)), v.optional);
    var os := Visits(DepPathsOf(rd, OrEmpty(s.optionalDependencies)), true);
    WalkMono(g, ds, ds + os, walked0, walked1);
    WalkMono(g, os, ds + os, walked1, walked2);
    WalkTrans(g, ds + os, walked0, walked1, walked2);
  }

  // ----- What pruning keeps -----

  ghost function RootVisits(rd: Reading, importers: ProjectSnapshots): set<Visit> {
    Visits(DevRoots(rd, importers), false) +
    Visits(OptionalRoots(rd, importers), true) +
    Visits(ProdRoots(rd, importers), false)
  }

  /** Some importer reaches `d` through any dependency fields. */
  ghost predicate Kept(rd: Reading, importers: ProjectSnapshots, packages: PackageSnapshots, d: DepPath) {
    Reaches(UnionEdges(rd, packages), AllRoots(rd, importers), d)
  }

  /** Some dev or prod dependency of an importer reaches `d` through `dependencies` edges alone. */
  ghost predicate Required(rd: Reading, importers: ProjectSnapshots, packages: PackageSnapshots, d: DepPath) {
    Reaches(RequiredEdges(rd, packages), DevRoots(rd, importers) + ProdRoots(rd, importers), d)
  }

  ghost function PrunedPackages(
    rd: Reading, importers: ProjectSnapshots, packages: PackageSnapshots): PackageSnapshots
  {
    map d | d in packages && Kept(rd, importers, packages, d) ::
      packages[d].(optional := !Required(rd, importers, packages, d))
  }

  lemma VisitedRequired(rd: Reading, importers: ProjectSnapshots, packages: PackageSnapshots, d: DepPath)
    ensures Reaches(VisitGraph(rd, packages), RootVisits(rd, importers), Visit(d, false)) <==>
      Required(rd, importers, packages, d)
  {
    hide DepPathsOf, ProdRoots, DevRoots, OptionalRoots, Reaches;
    var g, rs := VisitGraph(rd, packages), RootVisits(rd, importers);
    var h, ts := RequiredEdges(rd, packages), DevRoots(rd, importers) + ProdRoots(rd, importers);
    if Reaches(g, rs, Visit(d, false)) {
      var inv := (v: Visit) => !v.optional ==> Reaches(h, ts, v.depPath);
      forall v | v in rs ensures inv(v) {
        if !v.optional {
          ReachesRoot(h, ts, v.depPath);
        }
      }
      forall v, w | inv(v) && w in Succ(g, v) ensures inv(w) {
        if !w.optional {
          assert w.depPath in Succ(h, v.depPath);
          ReachesStep(h, ts, v.depPath, w.depPath);
        }
      }
      ReachesInvariant(g, rs, inv, Visit(d, false));
    }
    if Reaches(h, ts, d) {
      var inv := (e: DepPath) => Reaches(g, rs, Visit(e, false));
      forall e | e in ts ensures inv(e) {
        ReachesRoot(g, rs, Visit(e, false));
      }
      forall a, b | inv(a) && b in Succ(h, a) ensures inv(b) {
        assert Visit(a, false) in Visits(packages.Keys, false) && Visit(b, false) in Succ(g, Visit(a, false));
        ReachesStep(g, rs, Visit(a, false), Visit(b, false));
      }
      ReachesInvariant(h, ts, inv, d);
    }
  }

  ghost predicate VisitReached(rd: Reading, importers: ProjectSnapshots, packages: PackageSnapshots, d: DepPath) {
    || Reaches(VisitGraph(rd, packages), RootVisits(rd, importers), Visit(d, false))
    || Reaches(VisitGraph(rd, packages), RootVisits(rd, importers), Visit(d, true))
  }

  lemma VisitedKept(rd: Reading, importers: ProjectSnapshots, packages: PackageSnapshots, d: DepPath)
    ensures VisitReached(rd, importers, packages, d) <==> Kept(rd, importers, packages, d)
  {
    hide DepPathsOf, ProdRoots, DevRoots, OptionalRoots, Reaches;
    var g, rs := VisitGraph(rd, packages), RootVisits(rd, importers);
    var h, ts := UnionEdges(rd, packages), AllRoots(rd, importers);
    forall v | Reaches(g, rs, v) ensures Reaches(h, ts, v.depPath) {
      var inv := (v: Visit) => Reaches(h, ts, v.depPath);
      forall v | v in rs ensures inv(v) {
        ReachesRoot(h, ts, v.depPath);
      }
      forall v, w | inv(v) && w in Succ(g, v) ensures inv(w) {
        assert w.depPath in Succ(h, v.depPath);
        ReachesStep(h, ts, v.depPath, w.depPath);
      }
      ReachesInvariant(g, rs, inv, v);
    }
    if Reaches(h, ts, d) {
      var inv := (e: DepPath) => VisitReached(rd, importers, packages, e);
      forall e | e in ts ensures inv(e) {
        var flag := e !in DevRoots(rd, importers) + ProdRoots(rd, importers);
        ReachesRoot(g, rs, Visit(e, flag));
      }
      forall a, b | inv(a) && b in Succ(h, a) ensures inv(b) {
        KeptStep(rd, importers, packages, a, b);
      }
      ReachesInvariant(h, ts, inv, d);
    }
  }

  lemma KeptStep(rd: Reading, importers: ProjectSnapshots, packages: PackageSnapshots, a: DepPath, b: DepPath)
    requires VisitReached(rd, importers, packages, a) && b in Succ(UnionEdges(rd, packages), a)
    ensures VisitReached(rd, importers, packages, b)
  {
    hide DepPathsOf, ProdRoots, DevRoots, OptionalRoots, Reaches;
    var g, rs := VisitGraph(rd, packages), RootVisits(rd, importers);
    var v := Visit(a, !Reaches(g, rs, Visit(a, false)));
    assert v in Visits(packages.Keys, v.optional);
    var w := Visit(b, if b in DepPathsOf(rd, OrEmpty(packages[a].dependencies)) then v.optional else true);
    assert w in Succ(g, v);
    ReachesStep(g, rs, v, w);
  }

  lemma AllPassesWalked(
    rd: Reading, importers: ProjectSnapshots, packages: PackageSnapshots, w1: set<Visit>, w2: set<Visit>,
    w3: set<Visit>)
    requires Walk(VisitGraph(rd, packages), Visits(DevRoots(rd, importers), false), {}, w1)
    requires Walk(VisitGraph(rd, packages), Visits(OptionalRoots(rd, importers), true), w1, w2)
    requires Walk(VisitGraph(rd, packages), Visits(ProdRoots(rd, importers), false), w2, w3)
    requires RootVisits(rd, importers) <= w3
    ensures forall v {:trigger v in w3} :: v in w3 <==> Reaches(VisitGraph(rd, packages), RootVisits(rd, importers), v)
  {
    hide ProdRoots, DevRoots, OptionalRoots, Reaches, VisitGraph;
    var g, rs := VisitGraph(rd, packages), RootVisits(rd, importers);
    WalkMono(g, Visits(DevRoots(rd, importers), false), rs, {}, w1);
    WalkMono(g, Visits(OptionalRoots(rd, importers), true), rs, w1, w2);
    WalkMono(g, Visits(ProdRoots(rd, importers), false), rs, w2, w3);
    WalkTrans(g, rs, {}, w1, w2);
    WalkTrans(g, rs, {}, w2, w3);
    WalkComplete(g, rs, w3);
  }

  ghost predicate WalkedAll(rd: Reading, importers: ProjectSnapshots, packages: PackageSnapshots, walked: set<Visit>) {
    forall d: DepPath {:trigger Visited(walked, d)} {:trigger Visit(d, false)} ::
      && (Visit(d, false) in walked <==> Required(rd, importers, packages, d))
      && (Visited(walked, d) <==> Kept(rd, importers, packages, d))
  }

  lemma VisitsMeaning(rd: Reading, importers: ProjectSnapshots, packages: PackageSnapshots, walked: set<Visit>)
    requires forall v {:trigger v in walked} :: v in walked <==>
      Reaches(VisitGraph(rd, packages), RootVisits(rd, importers), v)
    ensures WalkedAll(rd, importers, packages, walked)
  {
    hide Reaches, VisitGraph, RootVisits, Required, Kept;
    forall d: DepPath
      ensures Visit(d, false) in walked <==> Required(rd, importers, packages, d)
      ensures Visited(walked, d) <==> Kept(rd, importers, packages, d)
    {
      VisitedRequired(rd, importers, packages, d);
      VisitedKept(rd, importers, packages, d);
    }
  }

  lemma FlagsAreReached(
    rd: Reading, importers: ProjectSnapshots, packages: PackageSnapshots, graph: map<DepPath, bool>, walked: set<Visit>)
    requires WalkedAll(rd, importers, packages, walked)
    ensures Flagged(packages, walked) == packages + PrunedPackages(rd, importers, packages)
    ensures GraphFlagged(graph, packages.Keys, walked) == map d | d in graph ::
      if d in packages && Kept(rd, importers, packages, d) then !Required(rd, importers, packages, d) else graph[d]
  {
    hide Required, Kept;
    RequiredIsKept(rd, importers, packages);
    forall d | d in packages
      ensures Flagged(packages, walked)[d] == (packages + PrunedPackages(rd, importers, packages))[d]
    {
      assert Visited(walked, d) <==> Kept(rd, importers, packages, d);
    }
  }

  /** What the walk wrote, told by reachability in the lockfile. */
  lemma PrunedIsReached(rd: Reading, importers: ProjectSnapshots, packages: PackageSnapshots, objects: SnapshotObjects,
                        graph: map<DepPath, bool>, walked: set<Visit>)
    requires objects.Keys == packages.Keys && WalkedAll(rd, importers, packages, walked)
    ensures Copied(objects, walked).Keys == PrunedPackages(rd, importers, packages).Keys
    ensures PruneOk(rd, importers, packages, Flagged(packages, walked), graph,
                    GraphFlagged(graph, packages.Keys, walked), Warned(rd, packages.Keys, walked))
  {
    hide Required, Kept, Warned, Flagged, GraphFlagged;
    FlagsAreReached(rd, importers, packages, graph, walked);
    forall d: DepPath
      ensures d in Warned(rd, packages.Keys, walked) <==> d !in packages && Visited(walked, d) && !NeedsNoEntry(rd, d)
    {
      WarnedVisited(rd, packages.Keys, walked, d);
    }
  }

  lemma WarnedVisited(rd: Reading, known: set<DepPath>, walked: set<Visit>, d: DepPath)
    ensures d in Warned(rd, known, walked) <==> d !in known && Visited(walked, d) && !NeedsNoEntry(rd, d)
  {
    hide NeedsNoEntry;
    if d !in known && Visited(walked, d) && !NeedsNoEntry(rd, d) {
      var v := if Visit(d, false) in walked then Visit(d, false) else Visit(d, true);
      assert v in walked && v.depPath == d;
    }
    if d in Warned(rd, known, walked) {
      var v :| v in walked && v.depPath == d;
      assert v == Visit(d, true) || v == Visit(d, false);
    }
  }

  // ----- Pruning twice -----

  /** Pruning what is pruned changes nothing. */
  lemma PruneIdempotent(rd: Reading, importers: ProjectSnapshots, packages: PackageSnapshots)
    ensures PrunedPackages(rd, importers, PrunedPackages(rd, importers, packages)) ==
            PrunedPackages(rd, importers, packages)
  {
    hide Reaches, DepPathsOf, ProdRoots, DevRoots, OptionalRoots;
    var p := PrunedPackages(rd, importers, packages);
    var all, req := AllRoots(rd, importers), DevRoots(rd, importers) + ProdRoots(rd, importers);
    RequiredIsKept(rd, importers, packages);
    assert forall n :: n in packages && Reaches(RequiredEdges(rd, packages), req, n) ==> n in p by {
      forall n | n in packages && Reaches(RequiredEdges(rd, packages), req, n) ensures n in p {
        assert Required(rd, importers, packages, n);
      }
    }
    forall d | d in p
      ensures Kept(rd, importers, p, d)
      ensures Required(rd, importers, p, d) <==> Required(rd, importers, packages, d)
    {
      SameReach(UnionEdges(rd, packages), UnionEdges(rd, p), all, d);
      SameReach(RequiredEdges(rd, packages), RequiredEdges(rd, p), req, d);
    }
  }

  /** The flags a lockfile comes with do not matter to the flags it is left with. */
  lemma FlagsForgotten(rd: Reading, importers: ProjectSnapshots, packages: PackageSnapshots, others: PackageSnapshots)
    requires packages.Keys == others.Keys
    requires forall d :: d in packages ==> packages[d] == others[d].(optional := packages[d].optional)
    ensures PrunedPackages(rd, importers, packages) == PrunedPackages(rd, importers, others)
  {
    hide Reaches, ProdRoots, DevRoots, OptionalRoots, UnionEdges, RequiredEdges;
    SameEdges(rd, packages, others);
  }

  lemma SameEdges(rd: Reading, packages: PackageSnapshots, others: PackageSnapshots)
    requires packages.Keys == others.Keys
    requires forall d :: d in packages ==> packages[d] == others[d].(optional := packages[d].optional)
    ensures UnionEdges(rd, packages) == UnionEdges(rd, others)
    ensures RequiredEdges(rd, packages) == RequiredEdges(rd, others)
  {
    hide DepPathsOf;
  }

  lemma RequiredIsKept(rd: Reading, importers: ProjectSnapshots, packages: PackageSnapshots)
    ensures forall d {:trigger Required(rd, importers, packages, d)} ::
      Required(rd, importers, packages, d) ==> Kept(rd, importers, packages, d)
  {
    hide Reaches, DepPathsOf, ProdRoots, DevRoots, OptionalRoots;
    forall d | Required(rd, importers, packages, d) ensures Kept(rd, importers, packages, d) {
      ReachesMono(RequiredEdges(rd, packages), UnionEdges(rd, packages),
                  DevRoots(rd, importers) + ProdRoots(rd, importers), AllRoots(rd, importers), d);
    }
  }

  /** Cutting a graph down to nodes that include all that is reachable keeps what is reachable. */
  lemma SameReach(g: Graph<DepPath>, h: Graph<DepPath>, roots: set<DepPath>, d: DepPath)
    requires forall n :: n in h ==> n in g && h[n] == g[n]
    requires forall n :: n in g && Reaches(g, roots, n) ==> n in h
    ensures Reaches(g, roots, d) <==> Reaches(h, roots, d)
  {
    hide Reaches;
    if Reaches(h, roots, d) {
      ReachesMono(h, g, roots, roots, d);
    }
    if Reaches(g, roots, d) {
      var inv := (n: DepPath) => Reaches(g, roots, n) && Reaches(h, roots, n);
      forall n | n in roots ensures inv(n) {
        ReachesRoot(g, roots, n);
        ReachesRoot(h, roots, n);
      }
      forall a, b | inv(a) && b in Succ(g, a) ensures inv(b) {
        ReachesStep(g, roots, a, b);
        ReachesStep(h, roots, a, b);
      }
      ReachesInvariant(g, roots, inv, d);
    }
  }

  // ----- The pruned lockfile -----

  /** What pruning leaves: `after` is the state of all entries, kept or not, and `warned` the dep paths warned of. */
  ghost predicate PruneOk(
    rd: Reading, importers: ProjectSnapshots, before: PackageSnapshots, after: PackageSnapshots,
    graph: map<DepPath, bool>, newGraph: map<DepPath, bool>, warned: set<DepPath>)
  {
    && after == before + PrunedPackages(rd, importers, before)
    && newGraph == (map d | d in graph ::
         if d in before && Kept(rd, importers, before, d) then !Required(rd, importers, before, d) else graph[d])
    && forall d :: d in warned <==>
         d !in before && Kept(rd, importers, before, d) && !rd.isLink(d) && !rd.isLocalDirectory(d)
  }

  lemma SharedView(
    rd: Reading, importers: ProjectSnapshots, before: PackageSnapshots, objects: SnapshotObjects, kept: SnapshotObjects)
    requires kept.Keys == PrunedPackages(rd, importers, before).Keys <= objects.Keys
    requires forall d :: d in kept ==> kept[d] == objects[d]
    requires View(objects) == before + PrunedPackages(rd, importers, before)
    ensures View(kept) == PrunedPackages(rd, importers, before)
  {
    forall d | d in kept ensures View(kept)[d] == PrunedPackages(rd, importers, before)[d] {
      assert View(kept)[d] == View(objects)[d];
    }
  }

  /** `dependenciesGraph` holds the caller's flags for the packages it knows. The kept entries are the
    * caller's own objects, with their flags changed; the pruned `packages` field is absent when nothing is kept.
    */
  method PruneSharedLockfile(
    rd: Reading, importers: ProjectSnapshots, packages: Option<SnapshotObjects>, dependenciesGraph: map<DepPath, bool>)
    returns (pruned: Option<SnapshotObjects>, newGraph: map<DepPath, bool>, warned: seq<DepPath>)
    requires packages.Some? ==> OwnEntries(packages.value)
    modifies if packages.Some? then packages.value.Values else {}
    ensures packages.None? ==> pruned.None? && newGraph == dependenciesGraph && warned == []
    ensures pruned.Some? ==> packages.Some? && pruned.value != map[]
    ensures pruned.Some? ==> forall d :: d in pruned.value ==>
      d in packages.value && pruned.value[d] == packages.value[d]
    ensures packages.Some? ==> View(if pruned.Some? then pruned.value else map[]) ==
                               PrunedPackages(rd, importers, old(View(packages.value)))
    ensures packages.Some? ==> PruneOk(rd, importers, old(View(packages.value)), View(packages.value),
                                       dependenciesGraph, newGraph, Elems(warned))
  {
    hide Flagged, GraphFlagged, Warned, NonOptional, PrunedPackages, ProdRoots, DevRoots, OptionalRoots;
    hide Reaches, VisitGraph, View, OwnEntries;
    if packages == None {
      return None, dependenciesGraph, [];
    }
    var ctx := new PruneContext(rd, packages.value, dependenciesGraph);
    var devDepPaths := FieldDepPaths(rd, importers, Dev);
    var optionalDepPaths := FieldDepPaths(rd, importers, Optional);
    var prodDepPaths := FieldDepPaths(rd, importers, Prod);
    ctx.CopyDependencySubGraph(devDepPaths, false);
    ghost var w1 := ctx.walked;
    ctx.CopyDependencySubGraph(optionalDepPaths, true);
    ghost var w2 := ctx.walked;
    ctx.CopyDependencySubGraph(prodDepPaths, false);
    AllPassesWalked(rd, importers, ctx.packages, w1, w2, ctx.walked);
    VisitsMeaning(rd, importers, ctx.packages, ctx.walked);
    PrunedIsReached(rd, importers, ctx.packages, packages.value, dependenciesGraph, ctx.walked);
    SharedView(rd, importers, ctx.packages, packages.value, ctx.copiedSnapshots);
    pruned := if ctx.copiedSnapshots == map[] then None else Some(ctx.copiedSnapshots);
    newGraph, warned := ctx.dependenciesGraph, ctx.warned;
  }
}
