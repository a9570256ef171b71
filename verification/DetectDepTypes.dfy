/** Classification of packages as dev-only, prod-only or both, from lockfile/detect-dep-types. */
module DetectDepTypes {
  import opened Digraph
  import opened Records
  import opened Lockfile

  datatype DepType = DevOnly | DevAndProd | ProdOnly

  /** What the record says of a package walked as a dev dependency, as a non-dev dependency, or both. */
  ghost function TypeOf(asDev: bool, asProd: bool): Option<DepType> {
    if asDev && asProd then Some(DevAndProd)
    else if asDev then Some(DevOnly)
    else if asProd then Some(ProdOnly)
    else None
  }

  ghost function Types(packages: PackageSnapshots, asDev: set<DepPath>, asProd: set<DepPath>): map<DepPath, DepType> {
    map d | d in packages && TypeOf(d in asDev, d in asProd).Some? :: TypeOf(d in asDev, d in asProd).value
  }

  class DetectContext {
    const rd: Reading
    const packages: PackageSnapshots
    /** The walked keys: those of the dev pass and those of the two other passes. */
    var walkedDev: set<DepPath>
    var walkedProd: set<DepPath>
    var notProdOnly: set<DepPath>
    var dev: map<DepPath, DepType>

    ghost predicate Valid()
      reads this
    {
      && notProdOnly == walkedDev * packages.Keys
      && dev == Types(packages, walkedDev, walkedProd)
    }

    constructor (rd: Reading, packages: PackageSnapshots)
      ensures Valid() && this.rd == rd && this.packages == packages && walkedDev == {} && walkedProd == {}
    {
      this.rd, this.packages := rd, packages;
      walkedDev, walkedProd, notProdOnly, dev := {}, {}, {}, map[];
    }

    /** The dev pass comes first: it is never run once packages have been walked as non-dev. */
    method DetectDepTypesInSubGraph(depPaths: seq<DepPath>, isDev: bool)
      requires Valid() && (isDev ==> walkedProd == {})
      modifies this
      ensures Valid()
      ensures if isDev then walkedProd == old(walkedProd) else walkedDev == old(walkedDev)
      ensures Walk(UnionEdges(rd, packages), Elems(depPaths), old(if isDev then walkedDev else walkedProd),
                   if isDev then walkedDev else walkedProd)
      ensures Elems(depPaths) <= if isDev then walkedDev else walkedProd
      decreases packages.Keys - if isDev then walkedDev else walkedProd
    {
      hide Types, DepPathsOf;
      ghost var g, entries := UnionEdges(rd, packages), Elems(depPaths);
      ghost var walked0 := if isDev then walkedDev else walkedProd;
      var i := 0;
      while i < |depPaths|
        invariant 0 <= i <= |depPaths|
        invariant Valid() && (if isDev then walkedProd == old(walkedProd) else walkedDev == old(walkedDev))
        invariant Walk(g, entries, walked0, if isDev then walkedDev else walkedProd)
        invariant Elems(depPaths[..i]) <= if isDev then walkedDev else walkedProd
      {
        var depPath := depPaths[i];
        assert Elems(depPaths[..i + 1]) == Elems(depPaths[..i]) + {depPath} by {
          assert depPaths[..i + 1] == depPaths[..i] + [depPath];
          ElemsAppend(depPaths[..i], [depPath]);
        }
        assert depPath in entries;
        i := i + 1;
        ghost var before := if isDev then walkedDev else walkedProd;
        if depPath in if isDev then walkedDev else walkedProd {
          continue;
        }
        Record(depPath, isDev);
        if depPath in packages {
          var depLockfile := packages[depPath];
          var newDependencies := ResolvedDepsToDepPaths(rd, OrEmpty(depLockfile.dependencies));
          ghost var w1 := if isDev then walkedDev else walkedProd;
          DetectDepTypesInSubGraph(newDependencies, isDev);
          ghost var w2 := if isDev then walkedDev else walkedProd;
          var newOptionalDependencies := ResolvedDepsToDepPaths(rd, OrEmpty(depLockfile.optionalDependencies));
          DetectDepTypesInSubGraph(newOptionalDependencies, isDev);
          ghost var w3 := if isDev then walkedDev else walkedProd;
          WalkMono(g, Elems(newDependencies), Succ(g, depPath), w1, w2);
          WalkMono(g, Elems(newOptionalDependencies), Succ(g, depPath), w2, w3);
          WalkTrans(g, Succ(g, depPath), w1, w2, w3);
        }
        ghost var after := if isDev then walkedDev else walkedProd;
        WalkNode(g, entries, depPath, before, after);
        WalkTrans(g, entries, walked0, before, after);
      }
      assert depPaths[..i] == depPaths;
    }

    /** One visit: mark the key and, for a known package, update its type. */
    method Record(depPath: DepPath, isDev: bool)
      requires Valid() && (isDev ==> walkedProd == {}) && depPath !in if isDev then walkedDev else walkedProd
      modifies this
      ensures Valid()
      ensures walkedDev == old(walkedDev) + if isDev then {depPath} else {}
      ensures walkedProd == old(walkedProd) + if isDev then {} else {depPath}
    {
      hide Types;
      if isDev {
        TypesAdd(packages, walkedDev, walkedProd, depPath, true);
        walkedDev := walkedDev + {depPath};
      } else {
        TypesAdd(packages, walkedDev, walkedProd, depPath, false);
        walkedProd := walkedProd + {depPath};
      }
      if depPath !in packages {
        return;
      }
      if isDev {
        notProdOnly := notProdOnly + {depPath};
        dev := dev[depPath := DevOnly];
      } else if depPath in dev && dev[depPath] == DevOnly {
        dev := dev[depPath := DevAndProd];
      } else if depPath !in dev && depPath !in notProdOnly {
        dev := dev[depPath := ProdOnly];
      }
    }
  }

  lemma TypesAdd(packages: PackageSnapshots, asDev: set<DepPath>, asProd: set<DepPath>, d: DepPath, isDev: bool)
    requires if isDev then asProd == {} else d !in asProd
    ensures var before := Types(packages, asDev, asProd);
            var after := if isDev then Types(packages, asDev + {d}, asProd) else Types(packages, asDev, asProd + {d});
            && (d !in packages ==> after == before)
            && (d in packages ==>
                 after == before[d := if isDev then DevOnly else if d in asDev then DevAndProd else ProdOnly])
            && (d in before <==> d in packages && (d in asDev || d in asProd))
            && (d in before && !isDev ==> before[d] == DevOnly)
  {
  }

  // ----- Exactness -----

  ghost predicate DevReached(rd: Reading, lockfile: LockfileObject, packages: PackageSnapshots, d: DepPath) {
    Reaches(UnionEdges(rd, packages), DevRoots(rd, lockfile.importers), d)
  }

  ghost predicate ProdReached(rd: Reading, lockfile: LockfileObject, packages: PackageSnapshots, d: DepPath) {
    Reaches(UnionEdges(rd, packages), OptionalRoots(rd, lockfile.importers) + ProdRoots(rd, lockfile.importers), d)
  }

  /** A known package has a type exactly as it is reached from dev roots, from prod or optional roots, or from both. */
  method DetectDepTypes(rd: Reading, lockfile: LockfileObject) returns (dev: map<DepPath, DepType>)
    ensures var packages := if lockfile.packages.Some? then lockfile.packages.value else map[];
            && (forall d :: d in dev ==> d in packages)
            && forall d {:trigger d in dev} :: d in packages ==>
                 var asDev, asProd := DevReached(rd, lockfile, packages, d), ProdReached(rd, lockfile, packages, d);
                 && (d in dev <==> asDev || asProd)
                 && (asDev && !asProd ==> dev[d] == DevOnly)
                 && (asDev && asProd ==> dev[d] == DevAndProd)
                 && (!asDev && asProd ==> dev[d] == ProdOnly)
  {
    hide ProdRoots, DevRoots, OptionalRoots, Reaches, DepPathsOf, UnionEdges;
    var packages := if lockfile.packages.Some? then lockfile.packages.value else map[];
    var ctx := new DetectContext(rd, packages);
    var devDepPaths := FieldDepPaths(rd, lockfile.importers, Dev);
    var optionalDepPaths := FieldDepPaths(rd, lockfile.importers, Optional);
    var prodDepPaths := FieldDepPaths(rd, lockfile.importers, Prod);
    ctx.DetectDepTypesInSubGraph(devDepPaths, true);
    ctx.DetectDepTypesInSubGraph(optionalDepPaths, false);
    ghost var w := ctx.walkedProd;
    ctx.DetectDepTypesInSubGraph(prodDepPaths, false);
    dev := ctx.dev;
    ghost var g, roots := UnionEdges(rd, packages), Elems(optionalDepPaths) + Elems(prodDepPaths);
    WalkMono(g, Elems(optionalDepPaths), roots, {}, w);
    WalkMono(g, Elems(prodDepPaths), roots, w, ctx.walkedProd);
    WalkTrans(g, roots, {}, w, ctx.walkedProd);
    WalkComplete(g, roots, ctx.walkedProd);
    WalkComplete(g, Elems(devDepPaths), ctx.walkedDev);
  }
}
