/** The field-wise lockfile merge of lockfile/merger, used on conflicted files and on branch lockfiles. */
module Merger {
  import opened Digraph
  import opened Records
  import opened Lockfile
  import opened SemVer

  type Specifier(==,!new)
  type LockfileVersion(==,!new)
  type FieldName(==,!new)
  type FieldValue(==,!new)

  /** How references, specifiers and lockfile versions are read: which are empty strings, and the version a
    * reference (up to its first bracket) or a lockfile version stands for, if it is a valid one.
    */
  datatype Versions = Versions(
    emptyRef: Ref -> bool,
    emptySpecifier: Specifier -> bool,
    parseRef: Ref -> Option<Version>,
    parseLockfileVersion: LockfileVersion -> Option<Version>)

  /** The other fields of a package entry are merged as a plain object spread. */
  datatype Package = Package(
    dependencies: Option<ResolvedDependencies>,
    optionalDependencies: Option<ResolvedDependencies>,
    others: map<FieldName, FieldValue>)

  datatype Importer = Importer(
    specifiers: map<Alias, Specifier>,
    dependencies: Option<ResolvedDependencies>,
    devDependencies: Option<ResolvedDependencies>,
    optionalDependencies: Option<ResolvedDependencies>)

  datatype LockfileData = LockfileData(
    importers: map<ProjectId, Importer>,
    packages: Option<map<DepPath, Package>>,
    lockfileVersion: LockfileVersion,
    pnpmfileChecksum: Option<string>,
    ignoredOptionalDependencies: seq<Alias>)

  /** Comparing a reference or lockfile version that is no valid version throws. */
  datatype Result<T> = Merged(value: T) | InvalidVersion

  // ----- Dictionaries -----

  function Get<K, V>(m: map<K, V>, k: K): Option<V> {
    if k in m then Some(m[k]) else None
  }

  predicate Truthy(vs: Versions, r: Option<Ref>) {
    r.Some? && !vs.emptyRef(r.value)
  }

  function MergeVersions(vs: Versions, ours: Option<Ref>, theirs: Option<Ref>): Result<Option<Ref>> {
    if ours == theirs || !Truthy(vs, theirs) then Merged(ours)
    else if !Truthy(vs, ours) then Merged(theirs)
    else
      var ourVersion, theirVersion := vs.parseRef(ours.value), vs.parseRef(theirs.value);
      if ourVersion.None? || theirVersion.None? then InvalidVersion
      else if Gt(ourVersion.value, theirVersion.value) then Merged(ours)
      else Merged(theirs)
  }

  /** Some alias has two different references, one of which is not a version. */
  ghost predicate Clashes(vs: Versions, ours: ResolvedDependencies, theirs: ResolvedDependencies) {
    exists k :: (k in ours || k in theirs) && MergeVersions(vs, Get(ours, k), Get(theirs, k)) == InvalidVersion
  }

  /** What the dictionary merger leaves under an alias. */
  function MergedRef(vs: Versions, ours: ResolvedDependencies, theirs: ResolvedDependencies, k: Alias): Option<Ref> {
    match MergeVersions(vs, Get(ours, k), Get(theirs, k))
    case InvalidVersion => None
    case Merged(r) => if Truthy(vs, r) then r else None
  }

  function MergedOn(
    vs: Versions, ours: ResolvedDependencies, theirs: ResolvedDependencies, ks: set<Alias>): ResolvedDependencies
  {
    map k | k in ks && MergedRef(vs, ours, theirs, k).Some? :: MergedRef(vs, ours, theirs, k).value
  }

  function MergedDict(vs: Versions, ours: ResolvedDependencies, theirs: ResolvedDependencies): ResolvedDependencies {
    MergedOn(vs, ours, theirs, ours.Keys + theirs.Keys)
  }

  method MergeDict(vs: Versions, ours: ResolvedDependencies, theirs: ResolvedDependencies)
    returns (r: Result<ResolvedDependencies>)
    ensures r.InvalidVersion? <==> Clashes(vs, ours, theirs)
    ensures r.Merged? ==> r.value == MergedDict(vs, ours, theirs)
  {
    hide MergeVersions, MergedOn;
    var ourKeys := Keys(ours);
    var theirKeys := Keys(theirs);
    var keys := ourKeys + theirKeys;
    ElemsAppend(ourKeys, theirKeys);
    var newDict: ResolvedDependencies := map[];
    MergedOnNothing(vs, ours, theirs);
    assert Elems(keys[..0]) == {};
    var i := 0;
    while i < |keys|
      invariant 0 <= i <= |keys|
      invariant newDict == MergedOn(vs, ours, theirs, Elems(keys[..i]))
      invariant forall k :: k in keys[..i] ==> MergeVersions(vs, Get(ours, k), Get(theirs, k)) != InvalidVersion
    {
      var key := keys[i];
      assert Elems(keys[..i + 1]) == Elems(keys[..i]) + {key} by {
        assert keys[..i + 1] == keys[..i] + [key];
        ElemsAppend(keys[..i], [key]);
      }
      assert keys[..i + 1] == keys[..i] + [key];
      MergedOnMore(vs, ours, theirs, Elems(keys[..i]), key);
      assert key in Elems(keys);
      var changedValue := MergeVersions(vs, Get(ours, key), Get(theirs, key));
      if changedValue == InvalidVersion {
        return InvalidVersion;
      }
      if Truthy(vs, changedValue.value) {
        newDict := newDict[key := changedValue.value.value];
      }
      i := i + 1;
    }
    assert keys[..i] == keys;
    assert forall k :: k in ours || k in theirs ==> k in Elems(keys);
    return Merged(newDict);
  }

  lemma MergedOnNothing(vs: Versions, ours: ResolvedDependencies, theirs: ResolvedDependencies)
    ensures MergedOn(vs, ours, theirs, {}) == map[]
  {
  }

  lemma MergedOnMore(vs: Versions, ours: ResolvedDependencies, theirs: ResolvedDependencies, ks: set<Alias>, k: Alias)
    ensures var r := MergedRef(vs, ours, theirs, k);
            MergedOn(vs, ours, theirs, ks + {k}) ==
            if r.Some? then MergedOn(vs, ours, theirs, ks)[k := r.value] else MergedOn(vs, ours, theirs, ks)
  {
    hide MergedRef;
  }

  /** `takeChangedValue` on specifiers: theirs wherever they have one. */
  function TakeChanged(ours: Option<Specifier>, theirs: Option<Specifier>): Option<Specifier> {
    if ours == theirs || theirs.None? then ours else theirs
  }

  function MergeSpecifiers(
    vs: Versions, ours: map<Alias, Specifier>, theirs: map<Alias, Specifier>): (r: map<Alias, Specifier>)
    ensures forall k :: k in r <==>
      (k in theirs && !vs.emptySpecifier(theirs[k])) || (k !in theirs && k in ours && !vs.emptySpecifier(ours[k]))
    ensures forall k :: k in r ==> r[k] == if k in theirs then theirs[k] else ours[k]
  {
    map k | k in ours.Keys + theirs.Keys && !vs.emptySpecifier(TakeChanged(Get(ours, k), Get(theirs, k)).value)
      :: TakeChanged(Get(ours, k), Get(theirs, k)).value
  }

  // ----- Importers, packages, lockfiles -----

  const NO_IMPORTER := Importer(map[], None, None, None)
  const NO_PACKAGE := Package(None, None, map[])

  function ImporterOf(l: LockfileData, id: ProjectId): Importer {
    if id in l.importers then l.importers[id] else NO_IMPORTER
  }

  function Packages(l: LockfileData): map<DepPath, Package> {
    if l.packages.Some? then l.packages.value else map[]
  }

  function PackageOf(l: LockfileData, d: DepPath): Package {
    if d in Packages(l) then Packages(l)[d] else NO_PACKAGE
  }

  function ImporterField(p: Importer, field: Field): ResolvedDependencies {
    match field
    case Prod => OrEmpty(p.dependencies)
    case Dev => OrEmpty(p.devDependencies)
    case Optional => OrEmpty(p.optionalDependencies)
  }

  /** A merged dictionary that comes out empty is deleted. */
  function Present(deps: ResolvedDependencies): Option<ResolvedDependencies> {
    if deps == map[] then None else Some(deps)
  }

  ghost predicate ImporterClash(vs: Versions, ours: Importer, theirs: Importer) {
    exists field :: Clashes(vs, ImporterField(ours, field), ImporterField(theirs, field))
  }

  function MergedImporter(vs: Versions, ours: Importer, theirs: Importer): Importer {
    Importer(
      MergeSpecifiers(vs, ours.specifiers, theirs.specifiers),
      Present(MergedDict(vs, OrEmpty(ours.dependencies), OrEmpty(theirs.dependencies))),
      Present(MergedDict(vs, OrEmpty(ours.devDependencies), OrEmpty(theirs.devDependencies))),
      Present(MergedDict(vs, OrEmpty(ours.optionalDependencies), OrEmpty(theirs.optionalDependencies))))
  }

  method MergeImporter(vs: Versions, ours: Importer, theirs: Importer) returns (r: Result<Importer>)
    ensures r.InvalidVersion? <==> ImporterClash(vs, ours, theirs)
    ensures r.Merged? ==> r.value == MergedImporter(vs, ours, theirs)
  {
    hide Clashes, MergedDict;
    assert ImporterClash(vs, ours, theirs) <==>
      || Clashes(vs, ImporterField(ours, Prod), ImporterField(theirs, Prod))
      || Clashes(vs, ImporterField(ours, Dev), ImporterField(theirs, Dev))
      || Clashes(vs, ImporterField(ours, Optional), ImporterField(theirs, Optional));
    var dependencies := MergeDict(vs, OrEmpty(ours.dependencies), OrEmpty(theirs.dependencies));
    if dependencies.InvalidVersion? {
      return InvalidVersion;
    }
    var devDependencies := MergeDict(vs, OrEmpty(ours.devDependencies), OrEmpty(theirs.devDependencies));
    if devDependencies.InvalidVersion? {
      return InvalidVersion;
    }
    var optionalDependencies := MergeDict(vs, OrEmpty(ours.optionalDependencies), OrEmpty(theirs.optionalDependencies));
    if optionalDependencies.InvalidVersion? {
      return InvalidVersion;
    }
    return Merged(Importer(
      MergeSpecifiers(vs, ours.specifiers, theirs.specifiers),
      Present(dependencies.value), Present(devDependencies.value), Present(optionalDependencies.value)));
  }

  ghost predicate PackageClash(vs: Versions, ours: Package, theirs: Package) {
    || Clashes(vs, OrEmpty(ours.dependencies), OrEmpty(theirs.dependencies))
    || Clashes(vs, OrEmpty(ours.optionalDependencies), OrEmpty(theirs.optionalDependencies))
  }

  function MergedPackage(vs: Versions, ours: Package, theirs: Package): Package {
    Package(
      Present(MergedDict(vs, OrEmpty(ours.dependencies), OrEmpty(theirs.dependencies))),
      Present(MergedDict(vs, OrEmpty(ours.optionalDependencies), OrEmpty(theirs.optionalDependencies))),
      ours.others + theirs.others)
  }

  method MergePackage(vs: Versions, ours: Package, theirs: Package) returns (r: Result<Package>)
    ensures r.InvalidVersion? <==> PackageClash(vs, ours, theirs)
    ensures r.Merged? ==> r.value == MergedPackage(vs, ours, theirs)
  {
    hide Clashes, MergedDict;
    var dependencies := MergeDict(vs, OrEmpty(ours.dependencies), OrEmpty(theirs.dependencies));
    if dependencies.InvalidVersion? {
      return InvalidVersion;
    }
    var optionalDependencies := MergeDict(vs, OrEmpty(ours.optionalDependencies), OrEmpty(theirs.optionalDependencies));
    if optionalDependencies.InvalidVersion? {
      return InvalidVersion;
    }
    return Merged(Package(
      Present(dependencies.value), Present(optionalDependencies.value), ours.others + theirs.others));
  }

  /** Ours, or else theirs; an empty checksum counts as none. */
  function MergedChecksum(ours: Option<string>, theirs: Option<string>): Option<string> {
    var c := if ours.Some? then ours else theirs;
    if c == Some("") then None else c
  }

  function ImporterIds(ours: LockfileData, theirs: LockfileData): set<ProjectId> {
    ours.importers.Keys + theirs.importers.Keys
  }

  function PackageIds(ours: LockfileData, theirs: LockfileData): set<DepPath> {
    Packages(ours).Keys + Packages(theirs).Keys
  }

  ghost predicate LockfileClash(vs: Versions, ours: LockfileData, theirs: LockfileData) {
    || vs.parseLockfileVersion(ours.lockfileVersion).None?
    || vs.parseLockfileVersion(theirs.lockfileVersion).None?
    || (exists id :: id in ImporterIds(ours, theirs) && ImporterClash(vs, ImporterOf(ours, id), ImporterOf(theirs, id)))
    || (exists d :: d in PackageIds(ours, theirs) && PackageClash(vs, PackageOf(ours, d), PackageOf(theirs, d)))
  }

  function NewerVersion(vs: Versions, ours: LockfileVersion, theirs: LockfileVersion): LockfileVersion
    requires vs.parseLockfileVersion(ours).Some? && vs.parseLockfileVersion(theirs).Some?
  {
    if Gt(vs.parseLockfileVersion(theirs).value, vs.parseLockfileVersion(ours).value) then theirs else ours
  }

  function MergedImporters(vs: Versions, ours: LockfileData, theirs: LockfileData): map<ProjectId, Importer> {
    map id | id in ImporterIds(ours, theirs) :: MergedImporter(vs, ImporterOf(ours, id), ImporterOf(theirs, id))
  }

  function MergedPackages(vs: Versions, ours: LockfileData, theirs: LockfileData): map<DepPath, Package> {
    map d | d in PackageIds(ours, theirs) :: MergedPackage(vs, PackageOf(ours, d), PackageOf(theirs, d))
  }

  ghost function MergedLockfile(vs: Versions, ours: LockfileData, theirs: LockfileData): LockfileData
    requires !LockfileClash(vs, ours, theirs)
  {
    LockfileData(
      MergedImporters(vs, ours, theirs),
      Some(MergedPackages(vs, ours, theirs)),
      NewerVersion(vs, ours.lockfileVersion, theirs.lockfileVersion),
      MergedChecksum(ours.pnpmfileChecksum, theirs.pnpmfileChecksum),
      Distinct(ours.ignoredOptionalDependencies + theirs.ignoredOptionalDependencies))
  }

  method MergeLockfileChanges(vs: Versions, ours: LockfileData, theirs: LockfileData) returns (r: Result<LockfileData>)
    ensures r.InvalidVersion? <==> LockfileClash(vs, ours, theirs)
    ensures r.Merged? ==> r.value == MergedLockfile(vs, ours, theirs)
  {
    hide ImporterClash, PackageClash, MergedImporter, MergedPackage, Gt;
    if BadVersion(vs, ours) || BadVersion(vs, theirs) {
      return InvalidVersion;
    }
    var importers := MergeImporters(vs, ours, theirs);
    if importers.InvalidVersion? {
      return InvalidVersion;
    }
    var packages := MergePackages(vs, ours, theirs);
    if packages.InvalidVersion? {
      return InvalidVersion;
    }
    return Merged(LockfileData(
      importers.value, Some(packages.value), NewerVersion(vs, ours.lockfileVersion, theirs.lockfileVersion),
      MergedChecksum(ours.pnpmfileChecksum, theirs.pnpmfileChecksum),
      Distinct(ours.ignoredOptionalDependencies + theirs.ignoredOptionalDependencies)));
  }

  method MergeImporters(vs: Versions, ours: LockfileData, theirs: LockfileData)
    returns (r: Result<map<ProjectId, Importer>>)
    ensures r.InvalidVersion? <==>
      exists id :: id in ImporterIds(ours, theirs) && ImporterClash(vs, ImporterOf(ours, id), ImporterOf(theirs, id))
    ensures r.Merged? ==> r.value == MergedImporters(vs, ours, theirs)
  {
    hide ImporterClash, MergedImporter;
    var importers: map<ProjectId, Importer> := map[];
    var rest := ImporterIds(ours, theirs);
    while rest != {}
      invariant rest <= ImporterIds(ours, theirs) && importers.Keys == ImporterIds(ours, theirs) - rest
      invariant forall id :: id in importers ==>
        && !ImporterClash(vs, ImporterOf(ours, id), ImporterOf(theirs, id))
        && importers[id] == MergedImporter(vs, ImporterOf(ours, id), ImporterOf(theirs, id))
      decreases rest
    {
      var id :| id in rest;
      var merged := MergeImporter(vs, ImporterOf(ours, id), ImporterOf(theirs, id));
      if merged.InvalidVersion? {
        return InvalidVersion;
      }
      importers, rest := importers[id := merged.value], rest - {id};
    }
    return Merged(importers);
  }

  method MergePackages(vs: Versions, ours: LockfileData, theirs: LockfileData)
    returns (r: Result<map<DepPath, Package>>)
    ensures r.InvalidVersion? <==>
      exists d :: d in PackageIds(ours, theirs) && PackageClash(vs, PackageOf(ours, d), PackageOf(theirs, d))
    ensures r.Merged? ==> r.value == MergedPackages(vs, ours, theirs)
  {
    hide PackageClash, MergedPackage;
    var packages: map<DepPath, Package> := map[];
    var rest := PackageIds(ours, theirs);
    while rest != {}
      invariant rest <= PackageIds(ours, theirs) && packages.Keys == PackageIds(ours, theirs) - rest
      invariant forall d :: d in packages ==>
        && !PackageClash(vs, PackageOf(ours, d), PackageOf(theirs, d))
        && packages[d] == MergedPackage(vs, PackageOf(ours, d), PackageOf(theirs, d))
      decreases rest
    {
      var d :| d in rest;
      var merged := MergePackage(vs, PackageOf(ours, d), PackageOf(theirs, d));
      if merged.InvalidVersion? {
        return InvalidVersion;
      }
      packages, rest := packages[d := merged.value], rest - {d};
    }
    return Merged(packages);
  }

  // ----- Closed lockfiles -----

  ghost predicate RefsClosed(rd: Reading, deps: ResolvedDependencies, packages: set<DepPath>) {
    DepPathsOf(rd, deps) <= packages
  }

  /** Every reference resolves to a package of the same lockfile or has no dep path, as links do. */
  ghost predicate ClosedLockfile(rd: Reading, l: LockfileData) {
    && (forall id, field :: id in l.importers ==>
         RefsClosed(rd, ImporterField(l.importers[id], field), Packages(l).Keys))
    && (forall d :: d in Packages(l) ==>
         && RefsClosed(rd, OrEmpty(Packages(l)[d].dependencies), Packages(l).Keys)
         && RefsClosed(rd, OrEmpty(Packages(l)[d].optionalDependencies), Packages(l).Keys))
  }

  /** A merged dictionary holds nothing but references of one side or the other, under the same alias. */
  lemma MergedFromEither(vs: Versions, ours: ResolvedDependencies, theirs: ResolvedDependencies, k: Alias)
    requires k in MergedDict(vs, ours, theirs)
    ensures var r := MergedDict(vs, ours, theirs)[k]; (k in ours && ours[k] == r) || (k in theirs && theirs[k] == r)
  {
  }

  lemma MergedDictClosed(
    rd: Reading, vs: Versions, ours: ResolvedDependencies, theirs: ResolvedDependencies, a: set<DepPath>,
    b: set<DepPath>)
    requires RefsClosed(rd, ours, a) && RefsClosed(rd, theirs, b)
    ensures RefsClosed(rd, MergedDict(vs, ours, theirs), a + b)
  {
    hide MergedDict;
    var m := MergedDict(vs, ours, theirs);
    forall d | d in DepPathsOf(rd, m) ensures d in a + b {
      var k :| k in m && rd.refToRelative(m[k], k) == Some(d);
      MergedFromEither(vs, ours, theirs, k);
      assert d in DepPathsOf(rd, ours) || d in DepPathsOf(rd, theirs);
    }
  }

  lemma MergedImporterClosed(
    rd: Reading, vs: Versions, ours: LockfileData, theirs: LockfileData, id: ProjectId, field: Field)
    requires ClosedLockfile(rd, ours) && ClosedLockfile(rd, theirs)
    ensures RefsClosed(rd, ImporterField(MergedImporter(vs, ImporterOf(ours, id), ImporterOf(theirs, id)), field),
                       Packages(ours).Keys + Packages(theirs).Keys)
  {
    hide RefsClosed, MergedDict, MergeSpecifiers;
    var a, b := Packages(ours).Keys, Packages(theirs).Keys;
    NothingClosed(rd, a);
    NothingClosed(rd, b);
    var o, t := ImporterField(ImporterOf(ours, id), field), ImporterField(ImporterOf(theirs, id), field);
    MergedDictClosed(rd, vs, o, t, a, b);
    MergedField(vs, ImporterOf(ours, id), ImporterOf(theirs, id), field);
  }

  lemma MergedPackageClosed(rd: Reading, vs: Versions, ours: LockfileData, theirs: LockfileData, d: DepPath)
    requires ClosedLockfile(rd, ours) && ClosedLockfile(rd, theirs)
    ensures var p := MergedPackage(vs, PackageOf(ours, d), PackageOf(theirs, d));
            && RefsClosed(rd, OrEmpty(p.dependencies), Packages(ours).Keys + Packages(theirs).Keys)
            && RefsClosed(rd, OrEmpty(p.optionalDependencies), Packages(ours).Keys + Packages(theirs).Keys)
  {
    hide RefsClosed, MergedDict;
    var a, b := Packages(ours).Keys, Packages(theirs).Keys;
    NothingClosed(rd, a);
    NothingClosed(rd, b);
    var o, t := PackageOf(ours, d), PackageOf(theirs, d);
    MergedDictClosed(rd, vs, OrEmpty(o.dependencies), OrEmpty(t.dependencies), a, b);
    MergedDictClosed(rd, vs, OrEmpty(o.optionalDependencies), OrEmpty(t.optionalDependencies), a, b);
  }

  lemma MergeKeepsClosed(rd: Reading, vs: Versions, ours: LockfileData, theirs: LockfileData)
    requires !LockfileClash(vs, ours, theirs) && ClosedLockfile(rd, ours) && ClosedLockfile(rd, theirs)
    ensures ClosedLockfile(rd, MergedLockfile(vs, ours, theirs))
  {
    hide LockfileClash, RefsClosed, MergedImporter, MergedPackage;
    var l := MergedLockfile(vs, ours, theirs);
    assert Packages(l).Keys == Packages(ours).Keys + Packages(theirs).Keys;
    forall id, field | id in l.importers
      ensures RefsClosed(rd, ImporterField(l.importers[id], field), Packages(l).Keys)
    {
      MergedImporterClosed(rd, vs, ours, theirs, id, field);
    }
    forall d | d in Packages(l)
      ensures RefsClosed(rd, OrEmpty(Packages(l)[d].dependencies), Packages(l).Keys)
      ensures RefsClosed(rd, OrEmpty(Packages(l)[d].optionalDependencies), Packages(l).Keys)
    {
      MergedPackageClosed(rd, vs, ours, theirs, d);
    }
  }

  lemma NothingClosed(rd: Reading, packages: set<DepPath>)
    ensures RefsClosed(rd, map[], packages)
  {
  }

  lemma MergedField(vs: Versions, ours: Importer, theirs: Importer, field: Field)
    ensures ImporterField(MergedImporter(vs, ours, theirs), field) ==
            MergedDict(vs, ImporterField(ours, field), ImporterField(theirs, field))
  {
    hide MergedDict, MergeSpecifiers;
  }

  // ----- One dependency of a lockfile -----

  /** Where a lockfile has a reference: in a field of an importer or of a package, under an alias. */
  datatype Slot =
    | ImporterSlot(id: ProjectId, field: Field, alias: Alias)
    | PackageSlot(depPath: DepPath, optional: bool, alias: Alias)

  ghost function DictAt(l: LockfileData, slot: Slot): ResolvedDependencies {
    match slot
    case ImporterSlot(id, field, _) =>
      if id !in l.importers then map[]
      else
        var p := l.importers[id];
        OrEmpty(match field
                case Prod => p.dependencies
                case Dev => p.devDependencies
                case Optional => p.optionalDependencies)
    case PackageSlot(d, optional, _) =>
      if l.packages.None? || d !in l.packages.value then map[]
      else
        var p := l.packages.value[d];
        OrEmpty(if optional then p.optionalDependencies else p.dependencies)
  }

  /** The reference there, if there is one that is not empty. */
  ghost function RefAt(vs: Versions, l: LockfileData, slot: Slot): Option<Ref> {
    var deps := DictAt(l, slot);
    if slot.alias in deps && !vs.emptyRef(deps[slot.alias]) then Some(deps[slot.alias]) else None
  }

  lemma DictAtOf(l: LockfileData, slot: Slot)
    ensures DictAt(l, slot) ==
            match slot
            case ImporterSlot(id, field, _) => ImporterField(ImporterOf(l, id), field)
            case PackageSlot(d, optional, _) =>
              OrEmpty(if optional then PackageOf(l, d).optionalDependencies else PackageOf(l, d).dependencies)
  {
    assert OrEmpty(None) == map[];
  }

  /** Two different references, one of which is no version. */
  predicate Incomparable(vs: Versions, a: Option<Ref>, b: Option<Ref>) {
    a.Some? && b.Some? && a != b && (vs.parseRef(a.value).None? || vs.parseRef(b.value).None?)
  }

  predicate BadVersion(vs: Versions, l: LockfileData) {
    vs.parseLockfileVersion(l.lockfileVersion).None?
  }

  ghost predicate SlotClash(vs: Versions, ours: LockfileData, theirs: LockfileData) {
    exists slot :: Incomparable(vs, RefAt(vs, ours, slot), RefAt(vs, theirs, slot))
  }

  /** Two lockfiles cannot be merged exactly when one has an invalid version or some slot holds incomparable
    * references.
    */
  lemma ClashBySlots(vs: Versions, ours: LockfileData, theirs: LockfileData)
    ensures LockfileClash(vs, ours, theirs) <==>
      BadVersion(vs, ours) || BadVersion(vs, theirs) || SlotClash(vs, ours, theirs)
  {
    hide Clashes, RefAt, Incomparable;
    if slot :| Incomparable(vs, RefAt(vs, ours, slot), RefAt(vs, theirs, slot)) {
      ClashAt(vs, ours, theirs, slot);
    }
    if id :| id in ImporterIds(ours, theirs) && ImporterClash(vs, ImporterOf(ours, id), ImporterOf(theirs, id)) {
      var o, t := ImporterOf(ours, id), ImporterOf(theirs, id);
      var field :| Clashes(vs, ImporterField(o, field), ImporterField(t, field));
      var alias := ClashingAlias(vs, ImporterField(o, field), ImporterField(t, field));
      ClashShows(vs, ours, theirs, ImporterSlot(id, field, alias));
    }
    if d :| d in PackageIds(ours, theirs) && PackageClash(vs, PackageOf(ours, d), PackageOf(theirs, d)) {
      var o, t := PackageOf(ours, d), PackageOf(theirs, d);
      if Clashes(vs, OrEmpty(o.dependencies), OrEmpty(t.dependencies)) {
        var alias := ClashingAlias(vs, OrEmpty(o.dependencies), OrEmpty(t.dependencies));
        ClashShows(vs, ours, theirs, PackageSlot(d, false, alias));
      } else {
        var alias := ClashingAlias(vs, OrEmpty(o.optionalDependencies), OrEmpty(t.optionalDependencies));
        ClashShows(vs, ours, theirs, PackageSlot(d, true, alias));
      }
    }
  }

  lemma ClashAt(vs: Versions, ours: LockfileData, theirs: LockfileData, slot: Slot)
    requires Incomparable(vs, RefAt(vs, ours, slot), RefAt(vs, theirs, slot))
    ensures LockfileClash(vs, ours, theirs)
  {
    var k := slot.alias;
    DictAtOf(ours, slot);
    DictAtOf(theirs, slot);
    assert MergeVersions(vs, Get(DictAt(ours, slot), k), Get(DictAt(theirs, slot), k)) == InvalidVersion;
    assert Clashes(vs, DictAt(ours, slot), DictAt(theirs, slot));
    hide Clashes;
    match slot
    case ImporterSlot(id, field, _) =>
      assert id in ImporterIds(ours, theirs) && ImporterClash(vs, ImporterOf(ours, id), ImporterOf(theirs, id));
    case PackageSlot(d, _, _) =>
      assert d in PackageIds(ours, theirs) && PackageClash(vs, PackageOf(ours, d), PackageOf(theirs, d));
  }

  lemma ClashingAlias(vs: Versions, ours: ResolvedDependencies, theirs: ResolvedDependencies) returns (k: Alias)
    requires Clashes(vs, ours, theirs)
    ensures MergeVersions(vs, Get(ours, k), Get(theirs, k)) == InvalidVersion
  {
    k :| (k in ours || k in theirs) && MergeVersions(vs, Get(ours, k), Get(theirs, k)) == InvalidVersion;
  }

  lemma ClashShows(vs: Versions, ours: LockfileData, theirs: LockfileData, slot: Slot)
    requires var k := slot.alias;
             MergeVersions(vs, Get(DictAt(ours, slot), k), Get(DictAt(theirs, slot), k)) == InvalidVersion
    ensures SlotClash(vs, ours, theirs)
  {
    hide DictAt;
    DictAtOf(ours, slot);
    assert Incomparable(vs, RefAt(vs, ours, slot), RefAt(vs, theirs, slot));
  }

  /** The same reference, or two valid versions of which the first is not higher. */
  ghost predicate AtMost(vs: Versions, a: Ref, b: Ref) {
    || a == b
    || (vs.parseRef(a).Some? && vs.parseRef(b).Some? && !Gt(vs.parseRef(a).value, vs.parseRef(b).value))
  }

  lemma AtMostTrans(vs: Versions, a: Ref, b: Ref, c: Ref)
    requires AtMost(vs, a, b) && AtMost(vs, b, c)
    ensures AtMost(vs, a, c)
  {
    hide Gt;
    if a != b && b != c {
      var x, y, z := vs.parseRef(a).value, vs.parseRef(b).value, vs.parseRef(c).value;
      GtOrder(x, y, z);
      GtOrder(x, z, y);
      GtOrder(y, z, x);
    }
  }

  /** A merged dependency, of an importer or of a package, is that of one side, and neither side has a higher one. */
  lemma MergedSlot(vs: Versions, ours: LockfileData, theirs: LockfileData, slot: Slot)
    requires !LockfileClash(vs, ours, theirs)
    ensures var o, t := RefAt(vs, ours, slot), RefAt(vs, theirs, slot);
            var m := RefAt(vs, MergedLockfile(vs, ours, theirs), slot);
            && (m.None? <==> o.None? && t.None?)
            && (m.Some? ==> m == o || m == t)
            && (o.Some? ==> AtMost(vs, o.value, m.value))
            && (t.Some? ==> AtMost(vs, t.value, m.value))
            && (o.Some? && t.Some? && o != t ==>
                 var x, y := vs.parseRef(o.value), vs.parseRef(t.value);
                 x.Some? && y.Some? && m == if Gt(x.value, y.value) then o else t)
  {
    hide Gt, LockfileClash, MergedLockfile, MergedDict, DictAt, AtMost;
    DictOfMerged(vs, ours, theirs, slot);
    MergedDictAt(vs, DictAt(ours, slot), DictAt(theirs, slot), slot.alias);
  }

  lemma DictOfMerged(vs: Versions, ours: LockfileData, theirs: LockfileData, slot: Slot)
    requires !LockfileClash(vs, ours, theirs)
    ensures !Clashes(vs, DictAt(ours, slot), DictAt(theirs, slot))
    ensures DictAt(MergedLockfile(vs, ours, theirs), slot) == MergedDict(vs, DictAt(ours, slot), DictAt(theirs, slot))
  {
    hide Gt, MergedDict, Clashes, MergeSpecifiers, DictAt;
    EmptyDicts(vs);
    DictAtOf(ours, slot);
    DictAtOf(theirs, slot);
    DictAtOf(MergedLockfile(vs, ours, theirs), slot);
    match slot
    case ImporterSlot(id, field, _) =>
      var oi, ti := ImporterOf(ours, id), ImporterOf(theirs, id);
      MergedField(vs, oi, ti, field);
      if id in ImporterIds(ours, theirs) {
        assert !ImporterClash(vs, oi, ti);
        assert ImporterOf(MergedLockfile(vs, ours, theirs), id) == MergedImporter(vs, oi, ti);
      }
    case PackageSlot(d, _, _) =>
      var od, td := PackageOf(ours, d), PackageOf(theirs, d);
      if d in PackageIds(ours, theirs) {
        assert !PackageClash(vs, od, td);
        assert PackageOf(MergedLockfile(vs, ours, theirs), d) == MergedPackage(vs, od, td);
      }
  }

  lemma EmptyDicts(vs: Versions)
    ensures MergedDict(vs, map[], map[]) == map[] && !Clashes(vs, map[], map[])
  {
  }

  lemma MergedDictAt(vs: Versions, of: ResolvedDependencies, tf: ResolvedDependencies, k: Alias)
    requires !Clashes(vs, of, tf)
    ensures var o := if Truthy(vs, Get(of, k)) then Get(of, k) else None;
            var t := if Truthy(vs, Get(tf, k)) then Get(tf, k) else None;
            var m := Get(MergedDict(vs, of, tf), k);
            && (m.Some? ==> Truthy(vs, m))
            && (m.None? <==> o.None? && t.None?)
            && (m.Some? ==> m == o || m == t)
            && (o.Some? ==> AtMost(vs, o.value, m.value))
            && (t.Some? ==> AtMost(vs, t.value, m.value))
            && (o.Some? && t.Some? && o != t ==>
                 var x, y := vs.parseRef(o.value), vs.parseRef(t.value);
                 x.Some? && y.Some? && m == if Gt(x.value, y.value) then o else t)
  {
    hide Gt;
    if k in of || k in tf {
      assert MergeVersions(vs, Get(of, k), Get(tf, k)) != InvalidVersion;
    }
    if k in of && k in tf && vs.parseRef(of[k]).Some? && vs.parseRef(tf[k]).Some? {
      var x, y := vs.parseRef(of[k]).value, vs.parseRef(tf[k]).value;
      GtOrder(x, y, x);
    }
  }

  // ----- The other fields -----

  /** What a merge makes of the fields that are not references: the higher version and on a tie ours; our checksum, or
    * else theirs, but no empty one; the ignored dependencies of both, once each; and of the other package fields
    * theirs, wherever they have one. No field and no reference is left empty.
    */
  lemma MergedFields(vs: Versions, ours: LockfileData, theirs: LockfileData)
    requires !LockfileClash(vs, ours, theirs)
    ensures var m := MergedLockfile(vs, ours, theirs);
            var x := vs.parseLockfileVersion(ours.lockfileVersion);
            var y := vs.parseLockfileVersion(theirs.lockfileVersion);
            && m.importers.Keys == ours.importers.Keys + theirs.importers.Keys
            && x.Some? && y.Some?
            && m.lockfileVersion == (if Gt(y.value, x.value) then theirs.lockfileVersion else ours.lockfileVersion)
            && (forall c :: m.pnpmfileChecksum == Some(c) <==>
                 c != "" && (ours.pnpmfileChecksum == Some(c) ||
                             (ours.pnpmfileChecksum.None? && theirs.pnpmfileChecksum == Some(c))))
            && NoDup(m.ignoredOptionalDependencies)
            && Elems(m.ignoredOptionalDependencies) ==
               Elems(ours.ignoredOptionalDependencies) + Elems(theirs.ignoredOptionalDependencies)
  {
    hide Gt, LockfileClash, MergedImporter, MergedPackages;
    assert !BadVersion(vs, ours) && !BadVersion(vs, theirs) by {
      ClashBySlots(vs, ours, theirs);
    }
    ElemsAppend(ours.ignoredOptionalDependencies, theirs.ignoredOptionalDependencies);
  }

  /** A merged importer has their specifier wherever they have one, and else ours, but no empty one. */
  lemma MergedSpecifiers(vs: Versions, ours: LockfileData, theirs: LockfileData, id: ProjectId, alias: Alias)
    requires !LockfileClash(vs, ours, theirs) && (id in ours.importers || id in theirs.importers)
    ensures var o := if id in ours.importers then Get(ours.importers[id].specifiers, alias) else None;
            var t := if id in theirs.importers then Get(theirs.importers[id].specifiers, alias) else None;
            var taken := if t.Some? then t else o;
            id in MergedLockfile(vs, ours, theirs).importers &&
            Get(MergedLockfile(vs, ours, theirs).importers[id].specifiers, alias) ==
            if taken.Some? && vs.emptySpecifier(taken.value) then None else taken
  {
    hide Gt, LockfileClash, MergedDict, MergedPackages;
  }

  lemma MergedPackageFields(vs: Versions, ours: LockfileData, theirs: LockfileData, d: DepPath)
    requires !LockfileClash(vs, ours, theirs)
    ensures var m := MergedLockfile(vs, ours, theirs);
            var inOurs := ours.packages.Some? && d in ours.packages.value;
            var inTheirs := theirs.packages.Some? && d in theirs.packages.value;
            && m.packages.Some?
            && (d in m.packages.value <==> inOurs || inTheirs)
            && forall name ::
                 var o := if inOurs then Get(ours.packages.value[d].others, name) else None;
                 var t := if inTheirs then Get(theirs.packages.value[d].others, name) else None;
                 d in m.packages.value ==> Get(m.packages.value[d].others, name) == if t.Some? then t else o
  {
    hide Gt, LockfileClash, MergedDict;
  }

  /** No merged field is present but empty, and no merged reference is empty. */
  lemma NothingEmpty(vs: Versions, ours: LockfileData, theirs: LockfileData)
    requires !LockfileClash(vs, ours, theirs)
    ensures var m := MergedLockfile(vs, ours, theirs);
            && (forall id :: id in m.importers ==>
                 var p := m.importers[id];
                 && p.dependencies != Some(map[]) && p.devDependencies != Some(map[])
                 && p.optionalDependencies != Some(map[]))
            && (forall d :: d in m.packages.value ==>
                 var p := m.packages.value[d]; p.dependencies != Some(map[]) && p.optionalDependencies != Some(map[]))
            && (forall slot, alias :: alias in DictAt(m, slot) ==> !vs.emptyRef(DictAt(m, slot)[alias]))
  {
    var m := MergedLockfile(vs, ours, theirs);
    forall slot, alias | alias in DictAt(m, slot) ensures !vs.emptyRef(DictAt(m, slot)[alias]) {
      DictOfMerged(vs, ours, theirs, slot);
      NoEmptyRef(vs, DictAt(ours, slot), DictAt(theirs, slot), alias);
    }
    hide Gt, LockfileClash, MergedDict;
  }

  lemma NoEmptyRef(vs: Versions, ours: ResolvedDependencies, theirs: ResolvedDependencies, alias: Alias)
    requires alias in MergedDict(vs, ours, theirs)
    ensures !vs.emptyRef(MergedDict(vs, ours, theirs)[alias])
  {
  }

  // ----- Merging many lockfiles, in any order -----

  /** How several lockfiles are merged two at a time: any shape, any order. */
  datatype MergeTree = Leaf(lockfile: LockfileData) | Node(left: MergeTree, right: MergeTree)

  ghost function Leaves(t: MergeTree): multiset<LockfileData> {
    match t
    case Leaf(l) => multiset{l}
    case Node(l, r) => Leaves(l) + Leaves(r)
  }

  /** Some merge on the way fails. */
  ghost predicate TreeClash(vs: Versions, t: MergeTree)
    decreases t, 0
  {
    match t
    case Leaf(_) => false
    case Node(l, r) => TreeClash(vs, l) || TreeClash(vs, r) || LockfileClash(vs, Fold(vs, l), Fold(vs, r))
  }

  ghost function Fold(vs: Versions, t: MergeTree): LockfileData
    requires !TreeClash(vs, t)
    decreases t, 1
  {
    match t
    case Leaf(l) => l
    case Node(l, r) => MergedLockfile(vs, Fold(vs, l), Fold(vs, r))
  }

  /** One of the merged lockfiles has `ref` there. */
  ghost predicate Candidate(vs: Versions, t: MergeTree, slot: Slot, ref: Ref) {
    exists l :: l in Leaves(t) && RefAt(vs, l, slot) == Some(ref)
  }

  /** However the lockfiles are merged, each dependency gets a reference that one of them has, and none of them has
    * a higher version.
    */
  lemma {:induction false} FoldIsMaximal(vs: Versions, t: MergeTree, slot: Slot)
    requires !TreeClash(vs, t)
    ensures var m := RefAt(vs, Fold(vs, t), slot);
            && (m.Some? ==> Candidate(vs, t, slot, m.value))
            && (forall c :: Candidate(vs, t, slot, c) ==> m.Some? && AtMost(vs, c, m.value))
  {
    hide MergedLockfile, LockfileClash, RefAt, AtMost;
    match t
    case Leaf(l) =>
      AtMostRefl(vs);
      assert l in Leaves(t);
    case Node(left, right) =>
      FoldIsMaximal(vs, left, slot);
      FoldIsMaximal(vs, right, slot);
      MergedSlot(vs, Fold(vs, left), Fold(vs, right), slot);
      var m := RefAt(vs, Fold(vs, t), slot);
      forall c ensures Candidate(vs, t, slot, c) <==> Candidate(vs, left, slot, c) || Candidate(vs, right, slot, c) {
        CandidateOf(vs, left, right, slot, c);
      }
      forall c | Candidate(vs, t, slot, c) ensures m.Some? && AtMost(vs, c, m.value) {
        var side := if Candidate(vs, left, slot, c) then left else right;
        AtMostTrans(vs, c, RefAt(vs, Fold(vs, side), slot).value, m.value);
      }
  }

  lemma AtMostRefl(vs: Versions)
    ensures forall c :: AtMost(vs, c, c)
  {
  }

  lemma CandidateOf(vs: Versions, left: MergeTree, right: MergeTree, slot: Slot, c: Ref)
    ensures Candidate(vs, Node(left, right), slot, c) <==> Candidate(vs, left, slot, c) || Candidate(vs, right, slot, c)
  {
    hide RefAt;
    assert forall l :: l in Leaves(Node(left, right)) <==> l in Leaves(left) || l in Leaves(right);
  }

  // ----- Whether the lockfiles can be merged at all -----

  /** Two of these lockfiles, possibly equal ones, cannot be merged. */
  ghost predicate PairClash(vs: Versions, m: multiset<LockfileData>) {
    exists x, y :: x in m && y in m - multiset{x} && LockfileClash(vs, x, y)
  }

  lemma ClashSymmetric(vs: Versions, x: LockfileData, y: LockfileData)
    ensures LockfileClash(vs, x, y) <==> LockfileClash(vs, y, x)
  {
    hide LockfileClash, RefAt;
    ClashBySlots(vs, x, y);
    ClashBySlots(vs, y, x);
    assert forall slot :: Incomparable(vs, RefAt(vs, x, slot), RefAt(vs, y, slot)) <==>
      Incomparable(vs, RefAt(vs, y, slot), RefAt(vs, x, slot));
  }

  lemma {:induction false} FoldVersion(vs: Versions, t: MergeTree)
    requires !TreeClash(vs, t)
    ensures BadVersion(vs, Fold(vs, t)) <==> exists l :: l in Leaves(t) && BadVersion(vs, l)
  {
    hide Gt;
    match t
    case Leaf(l) => assert l in Leaves(t);
    case Node(left, right) =>
      FoldVersion(vs, left);
      FoldVersion(vs, right);
      ClashBySlots(vs, Fold(vs, left), Fold(vs, right));
      assert forall l :: l in Leaves(t) <==> l in Leaves(left) || l in Leaves(right);
  }

  ghost predicate CrossClash(vs: Versions, left: MergeTree, right: MergeTree) {
    exists x, y :: x in Leaves(left) && y in Leaves(right) && LockfileClash(vs, x, y)
  }

  /** Two merged lockfiles clash exactly when a lockfile of one clashes with a lockfile of the other. */
  lemma FoldsClash(vs: Versions, left: MergeTree, right: MergeTree)
    requires !TreeClash(vs, left) && !TreeClash(vs, right)
    ensures LockfileClash(vs, Fold(vs, left), Fold(vs, right)) <==> CrossClash(vs, left, right)
  {
    hide LockfileClash, RefAt, Fold, BadVersion, TreeClash, Leaves;
    var m, n := Fold(vs, left), Fold(vs, right);
    FoldVersion(vs, left);
    FoldVersion(vs, right);
    ClashBySlots(vs, m, n);
    if LockfileClash(vs, m, n) {
      FoldsClashShows(vs, left, right);
    }
    if x, y :| x in Leaves(left) && y in Leaves(right) && LockfileClash(vs, x, y) {
      ClashBySlots(vs, x, y);
      if slot :| Incomparable(vs, RefAt(vs, x, slot), RefAt(vs, y, slot)) {
        FoldIsAbove(vs, left, slot, x);
        FoldIsAbove(vs, right, slot, y);
        StillIncomparable(vs, RefAt(vs, x, slot), RefAt(vs, y, slot), RefAt(vs, m, slot), RefAt(vs, n, slot));
      }
    }
  }

  lemma FoldsClashShows(vs: Versions, left: MergeTree, right: MergeTree)
    requires !TreeClash(vs, left) && !TreeClash(vs, right) && LockfileClash(vs, Fold(vs, left), Fold(vs, right))
    ensures CrossClash(vs, left, right)
  {
    hide LockfileClash, RefAt, Fold, BadVersion, TreeClash, Leaves;
    var m, n := Fold(vs, left), Fold(vs, right);
    FoldVersion(vs, left);
    FoldVersion(vs, right);
    ClashBySlots(vs, m, n);
    var x := SomeLeaf(left);
    var y := SomeLeaf(right);
    if BadVersion(vs, m) {
      x :| x in Leaves(left) && BadVersion(vs, x);
    } else if BadVersion(vs, n) {
      y :| y in Leaves(right) && BadVersion(vs, y);
    } else {
      var slot :| Incomparable(vs, RefAt(vs, m, slot), RefAt(vs, n, slot));
      x := FoldIsLeaf(vs, left, slot);
      y := FoldIsLeaf(vs, right, slot);
    }
    ClashBySlots(vs, x, y);
  }

  lemma SomeLeaf(t: MergeTree) returns (l: LockfileData)
    ensures l in Leaves(t)
  {
    match t
    case Leaf(x) => l := x;
    case Node(left, _) => l := SomeLeaf(left);
  }

  lemma FoldIsLeaf(vs: Versions, t: MergeTree, slot: Slot) returns (l: LockfileData)
    requires !TreeClash(vs, t) && RefAt(vs, Fold(vs, t), slot).Some?
    ensures l in Leaves(t) && RefAt(vs, l, slot) == RefAt(vs, Fold(vs, t), slot)
  {
    hide RefAt, Fold, TreeClash, Leaves;
    FoldIsMaximal(vs, t, slot);
    l :| l in Leaves(t) && RefAt(vs, l, slot) == RefAt(vs, Fold(vs, t), slot);
  }

  lemma FoldIsAbove(vs: Versions, t: MergeTree, slot: Slot, l: LockfileData)
    requires !TreeClash(vs, t) && l in Leaves(t) && RefAt(vs, l, slot).Some?
    ensures var m := RefAt(vs, Fold(vs, t), slot); m.Some? && AtMost(vs, RefAt(vs, l, slot).value, m.value)
  {
    hide RefAt, Fold, TreeClash, Leaves, AtMost;
    FoldIsMaximal(vs, t, slot);
    assert Candidate(vs, t, slot, RefAt(vs, l, slot).value);
  }

  lemma StillIncomparable(vs: Versions, a: Option<Ref>, b: Option<Ref>, m: Option<Ref>, n: Option<Ref>)
    requires Incomparable(vs, a, b)
    requires m.Some? && AtMost(vs, a.value, m.value) && n.Some? && AtMost(vs, b.value, n.value)
    ensures Incomparable(vs, m, n)
  {
    hide Gt;
  }

  /** Merging fails on the way exactly when two of the lockfiles cannot be merged: the order does not matter. */
  lemma {:induction false} ClashIsPairwise(vs: Versions, t: MergeTree)
    ensures TreeClash(vs, t) <==> PairClash(vs, Leaves(t))
  {
    hide LockfileClash, Fold;
    match t
    case Leaf(l) => assert Leaves(t) - multiset{l} == multiset{};
    case Node(left, right) =>
      ClashIsPairwise(vs, left);
      ClashIsPairwise(vs, right);
      PairsOfSum(vs, Leaves(left), Leaves(right));
      if !TreeClash(vs, left) && !TreeClash(vs, right) {
        FoldsClash(vs, left, right);
      }
  }

  lemma PairsOfSum(vs: Versions, a: multiset<LockfileData>, b: multiset<LockfileData>)
    ensures PairClash(vs, a + b) <==>
      PairClash(vs, a) || PairClash(vs, b) || (exists x, y :: x in a && y in b && LockfileClash(vs, x, y))
  {
    hide LockfileClash;
    if x, y :| x in a + b && y in a + b - multiset{x} && LockfileClash(vs, x, y) {
      ClashSymmetric(vs, x, y);
      if x in a && y !in b {
        assert y in a - multiset{x};
      } else if x !in a && y !in a {
        assert y in b - multiset{x};
      }
    }
    if x, y :| x in a && y in a - multiset{x} && LockfileClash(vs, x, y) {
      assert y in a + b - multiset{x};
    }
    if x, y :| x in b && y in b - multiset{x} && LockfileClash(vs, x, y) {
      assert y in a + b - multiset{x};
    }
    if x, y :| x in a && y in b && LockfileClash(vs, x, y) {
      assert y in a + b - multiset{x};
    }
  }

  /** Two ways of merging the same lockfiles both fail or both succeed, and then they agree on every dependency, up to
    * the spelling of one version.
    */
  lemma FoldOrderIrrelevant(vs: Versions, t: MergeTree, u: MergeTree, slot: Slot)
    requires Leaves(t) == Leaves(u)
    ensures TreeClash(vs, t) <==> TreeClash(vs, u)
    ensures !TreeClash(vs, t) ==>
      var m, n := RefAt(vs, Fold(vs, t), slot), RefAt(vs, Fold(vs, u), slot);
      && (m.Some? <==> n.Some?)
      && (m.Some? && m != n ==> vs.parseRef(m.value).Some? && vs.parseRef(m.value) == vs.parseRef(n.value))
  {
    hide Gt, Fold, RefAt, TreeClash;
    ClashIsPairwise(vs, t);
    ClashIsPairwise(vs, u);
    if !TreeClash(vs, t) {
      FoldIsMaximal(vs, t, slot);
      FoldIsMaximal(vs, u, slot);
      var m, n := RefAt(vs, Fold(vs, t), slot), RefAt(vs, Fold(vs, u), slot);
      assert m.Some? ==> Candidate(vs, u, slot, m.value);
      assert n.Some? ==> Candidate(vs, t, slot, n.value);
      if m.Some? && n.Some? && m != n {
        GtOrder(vs.parseRef(m.value).value, vs.parseRef(n.value).value, vs.parseRef(m.value).value);
      }
    }
  }

  /** Merging closed lockfiles in any order gives a closed lockfile. */
  lemma {:induction false} FoldKeepsClosed(rd: Reading, vs: Versions, t: MergeTree)
    requires !TreeClash(vs, t) && AllClosed(rd, t)
    ensures ClosedLockfile(rd, Fold(vs, t))
  {
    if t.Node? {
      hide LockfileClash, MergedLockfile, ClosedLockfile;
      FoldKeepsClosed(rd, vs, t.left);
      FoldKeepsClosed(rd, vs, t.right);
      MergeKeepsClosed(rd, vs, Fold(vs, t.left), Fold(vs, t.right));
    }
  }

  ghost predicate AllClosed(rd: Reading, t: MergeTree) {
    match t
    case Leaf(l) => ClosedLockfile(rd, l)
    case Node(l, r) => AllClosed(rd, l) && AllClosed(rd, r)
  }
}
