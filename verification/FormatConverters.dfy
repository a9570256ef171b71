/** The two representations of a lockfile, from lockfile/fs: the object with a `specifiers` map per importer and
  * whole package entries, and the file with inline specifiers and entries split into `packages` and `snapshots`.
  */
module FormatConverters {
  import opened Records
  import Lockfile

  type DepPath = Lockfile.DepPath
  type ProjectId = Lockfile.ProjectId
  type Alias = Lockfile.Alias
  type Ref = Lockfile.Ref
  type ResolvedDependencies = map<Alias, Ref>
  type PkgId(==,!new)
  type Specifier(==,!new)
  type Name(==,!new)
  type Value(==,!new)

  const LOCKFILE_VERSION := "9.0"

  // ----- Entities -----

  /** The fields that go to a snapshot, the picked info fields that are present, and `patched`, which is picked by
    * neither.
    */
  datatype Package = Package(snapshot: Snapshot, info: map<Name, Value>, patched: bool)

  datatype Snapshot = Snapshot(
    dependencies: Option<ResolvedDependencies>,
    optionalDependencies: Option<ResolvedDependencies>,
    transitivePeerDependencies: Option<seq<Name>>,
    optional: bool,
    id: Option<Name>)

  /** A specifier that is looked up but missing is JavaScript's `undefined`, here `None`. */
  type Specifiers = map<Alias, Option<Specifier>>

  datatype Importer = Importer(
    specifiers: Specifiers,
    dependencies: Option<ResolvedDependencies>,
    devDependencies: Option<ResolvedDependencies>,
    optionalDependencies: Option<ResolvedDependencies>,
    dependenciesMeta: Option<map<Name, Value>>,
    publishDirectory: Option<string>)

  datatype Inline = Inline(specifier: Option<Specifier>, version: Ref)

  type Block = map<Alias, Inline>

  datatype FileImporter = FileImporter(
    dependencies: Option<Block>,
    devDependencies: Option<Block>,
    optionalDependencies: Option<Block>,
    dependenciesMeta: Option<map<Name, Value>>,
    publishDirectory: Option<string>)

  datatype Settings = Settings(
    autoInstallPeers: Option<bool>,
    excludeLinksFromLockfile: Option<bool>,
    peersSuffixMaxLength: Option<int>,
    injectWorkspacePackages: Option<bool>)

  /** The fields both representations share. */
  datatype Base = Base(
    lockfileVersion: string,
    settings: Option<Settings>,
    catalogs: Option<map<Name, Value>>,
    overrides: Option<map<Name, Value>>,
    patchedDependencies: Option<map<Name, Value>>,
    packageExtensionsChecksum: Option<string>,
    ignoredOptionalDependencies: Option<seq<Name>>,
    pnpmfileChecksum: Option<string>)

  datatype LockfileObject = LockfileObject(
    base: Base,
    importers: map<ProjectId, Importer>,
    packages: Option<map<DepPath, Package>>)

  datatype LockfileFile = LockfileFile(
    base: Base,
    importers: Option<map<ProjectId, FileImporter>>,
    packages: Option<map<PkgId, map<Name, Value>>>,
    snapshots: Option<map<DepPath, Snapshot>>)

  datatype Converted<T> = Converted(value: T) | ConflictingSpecifiers

  function OrElse<K, V>(m: Option<map<K, V>>): map<K, V> {
    if m.Some? then m.value else map[]
  }

  function NonEmpty<K, V>(m: Option<map<K, V>>): Option<map<K, V>> {
    if m.Some? && m.value == map[] then None else m
  }

  function NonBlank(s: Option<string>): Option<string> {
    if s == Some("") then None else s
  }

  // ----- Object to file: importers -----

  function Lookup(specifiers: Specifiers, alias: Alias): Option<Specifier> {
    if alias in specifiers then specifiers[alias] else None
  }

  function ToBlock(deps: ResolvedDependencies, specifiers: Specifiers): Block {
    map alias | alias in deps :: Inline(Lookup(specifiers, alias), deps[alias])
  }

  /** `convertProjectSnapshotToInlineSpecifiersFormat` followed by the normalisation of importers. */
  function ToFileImporter(p: Importer): FileImporter {
    FileImporter(
      NonEmpty(Some(ToBlock(OrElse(p.dependencies), p.specifiers))),
      NonEmpty(Some(ToBlock(OrElse(p.devDependencies), p.specifiers))),
      NonEmpty(Some(ToBlock(OrElse(p.optionalDependencies), p.specifiers))),
      NonEmpty(p.dependenciesMeta),
      NonBlank(p.publishDirectory))
  }

  function ToFileSettings(s: Option<Settings>): Option<Settings> {
    match s
    case None => None
    case Some(t) =>
      Some(t.(peersSuffixMaxLength := if t.peersSuffixMaxLength == Some(1000) then None else t.peersSuffixMaxLength,
              injectWorkspacePackages :=
                if t.injectWorkspacePackages == Some(false) then None else t.injectWorkspacePackages))
  }

  function NormalBase(b: Base): Base {
    Base(
      b.lockfileVersion,
      ToFileSettings(b.settings),
      NonEmpty(b.catalogs),
      NonEmpty(b.overrides),
      NonEmpty(b.patchedDependencies),
      NonBlank(b.packageExtensionsChecksum),
      if b.ignoredOptionalDependencies == Some([]) then None else b.ignoredOptionalDependencies,
      NonBlank(b.pnpmfileChecksum))
  }

  /** The file always gets the current version. */
  function ToFileBase(b: Base): Base {
    NormalBase(b).(lockfileVersion := LOCKFILE_VERSION)
  }

  function FileImporters(importers: map<ProjectId, Importer>): map<ProjectId, FileImporter> {
    map id | id in importers :: ToFileImporter(importers[id])
  }

  // ----- Object to file: packages -----

  /** `infos` has one entry per suffix-free id, taken from some dep path with that id: the first one met. */
  ghost predicate InfosOf(
    removeSuffix: DepPath -> PkgId, packages: map<DepPath, Package>, infos: map<PkgId, map<Name, Value>>)
  {
    && (forall d :: d in packages ==> removeSuffix(d) in infos)
    && (forall id :: id in infos ==>
         exists d :: d in packages && removeSuffix(d) == id && packages[d].info == infos[id])
  }

  function SnapshotsOf(packages: map<DepPath, Package>): map<DepPath, Snapshot> {
    map d | d in packages :: packages[d].snapshot
  }

  /** `f` is a file the converter may write for `o`. */
  ghost predicate FileOf(removeSuffix: DepPath -> PkgId, o: LockfileObject, f: LockfileFile) {
    && f.base == ToFileBase(o.base)
    && f.importers == Some(FileImporters(o.importers))
    && f.snapshots == NonEmpty(Some(SnapshotsOf(OrElse(o.packages))))
    && f.packages == NonEmpty(f.packages)
    && InfosOf(removeSuffix, OrElse(o.packages), OrElse(f.packages))
  }

  method ConvertToLockfileFile(removeSuffix: DepPath -> PkgId, lockfile: LockfileObject) returns (f: LockfileFile)
    ensures FileOf(removeSuffix, lockfile, f)
  {
    hide ToFileImporter, ToFileBase;
    var all := OrElse(lockfile.packages);
    var packages: map<PkgId, map<Name, Value>> := map[];
    var snapshots: map<DepPath, Snapshot> := map[];
    var rest := all.Keys;
    while rest != {}
      invariant rest <= all.Keys && snapshots.Keys == all.Keys - rest
      invariant forall d :: d in snapshots ==> snapshots[d] == all[d].snapshot && removeSuffix(d) in packages
      invariant forall id :: id in packages ==> exists d ::
        d in all && removeSuffix(d) == id && all[d].info == packages[id]
      decreases rest
    {
      var depPath :| depPath in rest;
      rest := rest - {depPath};
      var pkg := all[depPath];
      snapshots := snapshots[depPath := pkg.snapshot];
      var pkgId := removeSuffix(depPath);
      if pkgId !in packages {
        packages := packages[pkgId := pkg.info];
      }
    }
    assert snapshots == SnapshotsOf(all);
    NonEmptyOrElse(packages);
    f := LockfileFile(
      ToFileBase(lockfile.base),
      Some(FileImporters(lockfile.importers)),
      NonEmpty(Some(packages)),
      NonEmpty(Some(snapshots)));
  }

  // ----- The written file, field by field -----

  /** The field is left out if it is present but blank, and kept as it is otherwise. */
  ghost predicate Cleaned<T>(before: Option<T>, after: Option<T>, blank: T) {
    && (before == Some(blank) ==> after.None?)
    && (before != Some(blank) ==> after == before)
  }

  /** The file has the current version, and each other field is kept unless it is empty. Settings stay as they are but
    * for the two that have a default, of which each is left out on its own.
    */
  lemma WrittenBase(removeSuffix: DepPath -> PkgId, o: LockfileObject, f: LockfileFile)
    requires FileOf(removeSuffix, o, f)
    ensures f.base.lockfileVersion == "9.0"
    ensures Cleaned(o.base.catalogs, f.base.catalogs, map[])
    ensures Cleaned(o.base.overrides, f.base.overrides, map[])
    ensures Cleaned(o.base.patchedDependencies, f.base.patchedDependencies, map[])
    ensures Cleaned(o.base.packageExtensionsChecksum, f.base.packageExtensionsChecksum, "")
    ensures Cleaned(o.base.ignoredOptionalDependencies, f.base.ignoredOptionalDependencies, [])
    ensures Cleaned(o.base.pnpmfileChecksum, f.base.pnpmfileChecksum, "")
    ensures o.base.settings.Some? <==> f.base.settings.Some?
    ensures o.base.settings.Some? ==>
      var s, t := o.base.settings.value, f.base.settings.value;
      && t.autoInstallPeers == s.autoInstallPeers
      && t.excludeLinksFromLockfile == s.excludeLinksFromLockfile
      && Cleaned(s.peersSuffixMaxLength, t.peersSuffixMaxLength, 1000)
      && Cleaned(s.injectWorkspacePackages, t.injectWorkspacePackages, false)
  {
    hide InfosOf;
  }

  /** The block holds exactly the dependencies of its field, each with its specifier if there is one. */
  ghost predicate WrittenDeps(deps: Option<ResolvedDependencies>, specifiers: Specifiers, block: Option<Block>) {
    && (block.None? <==> deps.None? || deps == Some(map[]))
    && (block.Some? ==>
         && block.value.Keys == deps.value.Keys
         && forall alias :: alias in deps.value ==>
              && block.value[alias].version == deps.value[alias]
              && block.value[alias].specifier == if alias in specifiers then specifiers[alias] else None)
  }

  lemma WrittenImporter(removeSuffix: DepPath -> PkgId, o: LockfileObject, f: LockfileFile, id: ProjectId)
    requires FileOf(removeSuffix, o, f)
    ensures f.importers.Some? && (id in f.importers.value <==> id in o.importers)
    ensures id in o.importers ==>
      var p, q := o.importers[id], f.importers.value[id];
      && WrittenDeps(p.dependencies, p.specifiers, q.dependencies)
      && WrittenDeps(p.devDependencies, p.specifiers, q.devDependencies)
      && WrittenDeps(p.optionalDependencies, p.specifiers, q.optionalDependencies)
      && Cleaned(p.dependenciesMeta, q.dependenciesMeta, map[])
      && Cleaned(p.publishDirectory, q.publishDirectory, "")
  {
    hide InfosOf, ToFileBase, WrittenDeps;
    if id in o.importers {
      var p := o.importers[id];
      WrittenBlockOf(p.dependencies, p.specifiers);
      WrittenBlockOf(p.devDependencies, p.specifiers);
      WrittenBlockOf(p.optionalDependencies, p.specifiers);
    }
  }

  lemma WrittenBlockOf(deps: Option<ResolvedDependencies>, specifiers: Specifiers)
    ensures WrittenDeps(deps, specifiers, NonEmpty(Some(ToBlock(OrElse(deps), specifiers))))
  {
    var block := ToBlock(OrElse(deps), specifiers);
    assert block.Keys == OrElse(deps).Keys;
    assert block == map[] <==> block.Keys == {};
    assert OrElse(deps) == map[] <==> OrElse(deps).Keys == {};
  }

  /** Every package has its snapshot in the file and its info under its id; either part is absent if there is none. */
  lemma WrittenPackages(removeSuffix: DepPath -> PkgId, o: LockfileObject, f: LockfileFile)
    requires FileOf(removeSuffix, o, f)
    ensures f.snapshots.None? <==> o.packages.None? || o.packages == Some(map[])
    ensures f.packages.None? <==> o.packages.None? || o.packages == Some(map[])
    ensures f.snapshots.Some? ==>
      && f.snapshots.value.Keys == o.packages.value.Keys
      && forall d :: d in o.packages.value ==>
           f.snapshots.value[d] == o.packages.value[d].snapshot && removeSuffix(d) in f.packages.value
    ensures f.packages.Some? ==>
      forall id :: id in f.packages.value ==>
        exists d :: d in o.packages.value && removeSuffix(d) == id && o.packages.value[d].info == f.packages.value[id]
  {
    hide ToFileBase, ToFileImporter;
    var all := OrElse(o.packages);
    assert SnapshotsOf(all).Keys == all.Keys;
    NonEmptyOrElse(SnapshotsOf(all));
    if all == map[] {
      assert OrElse(f.packages) == map[];
    } else {
      var d :| d in all;
      assert removeSuffix(d) in OrElse(f.packages);
      assert SnapshotsOf(all) != map[];
    }
  }

  // ----- File to object -----

  function VersionsOf(block: Block): ResolvedDependencies {
    map alias | alias in block :: block[alias].version
  }

  function Moved(specifiers: Specifiers, block: Block): Specifiers {
    specifiers + map alias | alias in block :: block[alias].specifier
  }

  /** The block repeats an alias with a specifier other than the one already recorded. */
  ghost predicate MoveConflict(specifiers: Specifiers, block: Block) {
    exists alias :: alias in block &&
      Lookup(specifiers, alias).Some? && Lookup(specifiers, alias) != block[alias].specifier
  }

  /** One block: record its specifiers and return its versions. */
  method MoveSpecifiers(specifiers: Specifiers, block: Block)
    returns (conflict: bool, newSpecifiers: Specifiers, resolved: ResolvedDependencies)
    ensures conflict <==> MoveConflict(specifiers, block)
    ensures !conflict ==> newSpecifiers == Moved(specifiers, block) && resolved == VersionsOf(block)
  {
    hide Moved;
    newSpecifiers, resolved := specifiers, map[];
    var rest := block.Keys;
    assert Part(block, rest) == map[];
    NothingMoved(specifiers);
    while rest != {}
      invariant rest <= block.Keys && resolved.Keys == block.Keys - rest
      invariant forall a :: a in resolved ==> resolved[a] == block[a].version
      invariant newSpecifiers == Moved(specifiers, Part(block, rest))
      invariant forall a :: a in resolved ==> Lookup(specifiers, a).None? || Lookup(specifiers, a) == block[a].specifier
      decreases rest
    {
      var depName :| depName in rest;
      var entry := block[depName];
      MovedMore(specifiers, block, rest, depName);
      var existingValue := Lookup(newSpecifiers, depName);
      if existingValue != None && existingValue != entry.specifier {
        return true, newSpecifiers, resolved;
      }
      newSpecifiers := newSpecifiers[depName := entry.specifier];
      resolved := resolved[depName := entry.version];
      rest := rest - {depName};
    }
    conflict := false;
    assert Part(block, {}) == block;
    assert resolved == VersionsOf(block);
  }

  /** The entries of a block that have been moved while `rest` is still to come. */
  function Part(block: Block, rest: set<Alias>): Block {
    map a | a in block && a !in rest :: block[a]
  }

  lemma MovedMore(specifiers: Specifiers, block: Block, rest: set<Alias>, a: Alias)
    requires a in rest && a in block
    ensures Lookup(Moved(specifiers, Part(block, rest)), a) == Lookup(specifiers, a)
    ensures Moved(specifiers, Part(block, rest - {a})) == Moved(specifiers, Part(block, rest))[a := block[a].specifier]
  {
  }

  ghost predicate ImporterConflict(p: FileImporter) {
    var s1 := Moved(map[], OrElse(p.dependencies));
    var s2 := Moved(s1, OrElse(p.devDependencies));
    MoveConflict(s1, OrElse(p.devDependencies)) || MoveConflict(s2, OrElse(p.optionalDependencies))
  }

  function MapVersions(block: Option<Block>): Option<ResolvedDependencies> {
    if block.None? then None else Some(VersionsOf(block.value))
  }

  function Reverted(p: FileImporter): Importer {
    Importer(
      Moved(Moved(Moved(map[], OrElse(p.dependencies)), OrElse(p.devDependencies)), OrElse(p.optionalDependencies)),
      MapVersions(p.dependencies), MapVersions(p.devDependencies), MapVersions(p.optionalDependencies),
      p.dependenciesMeta, p.publishDirectory)
  }

  method RevertProjectSnapshot(from: FileImporter) returns (r: Converted<Importer>)
    ensures r.ConflictingSpecifiers? <==> ImporterConflict(from)
    ensures r.Converted? ==> r.value == Reverted(from)
  {
    hide Moved, VersionsOf, MoveConflict;
    NothingMoved(map[]);
    NoConflictAtFirst(OrElse(from.dependencies));
    var conflict, specifiers, dependencies := MoveSpecifiers(map[], OrElse(from.dependencies));
    var devDependencies, optionalDependencies;
    conflict, specifiers, devDependencies := MoveSpecifiers(specifiers, OrElse(from.devDependencies));
    if conflict {
      return ConflictingSpecifiers;
    }
    conflict, specifiers, optionalDependencies := MoveSpecifiers(specifiers, OrElse(from.optionalDependencies));
    if conflict {
      return ConflictingSpecifiers;
    }
    r := Converted(Importer(
      specifiers,
      if from.dependencies.None? then None else Some(dependencies),
      if from.devDependencies.None? then None else Some(devDependencies),
      if from.optionalDependencies.None? then None else Some(optionalDependencies),
      from.dependenciesMeta, from.publishDirectory));
  }

  lemma NothingMoved(specifiers: Specifiers)
    ensures Moved(specifiers, map[]) == specifiers
  {
  }

  lemma NoConflictAtFirst(block: Block)
    ensures !MoveConflict(map[], block)
  {
  }

  /** A package entry put together again; a missing info entry contributes nothing. */
  function Rejoined(removeSuffix: DepPath -> PkgId, f: LockfileFile, d: DepPath): Package
    requires d in OrElse(f.snapshots)
  {
    var id := removeSuffix(d);
    Package(OrElse(f.snapshots)[d], if id in OrElse(f.packages) then OrElse(f.packages)[id] else map[], false)
  }

  ghost predicate FileConflict(f: LockfileFile) {
    exists id :: id in OrElse(f.importers) && ImporterConflict(OrElse(f.importers)[id])
  }

  function ToObject(removeSuffix: DepPath -> PkgId, f: LockfileFile): LockfileObject {
    LockfileObject(
      f.base,
      map id | id in OrElse(f.importers) :: Reverted(OrElse(f.importers)[id]),
      Some(map d | d in OrElse(f.snapshots) :: Rejoined(removeSuffix, f, d)))
  }

  /** What is read: a package per snapshot, with the info that its id has in the file, if any. */
  lemma ReadPackages(removeSuffix: DepPath -> PkgId, f: LockfileFile, d: DepPath)
    ensures var o := ToObject(removeSuffix, f);
            && o.base == f.base && o.packages.Some?
            && (d in o.packages.value <==> f.snapshots.Some? && d in f.snapshots.value)
            && (d in o.packages.value ==>
                 var p := o.packages.value[d];
                 && p.snapshot == f.snapshots.value[d] && !p.patched
                 && (f.packages.Some? && removeSuffix(d) in f.packages.value ==>
                      p.info == f.packages.value[removeSuffix(d)])
                 && (f.packages.None? || removeSuffix(d) !in f.packages.value ==> p.info == map[]))
  {
    hide Reverted;
  }

  /** A read importer has the versions of each block under its field, and the specifier of every listed alias. */
  lemma ReadImporter(p: FileImporter, alias: Alias)
    ensures var q := Reverted(p);
            && ReadDeps(p.dependencies, q.dependencies, alias)
            && ReadDeps(p.devDependencies, q.devDependencies, alias)
            && ReadDeps(p.optionalDependencies, q.optionalDependencies, alias)
            && q.dependenciesMeta == p.dependenciesMeta && q.publishDirectory == p.publishDirectory
            && (alias in q.specifiers <==>
                 || (p.dependencies.Some? && alias in p.dependencies.value)
                 || (p.devDependencies.Some? && alias in p.devDependencies.value)
                 || (p.optionalDependencies.Some? && alias in p.optionalDependencies.value))
    ensures !ImporterConflict(p) ==>
      && SpecifierRead(p.dependencies, Reverted(p).specifiers, alias)
      && SpecifierRead(p.devDependencies, Reverted(p).specifiers, alias)
      && SpecifierRead(p.optionalDependencies, Reverted(p).specifiers, alias)
  {
  }

  ghost predicate SpecifierRead(block: Option<Block>, specifiers: Specifiers, alias: Alias) {
    block.Some? && alias in block.value && block.value[alias].specifier.Some? ==>
      alias in specifiers && specifiers[alias] == block.value[alias].specifier
  }

  ghost predicate ReadDeps(block: Option<Block>, deps: Option<ResolvedDependencies>, alias: Alias) {
    && (block.Some? <==> deps.Some?)
    && (block.Some? ==>
         && (alias in deps.value <==> alias in block.value)
         && (alias in deps.value ==> deps.value[alias] == block.value[alias].version))
  }

  method ConvertToLockfileObject(removeSuffix: DepPath -> PkgId, f: LockfileFile) returns (r: Converted<LockfileObject>)
    ensures r.ConflictingSpecifiers? <==> FileConflict(f)
    ensures r.Converted? ==> r.value == ToObject(removeSuffix, f)
  {
    hide ImporterConflict, Reverted;
    var packages := map d | d in OrElse(f.snapshots) :: Rejoined(removeSuffix, f, d);
    var all := OrElse(f.importers);
    var importers: map<ProjectId, Importer> := map[];
    var rest := all.Keys;
    while rest != {}
      invariant rest <= all.Keys && importers.Keys == all.Keys - rest
      invariant forall id :: id in importers ==> !ImporterConflict(all[id]) && importers[id] == Reverted(all[id])
      decreases rest
    {
      var id :| id in rest;
      var reverted := RevertProjectSnapshot(all[id]);
      if reverted.ConflictingSpecifiers? {
        return ConflictingSpecifiers;
      }
      importers, rest := importers[id := reverted.value], rest - {id};
    }
    r := Converted(LockfileObject(f.base, importers, Some(packages)));
  }

  // ----- Object to file to object -----

  function PresentDeps(deps: Option<ResolvedDependencies>): Option<ResolvedDependencies> {
    if OrElse(deps) == map[] then None else deps
  }

  function NormalImporter(p: Importer): Importer {
    Importer(
      p.specifiers, PresentDeps(p.dependencies), PresentDeps(p.devDependencies), PresentDeps(p.optionalDependencies),
      NonEmpty(p.dependenciesMeta), NonBlank(p.publishDirectory))
  }

  /** An object with the empty fields left out and the settings that have their default value dropped. */
  function Normal(o: LockfileObject): LockfileObject {
    LockfileObject(
      NormalBase(o.base),
      map id | id in o.importers :: NormalImporter(o.importers[id]),
      Some(OrElse(o.packages)))
  }

  function Aliases(p: Importer): set<Alias> {
    OrElse(p.dependencies).Keys + OrElse(p.devDependencies).Keys + OrElse(p.optionalDependencies).Keys
  }

  /** Dep paths with one suffix-free id say the same about the package. */
  ghost predicate InfoCoherent(removeSuffix: DepPath -> PkgId, packages: map<DepPath, Package>) {
    forall d, e :: d in packages && e in packages && removeSuffix(d) == removeSuffix(e) ==>
      packages[d].info == packages[e].info
  }

  /** When an object survives the round trip: the current version, coherent package info, no `patched` mark, and
    * specifiers for exactly the direct dependencies.
    */
  ghost predicate Representable(removeSuffix: DepPath -> PkgId, o: LockfileObject) {
    && o.base.lockfileVersion == LOCKFILE_VERSION
    && InfoCoherent(removeSuffix, OrElse(o.packages))
    && (forall d :: d in OrElse(o.packages) ==> !OrElse(o.packages)[d].patched)
    && (forall id :: id in o.importers ==> o.importers[id].specifiers.Keys == Aliases(o.importers[id]))
  }

  lemma NonEmptyOrElse<K, V>(m: map<K, V>)
    ensures OrElse(NonEmpty(Some(m))) == m
  {
  }

  /** The specifiers of these aliases, as they are looked up. */
  function LookedUp(aliases: set<Alias>, specifiers: Specifiers): Specifiers {
    map a | a in aliases :: Lookup(specifiers, a)
  }

  /** A written block adds its own specifiers to those looked up before, and conflicts with none of them. */
  lemma WrittenBlock(aliases: set<Alias>, deps: ResolvedDependencies, specifiers: Specifiers)
    ensures !MoveConflict(LookedUp(aliases, specifiers), ToBlock(deps, specifiers))
    ensures Moved(LookedUp(aliases, specifiers), ToBlock(deps, specifiers)) == LookedUp(aliases + deps.Keys, specifiers)
  {
  }

  /** The specifiers that come back are those of the direct dependencies, and none conflict. */
  lemma ImporterComesBack(p: Importer)
    ensures !ImporterConflict(ToFileImporter(p))
    ensures Reverted(ToFileImporter(p)) == NormalImporter(p).(specifiers := LookedUp(Aliases(p), p.specifiers))
  {
    hide Moved, MoveConflict, LookedUp, ToBlock, NonEmpty, OrElse, MapVersions, PresentDeps;
    var d1, d2, d3 := OrElse(p.dependencies), OrElse(p.devDependencies), OrElse(p.optionalDependencies);
    NonEmptyOrElse(ToBlock(d1, p.specifiers));
    NonEmptyOrElse(ToBlock(d2, p.specifiers));
    NonEmptyOrElse(ToBlock(d3, p.specifiers));
    NothingLookedUp(p.specifiers);
    WrittenBlock({}, d1, p.specifiers);
    WrittenBlock({} + d1.Keys, d2, p.specifiers);
    WrittenBlock({} + d1.Keys + d2.Keys, d3, p.specifiers);
    assert {} + d1.Keys + d2.Keys + d3.Keys == Aliases(p);
    BlockVersions(p.dependencies, p.specifiers);
    BlockVersions(p.devDependencies, p.specifiers);
    BlockVersions(p.optionalDependencies, p.specifiers);
  }

  lemma NothingLookedUp(specifiers: Specifiers)
    ensures LookedUp({}, specifiers) == map[]
  {
  }

  lemma BlockVersions(deps: Option<ResolvedDependencies>, specifiers: Specifiers)
    ensures MapVersions(NonEmpty(Some(ToBlock(OrElse(deps), specifiers)))) == PresentDeps(deps)
  {
    assert VersionsOf(ToBlock(OrElse(deps), specifiers)) == OrElse(deps);
    if OrElse(deps) != map[] {
      var a :| a in OrElse(deps);
      assert a in ToBlock(OrElse(deps), specifiers);
    }
  }

  /** The converter never writes a file that the reader rejects. */
  lemma WrittenFilesHaveNoConflict(removeSuffix: DepPath -> PkgId, o: LockfileObject, f: LockfileFile)
    requires FileOf(removeSuffix, o, f)
    ensures !FileConflict(f)
  {
    hide InfosOf, ToFileBase;
    forall id | id in o.importers ensures !ImporterConflict(OrElse(f.importers)[id]) {
      ImporterComesBack(o.importers[id]);
    }
  }

  /** Writing and reading back gives the same object, up to empty fields and default settings, exactly when
    * the object is representable; and so for every order in which the packages are visited.
    */
  lemma RoundTrip(removeSuffix: DepPath -> PkgId, o: LockfileObject, f: LockfileFile)
    requires FileOf(removeSuffix, o, f)
    ensures ToObject(removeSuffix, f) == Normal(o) <==> Representable(removeSuffix, o)
  {
    PackagesComeBack(removeSuffix, o, f);
    ImportersComeBack(removeSuffix, o, f);
  }

  lemma ImportersComeBack(removeSuffix: DepPath -> PkgId, o: LockfileObject, f: LockfileFile)
    requires FileOf(removeSuffix, o, f)
    ensures ToObject(removeSuffix, f).importers == Normal(o).importers <==>
      forall id :: id in o.importers ==> o.importers[id].specifiers.Keys == Aliases(o.importers[id])
  {
    hide InfosOf, ToFileBase, Reverted, ToFileImporter, LookedUp, Aliases, PresentDeps, NonEmpty, NonBlank;
    var back, normal := ToObject(removeSuffix, f).importers, Normal(o).importers;
    assert back.Keys == o.importers.Keys == normal.Keys;
    forall id | id in o.importers
      ensures back[id] == normal[id] <==> o.importers[id].specifiers.Keys == Aliases(o.importers[id])
    {
      var p := o.importers[id];
      ImporterComesBack(p);
      SpecifiersKept(Aliases(p), p.specifiers);
    }
  }

  lemma SpecifiersKept(aliases: set<Alias>, specifiers: Specifiers)
    ensures LookedUp(aliases, specifiers) == specifiers <==> specifiers.Keys == aliases
  {
    assert LookedUp(aliases, specifiers).Keys == aliases;
  }

  lemma PackagesComeBack(removeSuffix: DepPath -> PkgId, o: LockfileObject, f: LockfileFile)
    requires FileOf(removeSuffix, o, f)
    ensures ToObject(removeSuffix, f).packages == Normal(o).packages <==>
      && InfoCoherent(removeSuffix, OrElse(o.packages))
      && forall d :: d in OrElse(o.packages) ==> !OrElse(o.packages)[d].patched
  {
    hide ToFileBase, ToFileImporter, Reverted;
    var all, infos := OrElse(o.packages), OrElse(f.packages);
    NonEmptyOrElse(SnapshotsOf(all));
    var back := ToObject(removeSuffix, f).packages.value;
    assert back.Keys == all.Keys;
    forall d | d in all ensures back[d] == Package(all[d].snapshot, infos[removeSuffix(d)], false) {
    }
    if InfoCoherent(removeSuffix, all) && forall d :: d in all ==> !all[d].patched {
      forall d | d in all ensures back[d] == all[d] {
        var e :| e in all && removeSuffix(e) == removeSuffix(d) && all[e].info == infos[removeSuffix(d)];
      }
    }
    if back == all {
      forall d | d in all ensures all[d] == Package(all[d].snapshot, infos[removeSuffix(d)], false) {
        assert back[d] == all[d];
      }
    }
  }

  // ----- Objects with nothing to normalise -----

  ghost predicate TidyBase(b: Base) {
    && (b.settings.Some? ==>
         b.settings.value.peersSuffixMaxLength != Some(1000) && b.settings.value.injectWorkspacePackages != Some(false))
    && b.catalogs != Some(map[]) && b.overrides != Some(map[]) && b.patchedDependencies != Some(map[])
    && b.packageExtensionsChecksum != Some("") && b.pnpmfileChecksum != Some("")
    && b.ignoredOptionalDependencies != Some([])
  }

  ghost predicate TidyImporter(p: Importer) {
    && p.dependencies != Some(map[]) && p.devDependencies != Some(map[]) && p.optionalDependencies != Some(map[])
    && p.dependenciesMeta != Some(map[]) && p.publishDirectory != Some("")
  }

  /** No field is present but empty, and no setting is present with its default value. */
  ghost predicate Tidy(o: LockfileObject) {
    && TidyBase(o.base)
    && o.packages.Some?
    && forall id :: id in o.importers ==> TidyImporter(o.importers[id])
  }

  /** The normal form drops empty fields and defaults and nothing else. */
  lemma TidyIsNormal(o: LockfileObject)
    ensures Normal(o) == o <==> Tidy(o)
  {
    hide NormalImporter, TidyImporter, NormalBase, TidyBase;
    TidyBaseIsNormal(o.base);
    forall id | id in o.importers
      ensures NormalImporter(o.importers[id]) == o.importers[id] <==> TidyImporter(o.importers[id])
    {
      TidyImporterIsNormal(o.importers[id]);
    }
    var normal := Normal(o).importers;
    assert normal == o.importers <==> forall id :: id in o.importers ==> normal[id] == o.importers[id];
  }

  lemma TidyBaseIsNormal(b: Base)
    ensures NormalBase(b) == b <==> TidyBase(b)
  {
  }

  lemma TidyImporterIsNormal(p: Importer)
    ensures NormalImporter(p) == p <==> TidyImporter(p)
  {
  }

  /** A tidy object comes back unchanged, field by field, exactly when it is representable. */
  lemma ExactRoundTrip(removeSuffix: DepPath -> PkgId, o: LockfileObject, f: LockfileFile)
    requires FileOf(removeSuffix, o, f) && Tidy(o)
    ensures ToObject(removeSuffix, f) == o <==> Representable(removeSuffix, o)
  {
    hide FileOf, ToObject, Representable, Normal, Tidy;
    RoundTrip(removeSuffix, o, f);
    TidyIsNormal(o);
  }

  // ----- File to object to file -----

  /** Reading a written file and writing it again gives the same file, for every object it was written from
    * and every order of visiting packages.
    */
  lemma WrittenFilesAreStable(removeSuffix: DepPath -> PkgId, o: LockfileObject, f: LockfileFile, g: LockfileFile)
    requires FileOf(removeSuffix, o, f) && FileOf(removeSuffix, ToObject(removeSuffix, f), g)
    ensures g == f
  {
    hide InfosOf, Reverted, ToFileImporter, ToFileSettings, NonEmpty;
    SnapshotsStable(removeSuffix, o, f);
    InfosStable(removeSuffix, o, f, g);
    ImportersStable(removeSuffix, o, f);
    BaseStable(o.base);
  }

  lemma BaseStable(b: Base)
    ensures ToFileBase(ToFileBase(b)) == ToFileBase(b)
  {
  }

  lemma ImportersStable(removeSuffix: DepPath -> PkgId, o: LockfileObject, f: LockfileFile)
    requires FileOf(removeSuffix, o, f)
    ensures FileImporters(ToObject(removeSuffix, f).importers) == FileImporters(o.importers)
  {
    hide InfosOf, Reverted, ToFileImporter, ToFileBase, NonEmpty;
    forall id | id in o.importers
      ensures ToFileImporter(Reverted(ToFileImporter(o.importers[id]))) == ToFileImporter(o.importers[id])
    {
      ImporterStable(o.importers[id]);
    }
  }

  lemma ImporterStable(p: Importer)
    ensures ToFileImporter(Reverted(ToFileImporter(p))) == ToFileImporter(p)
  {
    hide Reverted, ToBlock, LookedUp, OrElse, Aliases;
    ImporterComesBack(p);
    SameBlock(p, p.dependencies);
    SameBlock(p, p.devDependencies);
    SameBlock(p, p.optionalDependencies);
    DepsInAliases(p);
  }

  lemma DepsInAliases(p: Importer)
    ensures OrElse(p.dependencies).Keys <= Aliases(p)
    ensures OrElse(p.devDependencies).Keys <= Aliases(p)
    ensures OrElse(p.optionalDependencies).Keys <= Aliases(p)
  {
  }

  lemma SameBlock(p: Importer, deps: Option<ResolvedDependencies>)
    ensures OrElse(PresentDeps(deps)) == OrElse(deps)
    ensures OrElse(deps).Keys <= Aliases(p) ==>
      ToBlock(OrElse(deps), LookedUp(Aliases(p), p.specifiers)) == ToBlock(OrElse(deps), p.specifiers)
  {
    hide Aliases;
  }

  lemma SnapshotsStable(removeSuffix: DepPath -> PkgId, o: LockfileObject, f: LockfileFile)
    requires FileOf(removeSuffix, o, f)
    ensures SnapshotsOf(OrElse(ToObject(removeSuffix, f).packages)) == SnapshotsOf(OrElse(o.packages))
  {
    hide InfosOf, ToFileBase, ToFileImporter, Reverted;
    NonEmptyOrElse(SnapshotsOf(OrElse(o.packages)));
  }

  lemma InfosStable(removeSuffix: DepPath -> PkgId, o: LockfileObject, f: LockfileFile, g: LockfileFile)
    requires FileOf(removeSuffix, o, f) && FileOf(removeSuffix, ToObject(removeSuffix, f), g)
    ensures g.packages == f.packages
  {
    hide ToFileBase, ToFileImporter, Reverted;
    var all := OrElse(o.packages);
    NonEmptyOrElse(SnapshotsOf(all));
    var back := OrElse(ToObject(removeSuffix, f).packages);
    var fi, gi := OrElse(f.packages), OrElse(g.packages);
    assert back.Keys == all.Keys;
    forall d | d in all ensures back[d].info == fi[removeSuffix(d)] {
    }
    forall id | id in fi ensures id in gi {
      var d :| d in all && removeSuffix(d) == id && all[d].info == fi[id];
      assert d in back;
    }
    forall id | id in gi ensures id in fi && gi[id] == fi[id] {
      var d :| d in back && removeSuffix(d) == id && back[d].info == gi[id];
    }
    assert gi == fi;
  }
}
