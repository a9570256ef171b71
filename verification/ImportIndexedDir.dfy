/** The directory import of fs/indexed-pkg-importer that retries itself with fewer or cleaner file names. The
  * file system decides freely how each attempt ends.
  */
module ImportIndexedDir {
  import opened Digraph
  import opened Records
  import opened StringOrder
  import opened DependencyPath

  /** File name to source path. */
  type FileMap = map<string, string>

  /** How an attempt to write the files ends. */
  datatype Attempt = Done | EEXIST | ENOENT | OtherError

  /** The sanitizer of one path segment and the case folding of the host language. */
  datatype Names = Names(sanitize: string -> string, lower: string -> string)

  /** What the sanitizer is trusted for: it is idempotent and emits no slash. */
  ghost predicate Trusted(c: Names) {
    forall s {:trigger c.sanitize(s)} :: c.sanitize(c.sanitize(s)) == c.sanitize(s) && '/' !in c.sanitize(s)
  }

  // ----- Names -----

  function SplitSlash(s: string): (r: seq<string>)
    ensures r != []
    decreases |s|
  {
    var i := IndexOf(s, '/', 0);
    if i == -1 then [s] else [s[..i]] + SplitSlash(s[i + 1..])
  }

  function SanitizeAll(c: Names, segments: seq<string>): (r: seq<string>)
    ensures |r| == |segments| && forall i :: 0 <= i < |r| ==> r[i] == c.sanitize(segments[i])
  {
    if segments == [] then [] else [c.sanitize(segments[0])] + SanitizeAll(c, segments[1..])
  }

  function SanitizeName(c: Names, name: string): string {
    Join(SanitizeAll(c, SplitSlash(name)), "/")
  }

  lemma {:induction false} SplitJoined(segments: seq<string>)
    requires segments != [] && forall i :: 0 <= i < |segments| ==> '/' !in segments[i]
    ensures SplitSlash(Join(segments, "/")) == segments
  {
    var first := segments[0];
    if |segments| == 1 {
      assert IndexOf(first, '/', 0) == -1;
    } else {
      var rest := Join(segments[1..], "/");
      var s := first + "/" + rest;
      SplitJoined(segments[1..]);
      assert s[|first|] == '/';
      assert forall i :: 0 <= i < |first| ==> s[i] == first[i];
      assert IndexOf(s, '/', 0) == |first|;
      assert s[..|first|] == first && s[|first| + 1..] == rest;
    }
  }

  /** The segments of a name are what its slashes separate. */
  lemma {:induction false} SegmentsJoin(s: string)
    ensures Join(SplitSlash(s), "/") == s
    ensures forall i :: 0 <= i < |SplitSlash(s)| ==> '/' !in SplitSlash(s)[i]
    decreases |s|
  {
    var i := IndexOf(s, '/', 0);
    if i == -1 {
      assert '/' !in s;
    } else {
      SegmentsJoin(s[i + 1..]);
      assert s == s[..i] + "/" + s[i + 1..];
      assert '/' !in s[..i];
    }
  }

  /** Sanitizing keeps the directories: segment by segment, the name is that of the sanitized segments. */
  lemma SanitizedSegments(c: Names, name: string)
    requires Trusted(c)
    ensures var parts, clean := SplitSlash(name), SplitSlash(SanitizeName(c, name));
            |clean| == |parts| && forall i :: 0 <= i < |parts| ==> clean[i] == c.sanitize(parts[i])
  {
    hide SplitSlash, Join;
    SplitJoined(SanitizeAll(c, SplitSlash(name)));
  }

  /** A sanitized name is left alone. */
  lemma SanitizeIdempotent(c: Names, name: string)
    requires Trusted(c)
    ensures SanitizeName(c, SanitizeName(c, name)) == SanitizeName(c, name)
  {
    hide SplitSlash, Join;
    var segments := SanitizeAll(c, SplitSlash(name));
    SplitJoined(segments);
    assert SanitizeAll(c, segments) == segments;
  }

  // ----- What makes a retry worthwhile -----

  ghost predicate HasConflicts(c: Names, files: FileMap) {
    exists m, n :: m in files && n in files && m != n && c.lower(m) == c.lower(n)
  }

  ghost predicate HasInvalid(c: Names, files: FileMap) {
    exists n :: n in files && SanitizeName(c, n) != n
  }

  /** How often the import can still start over. */
  ghost function Retries(c: Names, files: FileMap): nat {
    (if HasInvalid(c, files) then 2 else 0) + (if HasConflicts(c, files) then 1 else 0)
  }

  /** `n` is the first name of its case-folded class. */
  ghost predicate IsFirst(c: Names, names: set<string>, n: string) {
    n in names && forall m :: m in names && c.lower(m) == c.lower(n) ==> Leq(n, m)
  }

  // ----- The two repairs -----

  /** The first name of every case-folded class, with its source. */
  ghost function UniqueFiles(c: Names, files: FileMap): FileMap {
    map n | n in files && IsFirst(c, files.Keys, n) :: files[n]
  }

  /** Every name sanitized; of names that fall together one source stays. */
  ghost predicate SanitizedTo(c: Names, files: FileMap, sanitized: FileMap) {
    && (forall n :: n in files ==> SanitizeName(c, n) in sanitized)
    && (forall s :: s in sanitized ==> exists n :: n in files && SanitizeName(c, n) == s && files[n] == sanitized[s])
  }

  /** After the names `seen`, `first` holds the least name of every case-folded class met. */
  ghost predicate FirstsOf(c: Names, seen: seq<string>, first: map<string, string>) {
    && (forall k :: 0 <= k < |seen| ==> c.lower(seen[k]) in first && Leq(first[c.lower(seen[k])], seen[k]))
    && (forall l :: l in first ==> first[l] in seen && c.lower(first[l]) == l)
  }

  function KeptIn(c: Names, fileMap: FileMap, seen: set<string>, first: map<string, string>): FileMap {
    map n | n in seen && n in fileMap && c.lower(n) in first && first[c.lower(n)] == n :: fileMap[n]
  }

  function DroppedIn(c: Names, seen: set<string>, first: map<string, string>): map<string, string> {
    map n | n in seen && c.lower(n) in first && first[c.lower(n)] != n :: first[c.lower(n)]
  }

  method GetUniqueFileMap(c: Names, fileMap: FileMap) returns (conflicting: map<string, string>, unique: FileMap)
    ensures unique == UniqueFiles(c, fileMap)
    ensures conflicting.Keys == fileMap.Keys - unique.Keys
    ensures forall n :: n in conflicting ==> conflicting[n] in unique && c.lower(conflicting[n]) == c.lower(n)
  {
    hide Leq, Sort, FirstsOf, KeptIn, DroppedIn, IsFirst;
    var names := Keys(fileMap);
    var sorted := Sort(names);
    SortedNames(names, sorted);
    var lowercaseFiles: map<string, string> := map[];
    conflicting, unique := map[], map[];
    NothingSeen(c, fileMap);
    ghost var seen := {};
    var i := 0;
    while i < |sorted|
      invariant 0 <= i <= |sorted| && seen == Elems(sorted[..i])
      invariant FirstsOf(c, sorted[..i], lowercaseFiles)
      invariant unique == KeptIn(c, fileMap, seen, lowercaseFiles)
      invariant conflicting == DroppedIn(c, seen, lowercaseFiles)
    {
      var filename := sorted[i];
      assert filename in fileMap by {
        assert filename in Elems(sorted);
      }
      assert Elems(sorted[..i + 1]) == seen + {filename} && filename !in seen by {
        assert sorted[..i + 1] == sorted[..i] + [filename];
        ElemsAppend(sorted[..i], [filename]);
      }
      var lowercaseFilename := c.lower(filename);
      OneMoreName(c, sorted, i, lowercaseFiles);
      if lowercaseFilename in lowercaseFiles {
        OldClass(c, fileMap, sorted[..i], lowercaseFiles, filename);
      } else {
        NewClass(c, fileMap, sorted[..i], lowercaseFiles, filename);
      }
      seen := seen + {filename};
      i := i + 1;
      if lowercaseFilename in lowercaseFiles {
        conflicting := conflicting[filename := lowercaseFiles[lowercaseFilename]];
        continue;
      }
      lowercaseFiles := lowercaseFiles[lowercaseFilename := filename];
      unique := unique[filename := fileMap[filename]];
    }
    assert sorted[..i] == sorted;
    AllSeen(c, fileMap, sorted, lowercaseFiles);
  }

  /** What one more name does to the dictionaries when its class has been met before. */
  lemma OldClass(c: Names, fileMap: FileMap, seen: seq<string>, first: map<string, string>, n: string)
    requires FirstsOf(c, seen, first) && n !in Elems(seen) && n in fileMap && c.lower(n) in first
    ensures KeptIn(c, fileMap, Elems(seen) + {n}, first) == KeptIn(c, fileMap, Elems(seen), first)
    ensures DroppedIn(c, Elems(seen) + {n}, first) == DroppedIn(c, Elems(seen), first)[n := first[c.lower(n)]]
  {
    hide Leq;
    assert first[c.lower(n)] in Elems(seen);
  }

  /** And when it opens a class. */
  lemma NewClass(c: Names, fileMap: FileMap, seen: seq<string>, first: map<string, string>, n: string)
    requires FirstsOf(c, seen, first) && n !in Elems(seen) && n in fileMap && c.lower(n) !in first
    ensures KeptIn(c, fileMap, Elems(seen) + {n}, first[c.lower(n) := n]) ==
            KeptIn(c, fileMap, Elems(seen), first)[n := fileMap[n]]
    ensures DroppedIn(c, Elems(seen) + {n}, first[c.lower(n) := n]) == DroppedIn(c, Elems(seen), first)
  {
    hide Leq, FirstsOf, Elems;
    SameFirsts(c, seen, first, n);
    KeptGrows(c, fileMap, Elems(seen), first, first[c.lower(n) := n], n);
    DroppedStays(c, Elems(seen), first, first[c.lower(n) := n], n);
  }

  lemma KeptGrows(
    c: Names, fileMap: FileMap, seen: set<string>, first: map<string, string>, next: map<string, string>, n: string)
    requires n !in seen && n in fileMap && c.lower(n) in next && next[c.lower(n)] == n
    requires forall m :: m in seen ==>
      c.lower(m) in first && c.lower(m) in next && next[c.lower(m)] == first[c.lower(m)]
    ensures KeptIn(c, fileMap, seen + {n}, next) == KeptIn(c, fileMap, seen, first)[n := fileMap[n]]
  {
  }

  lemma DroppedStays(c: Names, seen: set<string>, first: map<string, string>, next: map<string, string>, n: string)
    requires n !in seen && c.lower(n) in next && next[c.lower(n)] == n
    requires forall m :: m in seen ==>
      c.lower(m) in first && c.lower(m) in next && next[c.lower(m)] == first[c.lower(m)]
    ensures DroppedIn(c, seen + {n}, next) == DroppedIn(c, seen, first)
  {
  }

  lemma SameFirsts(c: Names, seen: seq<string>, first: map<string, string>, n: string)
    requires FirstsOf(c, seen, first) && c.lower(n) !in first
    ensures forall m :: m in Elems(seen) ==>
      c.lower(m) in first && first[c.lower(n) := n][c.lower(m)] == first[c.lower(m)]
  {
    hide Leq;
    forall m | m in Elems(seen) ensures c.lower(m) in first {
      var k :| 0 <= k < |seen| && seen[k] == m;
      assert c.lower(seen[k]) in first;
    }
  }

  lemma AllSeen(c: Names, fileMap: FileMap, sorted: seq<string>, first: map<string, string>)
    requires FirstsOf(c, sorted, first) && Elems(sorted) == fileMap.Keys
    ensures KeptIn(c, fileMap, fileMap.Keys, first) == UniqueFiles(c, fileMap)
    ensures var kept, dropped := KeptIn(c, fileMap, fileMap.Keys, first), DroppedIn(c, fileMap.Keys, first);
            && dropped.Keys == fileMap.Keys - kept.Keys
            && forall n :: n in dropped ==> dropped[n] in kept && c.lower(dropped[n]) == c.lower(n)
  {
    hide Leq, IsFirst;
    forall n | n in fileMap ensures c.lower(n) in first && (first[c.lower(n)] == n <==> IsFirst(c, fileMap.Keys, n)) {
      FirstIsLeast(c, sorted, fileMap.Keys, first, n);
    }
    assert forall l :: l in first ==> first[l] in Elems(sorted) && c.lower(first[l]) == l;
  }

  lemma SortedNames(names: seq<string>, sorted: seq<string>)
    requires NoDup(names) && sorted == Sort(names)
    ensures Sorted(sorted) && NoDup(sorted) && Elems(sorted) == Elems(names)
  {
    hide Sort, Leq;
    SortSorts(names);
    assert multiset(sorted) == multiset(names);
    forall x: string ensures x in sorted <==> x in names {
      assert x in multiset(sorted) <==> x in multiset(names);
    }
    NoDupOnce(names);
    OnceNoDup(sorted);
  }

  lemma {:induction false} NoDupOnce(s: seq<string>)
    requires NoDup(s)
    ensures forall x :: multiset(s)[x] <= 1
  {
    if s != [] {
      var init, last := s[..|s| - 1], s[|s| - 1];
      NoDupOnce(init);
      assert s == init + [last] && last !in init;
      assert multiset(s) == multiset(init) + multiset{last};
      assert last !in multiset(init);
    }
  }

  lemma OnceNoDup(s: seq<string>)
    requires forall x :: multiset(s)[x] <= 1
    ensures NoDup(s)
  {
    forall i, j | 0 <= i < j < |s| ensures s[i] != s[j] {
      if s[i] == s[j] {
        Twice(s, i, j);
      }
    }
  }

  lemma Twice(s: seq<string>, i: nat, j: nat)
    requires i < j < |s| && s[i] == s[j]
    ensures multiset(s)[s[i]] >= 2
  {
    assert s == s[..i] + [s[i]] + s[i + 1..j] + [s[j]] + s[j + 1..];
    assert multiset(s) ==
      multiset(s[..i]) + multiset{s[i]} + multiset(s[i + 1..j]) + multiset{s[j]} + multiset(s[j + 1..]);
  }

  lemma NothingSeen(c: Names, fileMap: FileMap)
    ensures FirstsOf(c, [], map[]) && KeptIn(c, fileMap, {}, map[]) == map[] && DroppedIn(c, {}, map[]) == map[]
  {
  }

  lemma OneMoreName(c: Names, sorted: seq<string>, i: nat, first: map<string, string>)
    requires Sorted(sorted) && i < |sorted| && FirstsOf(c, sorted[..i], first)
    ensures var l := c.lower(sorted[i]);
            FirstsOf(c, sorted[..i + 1], if l in first then first else first[l := sorted[i]])
  {
    hide Leq;
    LeqTotal(sorted[i], sorted[i]);
    assert sorted[..i + 1] == sorted[..i] + [sorted[i]];
  }

  lemma FirstIsLeast(c: Names, sorted: seq<string>, names: set<string>, first: map<string, string>, n: string)
    requires FirstsOf(c, sorted, first) && Elems(sorted) == names && n in names
    ensures c.lower(n) in first && (first[c.lower(n)] == n <==> IsFirst(c, names, n))
  {
    hide Leq;
    var k :| 0 <= k < |sorted| && sorted[k] == n;
    var m := first[c.lower(n)];
    assert m in Elems(sorted);
    LeqTotal(n, m);
    forall x | x in names && c.lower(x) == c.lower(n) ensures Leq(m, x) {
      var j :| 0 <= j < |sorted| && sorted[j] == x;
    }
  }

  method SanitizeFilenames(c: Names, filenames: FileMap) returns (sanitized: FileMap, invalid: seq<string>)
    ensures forall n :: n in invalid <==> n in filenames && SanitizeName(c, n) != n
    ensures SanitizedTo(c, filenames, sanitized)
  {
    hide SanitizeName;
    sanitized, invalid := map[], [];
    var rest := filenames.Keys;
    while rest != {}
      invariant rest <= filenames.Keys
      invariant forall n :: n in invalid <==> n in filenames && n !in rest && SanitizeName(c, n) != n
      invariant forall n :: n in filenames && n !in rest ==> SanitizeName(c, n) in sanitized
      invariant forall s :: s in sanitized ==> exists n ::
        n in filenames && SanitizeName(c, n) == s && filenames[n] == sanitized[s]
      decreases rest
    {
      var filename :| filename in rest;
      rest := rest - {filename};
      var sanitizedFilename := SanitizeName(c, filename);
      if sanitizedFilename != filename {
        invalid := invalid + [filename];
      }
      sanitized := sanitized[sanitizedFilename := filenames[filename]];
    }
  }

  // ----- What the repairs repair -----

  /** Keeping the first name of each class leaves no conflict and makes no name invalid. */
  lemma UniqueHasNoConflict(c: Names, files: FileMap)
    ensures !HasConflicts(c, UniqueFiles(c, files))
    ensures HasInvalid(c, UniqueFiles(c, files)) ==> HasInvalid(c, files)
    ensures !HasConflicts(c, files) <==> UniqueFiles(c, files) == files
  {
    hide Leq, SanitizeName;
    var unique := UniqueFiles(c, files);
    forall m, n | m in unique && n in unique && c.lower(m) == c.lower(n) ensures m == n {
      LeqTotal(m, n);
    }
    if !HasConflicts(c, files) {
      forall n | n in files ensures IsFirst(c, files.Keys, n) {
        LeqTotal(n, n);
      }
    }
  }

  lemma SanitizedHasNoInvalid(c: Names, files: FileMap, sanitized: FileMap)
    requires Trusted(c)
    requires SanitizedTo(c, files, sanitized)
    ensures !HasInvalid(c, sanitized)
  {
    hide SanitizeName, Trusted;
    forall s | s in sanitized ensures SanitizeName(c, s) == s {
      var n :| n in files && SanitizeName(c, n) == s && files[n] == sanitized[s];
      SanitizeIdempotent(c, n);
    }
  }

  /** Each class keeps exactly one name, its least. */
  lemma OneNamePerClass(c: Names, files: FileMap, n: string)
    requires n in files
    ensures exists m :: m in files && c.lower(m) == c.lower(n) && IsFirst(c, files.Keys, m)
    ensures forall m, k :: IsFirst(c, files.Keys, m) && IsFirst(c, files.Keys, k) && c.lower(m) == c.lower(k) ==> m == k
  {
    hide Leq;
    var folded := set m | m in files && c.lower(m) == c.lower(n);
    assert n in folded;
    var m := LeastName(folded);
    assert IsFirst(c, files.Keys, m);
    forall m, k | IsFirst(c, files.Keys, m) && IsFirst(c, files.Keys, k) && c.lower(m) == c.lower(k) ensures m == k {
      LeqTotal(m, k);
    }
  }

  lemma {:induction false} LeastName(names: set<string>) returns (m: string)
    requires names != {}
    ensures m in names && forall n :: n in names ==> Leq(m, n)
    decreases names
  {
    hide Leq;
    var x :| x in names;
    LeqTotal(x, x);
    if names == {x} {
      m := x;
    } else {
      var y := LeastName(names - {x});
      LeqTotal(x, y);
      m := if Leq(x, y) then x else y;
      forall n | n in names ensures Leq(m, n) {
        if n != x {
          LeqTrans(m, y, n);
        }
      }
    }
  }

  // ----- The import -----

  datatype Outcome = Imported(files: FileMap, attempts: nat) | Failed(error: Attempt, files: FileMap, attempts: nat)

  /** Every final name is an original name or its sanitized form, with the source of that original. */
  ghost predicate Derived(c: Names, original: FileMap, files: FileMap) {
    forall f :: f in files ==>
      exists n :: n in original && original[n] == files[f] && (f == n || f == SanitizeName(c, n))
  }

  lemma DerivedTrans(c: Names, original: FileMap, mid: FileMap, files: FileMap)
    requires Trusted(c) && Derived(c, original, mid) && Derived(c, mid, files)
    ensures Derived(c, original, files)
  {
    hide SanitizeName, Trusted;
    forall f | f in files
      ensures exists n :: n in original && original[n] == files[f] && (f == n || f == SanitizeName(c, n))
    {
      var g :| g in mid && mid[g] == files[f] && (f == g || f == SanitizeName(c, g));
      var n :| n in original && original[n] == mid[g] && (g == n || g == SanitizeName(c, n));
      SanitizeIdempotent(c, n);
    }
  }

  /** A run of the import from attempt `attempt` on, when `fs(k)` is how the file system ends attempt `k`. */
  ghost predicate Run(c: Names, fs: nat -> Attempt, files: FileMap, attempt: nat, r: Outcome)
    decreases r.attempts - attempt
  {
    attempt < r.attempts &&
    match fs(attempt)
    case Done => r == Imported(files, attempt + 1)
    case EEXIST =>
      if HasConflicts(c, files)
      then Run(c, fs, UniqueFiles(c, files), attempt + 1, r)
      else r == Failed(EEXIST, files, attempt + 1)
    case ENOENT =>
      if HasInvalid(c, files)
      then exists s :: SanitizedTo(c, files, s) && Run(c, fs, s, attempt + 1, r)
      else r == Failed(ENOENT, files, attempt + 1)
    case OtherError => r == Failed(OtherError, files, attempt + 1)
  }

  /** `fs(k)` is how the file system ends attempt `k`; this call makes attempt `attempt`. The recursion ends
    * whatever the file system does.
    */
  method ImportIndexedDir(c: Names, fs: nat -> Attempt, filenames: FileMap, attempt: nat) returns (r: Outcome)
    requires Trusted(c)
    ensures Run(c, fs, filenames, attempt, r)
    decreases Retries(c, filenames)
  {
    hide SanitizeName, IsFirst, Trusted, HasConflicts, HasInvalid, SanitizedTo;
    match fs(attempt)
    case Done =>
      r := Imported(filenames, attempt + 1);
    case EEXIST =>
      var conflicting, unique := GetUniqueFileMap(c, filenames);
      UniqueHasNoConflict(c, filenames);
      ConflictsAreDropped(filenames, unique, conflicting);
      if conflicting == map[] {
        return Failed(EEXIST, filenames, attempt + 1);
      }
      r := ImportIndexedDir(c, fs, unique, attempt + 1);
    case ENOENT =>
      var sanitized, invalid := SanitizeFilenames(c, filenames);
      InvalidListed(c, filenames, invalid);
      if invalid == [] {
        return Failed(ENOENT, filenames, attempt + 1);
      }
      SanitizedHasNoInvalid(c, filenames, sanitized);
      r := ImportIndexedDir(c, fs, sanitized, attempt + 1);
    case OtherError =>
      r := Failed(OtherError, filenames, attempt + 1);
  }

  /** The import starts over at most three times, only on EEXIST and ENOENT, and gives up on one of these only
    * when there is nothing left to repair for it.
    */
  lemma {:induction false} RunIsBounded(c: Names, fs: nat -> Attempt, files: FileMap, attempt: nat, r: Outcome)
    requires Trusted(c) && Run(c, fs, files, attempt, r)
    ensures r.attempts <= attempt + 1 + Retries(c, files)
    ensures fs(r.attempts - 1) == (if r.Imported? then Done else r.error)
    ensures forall k :: attempt <= k < r.attempts - 1 ==> fs(k) == EEXIST || fs(k) == ENOENT
    ensures r.Failed? ==> r.error != Done
    ensures r.Failed? && r.error == EEXIST ==> !HasConflicts(c, r.files)
    ensures r.Failed? && r.error == ENOENT ==> !HasInvalid(c, r.files)
    decreases r.attempts - attempt
  {
    hide UniqueFiles, SanitizeName, Trusted, HasConflicts, HasInvalid, SanitizedTo;
    if fs(attempt) == EEXIST && HasConflicts(c, files) {
      UniqueHasNoConflict(c, files);
      RunIsBounded(c, fs, UniqueFiles(c, files), attempt + 1, r);
    } else if fs(attempt) == ENOENT && HasInvalid(c, files) {
      var s :| SanitizedTo(c, files, s) && Run(c, fs, s, attempt + 1, r);
      SanitizedHasNoInvalid(c, files, s);
      RunIsBounded(c, fs, s, attempt + 1, r);
    }
  }

  /** The names in place at the end come with the sources they came with, under their own or their sanitized
    * spelling. Where no name needs a repair all stay, and where none needs cleaning at most the later members of
    * each class go.
    */
  lemma {:induction false} RunIsDerived(c: Names, fs: nat -> Attempt, files: FileMap, attempt: nat, r: Outcome)
    requires Trusted(c) && Run(c, fs, files, attempt, r)
    ensures Derived(c, files, r.files)
    ensures !HasInvalid(c, files) ==> r.files == files || r.files == UniqueFiles(c, files)
    ensures !HasInvalid(c, files) && !HasConflicts(c, files) ==> r.files == files
    decreases r.attempts - attempt
  {
    hide IsFirst, SanitizeName, Trusted, HasConflicts, HasInvalid, SanitizedTo, Derived;
    SameFiles(c, files);
    if fs(attempt) == EEXIST && HasConflicts(c, files) {
      var unique := UniqueFiles(c, files);
      UniqueHasNoConflict(c, files);
      SubsetDerived(c, files, unique);
      RunIsDerived(c, fs, unique, attempt + 1, r);
      DerivedTrans(c, files, unique, r.files);
    } else if fs(attempt) == ENOENT && HasInvalid(c, files) {
      var s :| SanitizedTo(c, files, s) && Run(c, fs, s, attempt + 1, r);
      SanitizedDerived(c, files, s);
      RunIsDerived(c, fs, s, attempt + 1, r);
      DerivedTrans(c, files, s, r.files);
    }
  }

  // ----- Which names survive -----

  /** The name is clean, first among the names of its case-folded class, also among the sanitized names, and no file
    * with another source is sanitized to it.
    */
  ghost predicate Safe(c: Names, files: FileMap, n: string)
    requires n in files
  {
    SanitizeName(c, n) == n && forall m {:trigger Spares(c, files, n, m)} :: m in files ==> Spares(c, files, n, m)
  }

  ghost predicate Spares(c: Names, files: FileMap, n: string, m: string)
    requires n in files && m in files
  {
    var t := SanitizeName(c, m);
    && (c.lower(m) == c.lower(n) ==> Leq(n, m))
    && (c.lower(t) == c.lower(n) ==> Leq(n, t))
    && (t == n ==> files[m] == files[n])
  }

  ghost predicate InPlace(files: FileMap, n: string, after: FileMap)
    requires n in files
  {
    n in after && after[n] == files[n]
  }

  /** Whatever the file system does, a successful import has `n` in place with the source it came with. */
  ghost predicate Survives(c: Names, files: FileMap, n: string)
    requires n in files
  {
    forall fs: nat -> Attempt, r: Outcome {:trigger Run(c, fs, files, 0, r)} ::
      Run(c, fs, files, 0, r) && r.Imported? ==> InPlace(files, n, r.files)
  }

  lemma SurvivesIffSafe(c: Names, files: FileMap, n: string)
    requires Trusted(c) && n in files
    ensures Survives(c, files, n) <==> Safe(c, files, n)
  {
    hide Run, Safe, InPlace, Trusted;
    if Safe(c, files, n) {
      forall fs: nat -> Attempt, r: Outcome | Run(c, fs, files, 0, r) ensures InPlace(files, n, r.files) {
        SafeIsKept(c, fs, files, 0, r, n);
      }
    } else {
      var fs, r := UnsafeIsLost(c, files, n);
    }
  }

  lemma {:induction false} SafeIsKept(c: Names, fs: nat -> Attempt, files: FileMap, attempt: nat, r: Outcome, n: string)
    requires Trusted(c) && Run(c, fs, files, attempt, r) && n in files && Safe(c, files, n)
    ensures InPlace(files, n, r.files)
    decreases r.attempts - attempt
  {
    hide UniqueFiles, SanitizeName, Trusted, HasConflicts, HasInvalid, SanitizedTo, Safe;
    if fs(attempt) == EEXIST && HasConflicts(c, files) {
      SafeInUnique(c, files, n);
      SafeIsKept(c, fs, UniqueFiles(c, files), attempt + 1, r, n);
    } else if fs(attempt) == ENOENT && HasInvalid(c, files) {
      var s :| SanitizedTo(c, files, s) && Run(c, fs, s, attempt + 1, r);
      SafeInSanitized(c, files, s, n);
      SafeIsKept(c, fs, s, attempt + 1, r, n);
    }
  }

  lemma SafeInUnique(c: Names, files: FileMap, n: string)
    requires n in files && Safe(c, files, n)
    ensures InPlace(files, n, UniqueFiles(c, files)) && Safe(c, UniqueFiles(c, files), n)
  {
    hide Leq, SanitizeName;
    assert forall m :: m in files ==> Spares(c, files, n, m);
    assert IsFirst(c, files.Keys, n);
    forall m | m in UniqueFiles(c, files) ensures Spares(c, UniqueFiles(c, files), n, m) {
      assert Spares(c, files, n, m);
    }
  }

  lemma SafeInSanitized(c: Names, files: FileMap, s: FileMap, n: string)
    requires Trusted(c) && n in files && Safe(c, files, n) && SanitizedTo(c, files, s)
    ensures InPlace(files, n, s) && Safe(c, s, n)
  {
    hide Leq, SanitizeName, Trusted;
    assert SanitizeName(c, n) in s;
    forall t | t in s ensures Spares(c, s, n, t) {
      var m :| m in files && SanitizeName(c, m) == t && files[m] == s[t];
      var k :| k in files && SanitizeName(c, k) == n && files[k] == s[n];
      assert Spares(c, files, n, m) && Spares(c, files, n, k);
      SanitizeIdempotent(c, m);
    }
    var k :| k in files && SanitizeName(c, k) == n && files[k] == s[n];
    assert Spares(c, files, n, k);
  }

  /** For a name that is not safe, a file system that makes the import lose it. */
  lemma UnsafeIsLost(c: Names, files: FileMap, n: string) returns (fs: nat -> Attempt, r: Outcome)
    requires Trusted(c) && n in files && !Safe(c, files, n)
    ensures Run(c, fs, files, 0, r) && r.Imported? && !InPlace(files, n, r.files)
  {
    hide Run, HasConflicts, HasInvalid, SanitizedTo, UniqueFiles, SanitizeName, Trusted, Leq;
    if SanitizeName(c, n) != n {
      var s := SomeSanitized(c, files, n);
      RenamedIsGone(c, files, s, n);
      OneRepair(c, files, s);
      return FailOnce(ENOENT), Imported(s, 2);
    }
    var m :| m in files && !Spares(c, files, n, m);
    if c.lower(m) == c.lower(n) && !Leq(n, m) {
      NotFirst(c, files, n, m);
      OneRepair(c, files, map[]);
      return FailOnce(EEXIST), Imported(UniqueFiles(c, files), 2);
    }
    var t := SanitizeName(c, m);
    var s := SomeSanitized(c, files, m);
    SanitizedNames(c, files, s, n, m);
    if t == n {
      LeqTotal(n, n);
      OneRepair(c, files, s);
      return FailOnce(ENOENT), Imported(s, 2);
    }
    NotFirst(c, s, n, t);
    TwoRepairs(c, files, s);
    return FailTwice(), Imported(UniqueFiles(c, s), 3);
  }

  ghost function FailOnce(a: Attempt): nat -> Attempt {
    k => if k == 0 then a else Done
  }

  ghost function FailTwice(): nat -> Attempt {
    k => if k == 0 then ENOENT else if k == 1 then EEXIST else Done
  }

  lemma OneRepair(c: Names, files: FileMap, s: FileMap)
    ensures HasConflicts(c, files) ==> Run(c, FailOnce(EEXIST), files, 0, Imported(UniqueFiles(c, files), 2))
    ensures HasInvalid(c, files) && SanitizedTo(c, files, s) ==> Run(c, FailOnce(ENOENT), files, 0, Imported(s, 2))
  {
    hide HasConflicts, HasInvalid, SanitizedTo, UniqueFiles;
    assert Run(c, FailOnce(EEXIST), UniqueFiles(c, files), 1, Imported(UniqueFiles(c, files), 2));
    assert Run(c, FailOnce(ENOENT), s, 1, Imported(s, 2));
  }

  lemma TwoRepairs(c: Names, files: FileMap, s: FileMap)
    requires HasInvalid(c, files) && SanitizedTo(c, files, s) && HasConflicts(c, s)
    ensures Run(c, FailTwice(), files, 0, Imported(UniqueFiles(c, s), 3))
  {
    hide HasConflicts, HasInvalid, SanitizedTo, UniqueFiles;
    assert Run(c, FailTwice(), UniqueFiles(c, s), 2, Imported(UniqueFiles(c, s), 3));
    assert Run(c, FailTwice(), s, 1, Imported(UniqueFiles(c, s), 3));
  }

  /** A file map that sanitizing may give, in which `m` comes out on top. */
  lemma SomeSanitized(c: Names, files: FileMap, m: string) returns (s: FileMap)
    requires m in files
    ensures SanitizedTo(c, files, s) && s[SanitizeName(c, m)] == files[m]
  {
    hide SanitizeName;
    var names := set n | n in files :: SanitizeName(c, n);
    s := map t | t in names :: if t == SanitizeName(c, m) then files[m] else SourceOf(c, files, t);
    forall t | t in s ensures exists n :: n in files && SanitizeName(c, n) == t && files[n] == s[t] {
      if t == SanitizeName(c, m) {
        assert files[m] == s[t];
      }
    }
  }

  ghost function SourceOf(c: Names, files: FileMap, t: string): (r: string)
    requires exists n :: n in files && SanitizeName(c, n) == t
    ensures exists n :: n in files && SanitizeName(c, n) == t && files[n] == r
  {
    var n :| n in files && SanitizeName(c, n) == t;
    files[n]
  }

  lemma RenamedIsGone(c: Names, files: FileMap, s: FileMap, n: string)
    requires Trusted(c) && n in files && SanitizeName(c, n) != n && SanitizedTo(c, files, s)
    ensures HasInvalid(c, files) && n !in s
  {
    hide SanitizeName, Trusted;
    if n in s {
      var k :| k in files && SanitizeName(c, k) == n && files[k] == s[n];
      SanitizeIdempotent(c, k);
    }
  }

  lemma NotFirst(c: Names, files: FileMap, n: string, m: string)
    requires n in files && m in files && c.lower(m) == c.lower(n) && !Leq(n, m)
    ensures HasConflicts(c, files) && n !in UniqueFiles(c, files)
  {
    hide Leq;
    LeqTotal(n, n);
  }

  lemma SanitizedNames(c: Names, files: FileMap, s: FileMap, n: string, m: string)
    requires n in files && m in files && SanitizeName(c, n) == n && SanitizedTo(c, files, s)
    requires !Spares(c, files, n, m) && !(c.lower(m) == c.lower(n) && !Leq(n, m))
    ensures n in s && SanitizeName(c, m) in s && HasInvalid(c, files)
  {
    hide SanitizeName, Leq;
    assert SanitizeName(c, n) in s;
  }

  lemma ConflictsAreDropped(files: FileMap, unique: FileMap, conflicting: map<string, string>)
    requires unique.Keys <= files.Keys && conflicting.Keys == files.Keys - unique.Keys
    requires forall n :: n in unique ==> unique[n] == files[n]
    ensures conflicting == map[] <==> unique == files
  {
    if conflicting == map[] {
      assert conflicting.Keys == {};
      forall n | n in files ensures n in unique {
        assert n !in files.Keys - unique.Keys;
      }
    }
    if unique == files {
      assert conflicting.Keys == {};
    }
  }

  lemma InvalidListed(c: Names, files: FileMap, invalid: seq<string>)
    requires forall n :: n in invalid <==> n in files && SanitizeName(c, n) != n
    ensures invalid != [] <==> HasInvalid(c, files)
  {
    hide SanitizeName;
    if invalid != [] {
      assert invalid[0] in invalid;
    }
  }

  lemma SanitizedDerived(c: Names, files: FileMap, sanitized: FileMap)
    requires SanitizedTo(c, files, sanitized)
    ensures Derived(c, files, sanitized)
  {
    hide SanitizeName;
  }

  lemma SameFiles(c: Names, files: FileMap)
    ensures Derived(c, files, files)
  {
  }

  lemma SubsetDerived(c: Names, files: FileMap, unique: FileMap)
    requires forall n :: n in unique ==> n in files && unique[n] == files[n]
    ensures Derived(c, files, unique)
  {
  }
}
