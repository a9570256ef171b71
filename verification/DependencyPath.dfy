/** The grammar of dependency paths: `name@version(patch_hash=...)(peer@1.0.0(nested@2.0.0))...`. */
module DependencyPath {
  import opened Records
  import opened StringOrder

  predicate StartsWith(s: string, prefix: string) {
    prefix <= s
  }

  predicate IsBracket(c: char) {
    c == '(' || c == ')'
  }

  predicate BracketFree(s: string) {
    forall i :: 0 <= i < |s| ==> !IsBracket(s[i])
  }

  function PatchPrefix(): (r: string)
    ensures |r| == 12 && r[0] == '(' && BracketFree(r[1..])
  {
    "(patch_hash="
  }

  /** `s.indexOf(c, from)`. */
  function IndexOf(s: string, c: char, from: nat): (r: int)
    ensures r == -1 || from <= r < |s|
    ensures r == -1 ==> forall i :: from <= i < |s| ==> s[i] != c
    ensures r >= 0 ==> s[r] == c && forall i :: from <= i < r ==> s[i] != c
    decreases |s| - from
  {
    if from >= |s| then -1 else if s[from] == c then from else IndexOf(s, c, from + 1)
  }

  // ----- The backward bracket scanner -----

  datatype SuffixIndexes = SuffixIndexes(peersIndex: int, patchHashIndex: int)

  const NO_SUFFIX := SuffixIndexes(-1, -1)

  /** Scanning down from position `i` with `open` unmatched closing brackets: where the scan stops, or -1. */
  function Scan(s: string, i: int, open: int): (r: int)
    requires -1 <= i < |s|
    ensures -1 <= r <= i
    ensures r >= 0 ==> !IsBracket(s[r])
    decreases i + 1
  {
    if i < 0 then -1
    else if s[i] == '(' then Scan(s, i - 1, open - 1)
    else if s[i] == ')' then Scan(s, i - 1, open + 1)
    else if open == 0 then i
    else Scan(s, i - 1, open)
  }

  function Split(s: string, stop: int): SuffixIndexes
    requires -1 <= stop < |s|
  {
    if stop == -1 then NO_SUFFIX
    else if StartsWith(s[stop + 1..], PatchPrefix()) then SuffixIndexes(IndexOf(s, '(', stop + 2), stop + 1)
    else SuffixIndexes(stop + 1, -1)
  }

  function SuffixIndexesOf(s: string): SuffixIndexes {
    if s == "" || s[|s| - 1] != ')' then NO_SUFFIX else Split(s, Scan(s, |s| - 2, 1))
  }

  method IndexOfPeersSuffix(depPath: string) returns (r: SuffixIndexes)
    ensures r == SuffixIndexesOf(depPath)
  {
    if depPath == "" || depPath[|depPath| - 1] != ')' {
      return NO_SUFFIX;
    }
    var open := 1;
    var i := |depPath| - 2;
    while i >= 0
      invariant -1 <= i <= |depPath| - 2
      invariant Scan(depPath, |depPath| - 2, 1) == Scan(depPath, i, open)
      decreases i
    {
      if depPath[i] == '(' {
        open := open - 1;
      } else if depPath[i] == ')' {
        open := open + 1;
      } else if open == 0 {
        if StartsWith(depPath[i + 1..], PatchPrefix()) {
          return SuffixIndexes(IndexOf(depPath, '(', i + 2), i + 1);
        }
        return SuffixIndexes(i + 1, -1);
      }
      i := i - 1;
    }
    return NO_SUFFIX;
  }

  // ----- Parsers -----

  function RemoveSuffix(relDepPath: string): string {
    var ix := SuffixIndexesOf(relDepPath);
    if ix.patchHashIndex != -1 then relDepPath[..ix.patchHashIndex]
    else if ix.peersIndex != -1 then relDepPath[..ix.peersIndex]
    else relDepPath
  }

  function GetPkgIdWithPatchHash(depPath: string): string {
    var ix := SuffixIndexesOf(depPath);
    var id := if ix.peersIndex != -1 then depPath[..ix.peersIndex] else depPath;
    if ':' in id then id[IndexOf(id, '@', 1) + 1..] else id
  }

  function TryGetPackageId(relDepPath: string): string {
    var ix := SuffixIndexesOf(relDepPath);
    var sepIndex := if ix.patchHashIndex == -1 then ix.peersIndex else ix.patchHashIndex;
    var id := if sepIndex != -1 then relDepPath[..sepIndex] else relDepPath;
    if ':' in id then id[IndexOf(id, '@', 1) + 1..] else id
  }

  datatype ParsedPath =
    | Unparsed
    | Parsed(name: string, version: Option<string>, nonSemverVersion: Option<string>,
             peersSuffix: Option<string>, patchHash: Option<string>)

  /** `valid` stands for `semver.valid`. */
  function Assemble(
    valid: string -> bool, name: string, version: string, peers: Option<string>, patch: Option<string>): ParsedPath
  {
    if valid(version) then Parsed(name, Some(version), None, peers, patch)
    else Parsed(name, None, Some(version), peers, patch)
  }

  function ParseVersion(valid: string -> bool, name: string, version: string): ParsedPath {
    var ix := SuffixIndexesOf(version);
    if ix.peersIndex == -1 && ix.patchHashIndex == -1 then
      Assemble(valid, name, version, None, None)
    else if ix.peersIndex == -1 then
      Assemble(valid, name, version[..ix.patchHashIndex], None, Some(version[ix.patchHashIndex..]))
    else if ix.patchHashIndex == -1 then
      Assemble(valid, name, version[..ix.peersIndex], Some(version[ix.peersIndex..]), None)
    else
      Assemble(valid, name, version[..ix.patchHashIndex], Some(version[ix.peersIndex..]),
               Some(version[ix.patchHashIndex..ix.peersIndex]))
  }

  function Parse(valid: string -> bool, dependencyPath: string): ParsedPath {
    var sepIndex := IndexOf(dependencyPath, '@', 1);
    if sepIndex == -1 then Unparsed
    else
      var version := dependencyPath[sepIndex + 1..];
      if version == "" then Unparsed else ParseVersion(valid, dependencyPath[..sepIndex], version)
  }

  function RefToRelative(reference: string, pkgName: string): (r: Option<string>)
    ensures r.None? <==> StartsWith(reference, "link:")
  {
    if StartsWith(reference, "link:") then None
    else if StartsWith(reference, "@") then Some(reference)
    else
      var atIndex := IndexOf(reference, '@', 0);
      if atIndex == -1 then Some(pkgName + "@" + reference)
      else
        var colonIndex := IndexOf(reference, ':', 0);
        var bracketIndex := IndexOf(reference, '(', 0);
        if (colonIndex == -1 || atIndex < colonIndex) && (bracketIndex == -1 || atIndex < bracketIndex) then
          Some(reference)
        else
          Some(pkgName + "@" + reference)
  }

  // ----- The printer -----

  /** `t` closes exactly `depth` brackets it does not open, and has text only inside brackets. */
  predicate Nested(t: string, depth: nat) {
    if t == "" then depth == 0
    else if t[0] == '(' then Nested(t[1..], depth + 1)
    else if t[0] == ')' then depth > 0 && Nested(t[1..], depth - 1)
    else depth > 0 && Nested(t[1..], depth)
  }

  /** A sequence of balanced groups, with nested groups allowed. */
  predicate IsPeersSuffix(t: string) {
    Nested(t, 0)
  }

  function PatchGroup(hash: Option<string>): string {
    match hash
    case None => ""
    case Some(h) => PatchPrefix() + h + ")"
  }

  function Suffix(patch: Option<string>, peers: string): string {
    PatchGroup(patch) + peers
  }

  function Print(name: string, version: string, patch: Option<string>, peers: string): string {
    name + "@" + version + Suffix(patch, peers)
  }

  predicate Printable(name: string, version: string, patch: Option<string>, peers: string) {
    && name != "" && '@' !in name[1..]
    && version != "" && BracketFree(version)
    && (patch.Some? ==> BracketFree(patch.value))
    && IsPeersSuffix(peers)
  }

  lemma {:induction false} NestedAppend(h: string, t: string, depth: nat)
    requires BracketFree(h) && depth > 0
    ensures Nested(h + t, depth) == Nested(t, depth)
  {
    if h == "" {
      assert h + t == t;
    } else {
      assert (h + t)[0] == h[0] && !IsBracket(h[0]);
      assert (h + t)[1..] == h[1..] + t;
      NestedAppend(h[1..], t, depth);
    }
  }

  lemma SuffixNested(patch: Option<string>, peers: string)
    requires IsPeersSuffix(peers) && (patch.Some? ==> BracketFree(patch.value))
    ensures Nested(Suffix(patch, peers), 0)
  {
    hide PatchPrefix;
    match patch
    case None =>
      assert Suffix(patch, peers) == peers;
    case Some(h) =>
      var inner := PatchPrefix()[1..] + h;
      var s := Suffix(patch, peers);
      assert s[0] == '(' && s[1..] == inner + (")" + peers);
      assert (")" + peers)[1..] == peers;
      NestedAppend(inner, ")" + peers, 1);
  }

  /** Scanning back over a nested text changes the count by the depth it closes and never stops inside. */
  lemma {:induction false} ScanThrough(p: string, t: string, depth: nat)
    requires Nested(t, depth)
    ensures Scan(p + t, |p + t| - 1, 0) == Scan(p + t, |p| - 1, depth)
    decreases |t|
  {
    if t != "" {
      assert p + t == (p + [t[0]]) + t[1..];
      var inner := if t[0] == '(' then depth + 1 else if t[0] == ')' then depth - 1 else depth;
      ScanThrough(p + [t[0]], t[1..], inner);
      assert (p + t)[|p|] == t[0];
    }
  }

  /** How many more brackets close in the text than open. */
  ghost function Excess(t: string): int {
    if t == "" then 0 else Excess(t[1..]) + (if t[0] == ')' then 1 else if t[0] == '(' then -1 else 0)
  }

  /** A place to split at: text, after which as many brackets open as close. */
  ghost predicate SplitPoint(s: string, i: int) {
    0 <= i < |s| && !IsBracket(s[i]) && Excess(s[i + 1..]) == 0
  }

  lemma ExcessStep(s: string, i: nat)
    requires i < |s|
    ensures Excess(s[i..]) == Excess(s[i + 1..]) + if s[i] == ')' then 1 else if s[i] == '(' then -1 else 0
  {
    assert s[i..][1..] == s[i + 1..];
  }

  lemma ScanStep(s: string, i: nat)
    requires i < |s|
    ensures Scan(s, i, Excess(s[i + 1..])) == if SplitPoint(s, i) then i else Scan(s, i - 1, Excess(s[i..]))
  {
    ExcessStep(s, i);
  }

  lemma {:induction false} ScanFindsLast(s: string, i: int) returns (r: int)
    requires -1 <= i < |s|
    ensures r == Scan(s, i, Excess(s[i + 1..]))
    ensures r != -1 ==> SplitPoint(s, r)
    ensures forall j :: r < j <= i ==> !SplitPoint(s, j)
    decreases i + 1
  {
    if i < 0 {
      r := -1;
    } else {
      ScanStep(s, i);
      hide Scan, Excess;
      if SplitPoint(s, i) {
        r := i;
      } else {
        hide SplitPoint;
        r := ScanFindsLast(s, i - 1);
      }
    }
  }

  /** On every string that ends with a bracket, balanced or not, the suffix starts after the last place to split at. */
  lemma SuffixStart(s: string)
    requires s != "" && s[|s| - 1] == ')'
    ensures var ix := SuffixIndexesOf(s);
            var start := if ix.patchHashIndex != -1 then ix.patchHashIndex else ix.peersIndex;
            && (start == -1 <==> forall i :: !SplitPoint(s, i))
            && (start != -1 ==> SplitPoint(s, start - 1) && forall i :: i >= start ==> !SplitPoint(s, i))
  {
    LastBracket(s);
    var stop := ScanFindsLast(s, |s| - 2);
    forall i | i > stop ensures !SplitPoint(s, i) {
    }
    assert SuffixIndexesOf(s) == Split(s, stop);
    hide Scan, PatchPrefix, SplitPoint, SuffixIndexesOf, StartsWith;
    if stop == -1 {
      NoNegativePoint(s);
    }
  }

  lemma LastBracket(s: string)
    requires s != "" && s[|s| - 1] == ')'
    ensures Excess(s[|s| - 1..]) == 1
    ensures forall i :: i >= |s| - 1 ==> !SplitPoint(s, i)
  {
    assert s[|s| - 1..] == ")";
    assert s[|s| - 1..][1..] == "";
  }

  lemma NoNegativePoint(s: string)
    ensures forall i :: i < 0 ==> !SplitPoint(s, i)
  {
  }

  lemma {:induction false} NestedEndsClosed(t: string, depth: nat)
    requires Nested(t, depth) && t != ""
    ensures t[|t| - 1] == ')'
  {
    if |t| > 1 {
      var inner := if t[0] == '(' then depth + 1 else if t[0] == ')' then depth - 1 else depth;
      NestedEndsClosed(t[1..], inner);
    } else {
      assert t[1..] == "";
    }
  }

  /** On `p` followed by bracket groups, the scanner splits exactly after `p`. */
  lemma SplitsAfter(p: string, t: string)
    requires p != "" && !IsBracket(p[|p| - 1]) && IsPeersSuffix(t)
    ensures SuffixIndexesOf(p + t) == if t == "" then NO_SUFFIX else Split(p + t, |p| - 1)
  {
    if t == "" {
      assert p + t == p;
    } else {
      NestedEndsClosed(t, 0);
      ScanThrough(p, t, 0);
      assert (p + t)[|p| - 1] == p[|p| - 1];
    }
  }

  /** With a patch group, the peers start where that group ends. */
  lemma SplitWithPatch(p: string, h: string, peers: string)
    requires p != "" && !IsBracket(p[|p| - 1]) && IsPeersSuffix(peers) && BracketFree(h)
    ensures var g := PatchGroup(Some(h));
            SuffixIndexesOf(p + Suffix(Some(h), peers)) == SuffixIndexes(if peers == "" then -1 else |p| + |g|, |p|)
  {
    hide PatchPrefix, Scan;
    var g := PatchGroup(Some(h));
    var s := p + Suffix(Some(h), peers);
    SuffixNested(Some(h), peers);
    SplitsAfter(p, Suffix(Some(h), peers));
    assert s[|p|..] == Suffix(Some(h), peers);
    assert PatchPrefix() <= g <= Suffix(Some(h), peers);
    forall i | |p| + 1 <= i < |p| + |g| ensures s[i] != '(' {
      assert s[i] == g[i - |p|];
      if i - |p| < 12 {
        assert s[i] == PatchPrefix()[1..][i - |p| - 1];
      }
    }
    assert peers != "" ==> s[|p| + |g|] == peers[0] == '(';
  }

  /** Without a patch group the groups start right after `p`; a first group spelled like a patch is taken for one. */
  lemma SplitWithoutPatch(p: string, peers: string)
    requires p != "" && !IsBracket(p[|p| - 1]) && IsPeersSuffix(peers)
    ensures var ix := SuffixIndexesOf(p + peers);
            if peers == "" then ix == NO_SUFFIX
            else if StartsWith(peers, PatchPrefix()) then ix.patchHashIndex == |p|
            else ix == SuffixIndexes(|p|, -1)
  {
    hide PatchPrefix, Scan;
    SplitsAfter(p, peers);
    assert (p + peers)[|p|..] == peers;
  }

  /** The text that makes `parse` take a peer group for a patch hash. */
  predicate PeersPoseAsPatch(patch: Option<string>, peers: string) {
    patch.None? && StartsWith(peers, PatchPrefix())
  }

  /** The result has these four parts, and the version in the field that its validity calls for. */
  ghost predicate ParsedAs(
    valid: string -> bool, r: ParsedPath, name: string, version: string, patch: Option<string>, peers: string)
  {
    && r.Parsed? && r.name == name
    && (valid(version) ==> r.version == Some(version) && r.nonSemverVersion.None?)
    && (!valid(version) ==> r.version.None? && r.nonSemverVersion == Some(version))
    && (peers == "" ==> r.peersSuffix.None?)
    && (peers != "" ==> r.peersSuffix == Some(peers))
    && (patch.None? ==> r.patchHash.None?)
    && (patch.Some? ==> r.patchHash == Some("(patch_hash=" + patch.value + ")"))
  }

  lemma PatchGroupText(h: string)
    ensures PatchGroup(Some(h)) == "(patch_hash=" + h + ")"
  {
  }

  /** Parsing undoes printing, except exactly when the first peer group is spelled like a patch hash. */
  lemma ParsePrint(valid: string -> bool, name: string, version: string, patch: Option<string>, peers: string)
    requires Printable(name, version, patch, peers)
    ensures ParsedAs(valid, Parse(valid, Print(name, version, patch, peers)), name, version, patch, peers)
      <==> !PeersPoseAsPatch(patch, peers)
  {
    hide PatchPrefix, Scan, Nested, SuffixIndexesOf, IndexOf, ParsedAs;
    var s := Print(name, version, patch, peers);
    var rest := version + Suffix(patch, peers);
    SeparatorFound(name, rest);
    assert s == name + "@" + rest;
    assert s[|name| + 1..] == rest && s[..|name|] == name;
    match patch
    case Some(h) => ParseWithPatch(valid, name, version, h, peers);
    case None => ParseWithoutPatch(valid, name, version, peers);
  }

  lemma ParseWithPatch(valid: string -> bool, name: string, version: string, h: string, peers: string)
    requires version != "" && BracketFree(version) && BracketFree(h) && IsPeersSuffix(peers)
    ensures ParsedAs(valid, ParseVersion(valid, name, version + Suffix(Some(h), peers)), name, version, Some(h), peers)
  {
    hide PatchPrefix, Scan, Nested, SuffixIndexesOf, PatchGroup;
    PatchGroupText(h);
    var g := PatchGroup(Some(h));
    var rest := version + Suffix(Some(h), peers);
    SplitWithPatch(version, h, peers);
    assert rest == version + g + peers;
    assert rest[..|version|] == version;
    assert rest[|version|..] == g + peers;
    assert rest[|version|..|version| + |g|] == g && rest[|version| + |g|..] == peers;
    assert peers == "" ==> g + peers == g;
  }

  lemma ParseWithoutPatch(valid: string -> bool, name: string, version: string, peers: string)
    requires version != "" && BracketFree(version) && IsPeersSuffix(peers)
    ensures ParsedAs(valid, ParseVersion(valid, name, version + Suffix(None, peers)), name, version, None, peers)
      <==> !PeersPoseAsPatch(None, peers)
  {
    hide PatchPrefix, Scan, Nested, SuffixIndexesOf;
    assert Suffix(None, peers) == peers;
    var rest := version + peers;
    SplitWithoutPatch(version, peers);
    assert rest[..|version|] == version && rest[|version|..] == peers;
    assert peers == "" ==> rest == version;
  }

  /** A string is not parsed exactly when it has no separator strictly inside. */
  lemma UnparsedIffNoSeparator(valid: string -> bool, s: string)
    ensures Parse(valid, s).Unparsed? <==> forall k :: 1 <= k < |s| - 1 ==> s[k] != '@'
  {
    hide SuffixIndexesOf;
    var i := IndexOf(s, '@', 1);
    assert i != -1 ==> (s[i + 1..] == "" <==> i == |s| - 1);
  }

  lemma SeparatorFound(name: string, rest: string)
    requires name != "" && '@' !in name[1..]
    ensures IndexOf(name + "@" + rest, '@', 1) == |name|
  {
    var s := name + "@" + rest;
    assert s[|name|] == '@';
    forall i | 1 <= i < |name| ensures s[i] != '@' {
      assert s[i] == name[1..][i - 1];
    }
  }

  /** Without its suffix a printed path is `name@version`, whatever the suffix looks like. */
  lemma RemoveSuffixOfPrinted(name: string, version: string, patch: Option<string>, peers: string)
    requires Printable(name, version, patch, peers)
    ensures RemoveSuffix(Print(name, version, patch, peers)) == name + "@" + version
  {
    hide PatchPrefix, Scan, Nested, SuffixIndexesOf;
    var p := name + "@" + version;
    var s := Print(name, version, patch, peers);
    assert p[|p| - 1] == version[|version| - 1];
    assert s == p + Suffix(patch, peers) && s[..|p|] == p;
    match patch
    case Some(h) => SplitWithPatch(p, h, peers);
    case None =>
      assert Suffix(None, peers) == peers;
      SplitWithoutPatch(p, peers);
      assert peers == "" ==> s == p;
  }

  /** On every string, removing the suffix twice removes no more than removing it once. */
  lemma RemoveSuffixIdempotent(s: string)
    ensures RemoveSuffix(RemoveSuffix(s)) == RemoveSuffix(s)
    ensures RemoveSuffix(s) <= s
  {
    if s != "" && s[|s| - 1] == ')' {
      var stop := Scan(s, |s| - 2, 1);
      if stop >= 0 {
        assert RemoveSuffix(s) == s[..stop + 1];
        assert s[..stop + 1][|s[..stop + 1]| - 1] == s[stop];
      }
    }
  }

  /** Cutting the name off an id that mentions a protocol. */
  function WithoutName(id: string, name: string): string
    requires name < id
  {
    if ':' in id then id[|name| + 1..] else id
  }

  /** The package id of a printed path is `name@version`; of one with a protocol in it, the part after the name. */
  lemma PackageIdOfPrinted(name: string, version: string, patch: Option<string>, peers: string)
    requires Printable(name, version, patch, peers)
    ensures TryGetPackageId(Print(name, version, patch, peers)) == WithoutName(name + "@" + version, name)
  {
    hide PatchPrefix, Scan, Nested, SuffixIndexesOf, IndexOf, PatchGroup;
    var p := name + "@" + version;
    var s := Print(name, version, patch, peers);
    assert p[|p| - 1] == version[|version| - 1];
    assert s == p + Suffix(patch, peers) && s[..|p|] == p;
    SeparatorFound(name, version);
    match patch
    case Some(h) => SplitWithPatch(p, h, peers);
    case None =>
      NoPatchGroup();
      assert Suffix(None, peers) == peers;
      SplitWithoutPatch(p, peers);
      assert peers == "" ==> s == p;
  }

  /** The id used as key of the dep state keeps the patch group too, exactly when no peer group poses as one. */
  lemma PkgIdOfPrinted(name: string, version: string, patch: Option<string>, peers: string)
    requires Printable(name, version, patch, peers)
    ensures GetPkgIdWithPatchHash(Print(name, version, patch, peers)) ==
            WithoutName(name + "@" + (version + PatchGroup(patch)), name)
      <==> !PeersPoseAsPatch(patch, peers)
  {
    hide PatchPrefix, Scan, Nested, SuffixIndexesOf, IndexOf, PatchGroup, GetPkgIdWithPatchHash, WithoutName, Printable;
    match patch
    case Some(h) => PkgIdWithPatch(name, version, h, peers);
    case None =>
      NoPatchGroup();
      assert version + "" == version;
      if StartsWith(peers, PatchPrefix()) {
        PkgIdWithPosing(name, version, peers);
      } else {
        PkgIdWithoutPatch(name, version, peers);
      }
  }

  lemma PkgIdWithPatch(name: string, version: string, h: string, peers: string)
    requires Printable(name, version, Some(h), peers)
    ensures GetPkgIdWithPatchHash(Print(name, version, Some(h), peers)) ==
            WithoutName(name + "@" + (version + PatchGroup(Some(h))), name)
  {
    hide PatchPrefix, Scan, Nested, SuffixIndexesOf, IndexOf, PatchGroup;
    var p, g := name + "@" + version, PatchGroup(Some(h));
    var s := Print(name, version, Some(h), peers);
    assert p[|p| - 1] == version[|version| - 1];
    assert s == p + Suffix(Some(h), peers) == (p + g) + peers;
    assert s[..|p| + |g|] == p + g == name + "@" + (version + g);
    SeparatorFound(name, version + g);
    SplitWithPatch(p, h, peers);
    assert peers == "" ==> s == p + g;
  }

  lemma PkgIdWithoutPatch(name: string, version: string, peers: string)
    requires Printable(name, version, None, peers) && !StartsWith(peers, PatchPrefix())
    ensures GetPkgIdWithPatchHash(Print(name, version, None, peers)) == WithoutName(name + "@" + version, name)
  {
    hide PatchPrefix, Scan, Nested, SuffixIndexesOf, IndexOf;
    var p := name + "@" + version;
    var s := Print(name, version, None, peers);
    assert p[|p| - 1] == version[|version| - 1];
    assert s == p + peers && s[..|p|] == p;
    SeparatorFound(name, version);
    SplitWithoutPatch(p, peers);
    assert peers == "" ==> s == p;
  }

  /** A posing peer group stays in the id, at least up to the next bracket that opens. */
  lemma PkgIdWithPosing(name: string, version: string, peers: string)
    requires Printable(name, version, None, peers) && StartsWith(peers, PatchPrefix())
    ensures GetPkgIdWithPatchHash(Print(name, version, None, peers)) != WithoutName(name + "@" + version, name)
  {
    hide StartsWith, Scan, Nested, SuffixIndexesOf, IndexOf;
    var p := name + "@" + version;
    assert p[|p| - 1] == version[|version| - 1];
    assert Print(name, version, None, peers) == p + peers;
    var more := PosingCut(p, peers);
    assert p + more == name + "@" + (version + more);
    SeparatorFound(name, version + more);
    LongerDiffers(name, version, more);
  }

  lemma PosingCut(p: string, peers: string) returns (more: string)
    requires p != "" && !IsBracket(p[|p| - 1]) && IsPeersSuffix(peers) && StartsWith(peers, PatchPrefix())
    ensures more != ""
    ensures var s := p + peers;
            var cut := SuffixIndexesOf(s).peersIndex;
            (if cut != -1 then s[..cut] else s) == p + more
  {
    hide PatchPrefix, Scan, Nested, SuffixIndexesOf, IndexOf;
    var s := p + peers;
    assert s[|p|..] == peers;
    SplitsAfter(p, peers);
    var cut := SuffixIndexesOf(s).peersIndex;
    assert cut == IndexOf(s, '(', |p| + 1);
    more := s[|p|..if cut != -1 then cut else |s|];
  }

  lemma LongerDiffers(name: string, version: string, more: string)
    requires more != ""
    ensures WithoutName(name + "@" + (version + more), name) != WithoutName(name + "@" + version, name)
  {
    var p, q := name + "@" + version, name + "@" + (version + more);
    assert |q| > |p| && forall i :: 0 <= i < |p| ==> q[i] == p[i];
    if ':' in q && ':' !in p {
      assert q[|name| + 1..] == version + more;
      var k :| 0 <= k < |q| && q[k] == ':';
      assert k >= |p|;
      assert (version + more)[k - |name| - 1] == ':';
    }
  }

  lemma NoPatchGroup()
    ensures PatchGroup(None) == ""
  {
  }

  /** A reference to a registry package resolves to the path that names the package, and that parses back. */
  lemma RefResolves(name: string, version: string, patch: Option<string>, peers: string)
    requires Printable(name, version, patch, peers)
    requires '@' !in version && !StartsWith(version + Suffix(patch, peers), "link:")
    ensures RefToRelative(version + Suffix(patch, peers), name) == Some(Print(name, version, patch, peers))
  {
    var reference := version + Suffix(patch, peers);
    assert reference[0] == version[0];
    assert Print(name, version, patch, peers) == name + "@" + reference;
    forall i | 0 <= i < |version| ensures reference[i] != '@' {
      assert reference[i] == version[i];
    }
    if IndexOf(reference, '@', 0) != -1 {
      assert Suffix(patch, peers) != "";
      assert Suffix(patch, peers)[0] == '(';
      assert reference[|version|] == '(';
    }
  }

  /** The reference has an `@` with neither a colon nor a bracket before it, so that it names a package itself. */
  ghost predicate NamesPackage(reference: string) {
    exists k :: 0 <= k < |reference| && reference[k] == '@' &&
      forall i :: 0 <= i < k ==> reference[i] != ':' && reference[i] != '('
  }

  /** A link has no path, a reference that names its package is one, and any other one follows the package's name. */
  lemma RefCases(reference: string, pkgName: string)
    ensures "link:" <= reference ==> RefToRelative(reference, pkgName) == None
    ensures !("link:" <= reference) && NamesPackage(reference) ==> RefToRelative(reference, pkgName) == Some(reference)
    ensures !("link:" <= reference) && !NamesPackage(reference) ==>
      RefToRelative(reference, pkgName) == Some(pkgName + "@" + reference)
  {
    var at := IndexOf(reference, '@', 0);
    if StartsWith(reference, "@") {
      assert reference[0] == '@';
    } else if at != -1 {
      if NamesPackage(reference) {
        var k :| 0 <= k < |reference| && reference[k] == '@' &&
          forall i :: 0 <= i < k ==> reference[i] != ':' && reference[i] != '(';
        assert at <= k;
      }
    }
  }

  /** A dependency installed under another name keeps its own path. */
  lemma AliasResolves(name: string, version: string, patch: Option<string>, peers: string, alias: string)
    requires Printable(name, version, patch, peers) && ':' !in name && '(' !in name
    ensures RefToRelative(Print(name, version, patch, peers), alias) == Some(Print(name, version, patch, peers))
  {
    hide PatchPrefix, Nested;
    var s := Print(name, version, patch, peers);
    assert s[|name|] == '@' && forall i :: 0 <= i < |name| ==> s[i] == name[i];
    RefCases(s, alias);
    NotLink(s, |name|);
  }

  lemma NotLink(s: string, k: nat)
    requires k < |s| && s[k] == '@' && forall i :: 0 <= i < k ==> s[i] != ':'
    ensures !("link:" <= s)
  {
    if k < 5 {
      assert "link:"[k] != '@';
    } else {
      assert "link:"[4] == ':' && s[4] != ':';
    }
  }

  // ----- The peers part of a path -----

  datatype PeerId = Resolved(name: string, version: string) | Raw(id: string)

  function PeerText(p: PeerId): string {
    match p
    case Resolved(name, version) => name + "@" + version
    case Raw(id) => if StartsWith(id, "/") then id[1..] else id
  }

  function PeerTexts(peerIds: seq<PeerId>): (r: seq<string>)
    ensures |r| == |peerIds|
    ensures forall i :: 0 <= i < |r| ==> r[i] == PeerText(peerIds[i])
  {
    if peerIds == [] then [] else PeerTexts(peerIds[..|peerIds| - 1]) + [PeerText(peerIds[|peerIds| - 1])]
  }

  function Join(texts: seq<string>, separator: string): string {
    if texts == [] then ""
    else if |texts| == 1 then texts[0]
    else texts[0] + separator + Join(texts[1..], separator)
  }

  /** `shortHash` stands for the hash that replaces an over-long list. */
  function CreatePeersDirSuffix(shortHash: string -> string, peerIds: seq<PeerId>, maxLength: nat): string {
    var dirName := Join(Sort(PeerTexts(peerIds)), ")(");
    "(" + (if |dirName| > maxLength then shortHash(dirName) else dirName) + ")"
  }

  /** Each text in a pair of brackets of its own. */
  ghost function Groups(texts: seq<string>): string {
    if texts == [] then "" else "(" + texts[0] + ")" + Groups(texts[1..])
  }

  lemma {:induction false} JoinedIsGroups(texts: seq<string>)
    requires texts != []
    ensures "(" + Join(texts, ")(") + ")" == Groups(texts)
  {
    if |texts| > 1 {
      JoinedIsGroups(texts[1..]);
      assert "(" + Join(texts, ")(") + ")" == "(" + texts[0] + ")" + ("(" + Join(texts[1..], ")(") + ")");
    } else {
      assert Groups(texts[1..]) == "";
    }
  }

  /** A resolved peer is written as `name@version`; a path loses its leading slash. */
  lemma PeerTextOf(name: string, version: string, id: string)
    ensures PeerText(Resolved(name, version)) == name + "@" + version
    ensures PeerText(Raw("/" + id)) == id
    ensures id == "" || id[0] != '/' ==> PeerText(Raw(id)) == id
  {
  }

  /** The suffix lists each peer once per occurrence, in sorted order, in a group of its own; a list that is too
    * long is replaced by its hash.
    */
  lemma PeersDirSuffixLists(shortHash: string -> string, peerIds: seq<PeerId>, maxLength: nat)
    returns (texts: seq<string>)
    requires peerIds != []
    ensures Sorted(texts) && multiset(texts) == multiset(PeerTexts(peerIds))
    ensures var all := Groups(texts);
            && |all| >= 2
            && CreatePeersDirSuffix(shortHash, peerIds, maxLength) ==
               if |all| - 2 > maxLength then "(" + shortHash(all[1..|all| - 1]) + ")" else all
  {
    hide Sort, Sorted, Join, Groups;
    texts := Sort(PeerTexts(peerIds));
    SortSorts(PeerTexts(peerIds));
    assert PeerTexts(peerIds)[0] in multiset(texts);
    JoinedIsGroups(texts);
    var joined, all := Join(texts, ")("), Groups(texts);
    assert all[1..|all| - 1] == joined;
  }

  /** Text that may stand inside one pair of brackets. */
  predicate FitsInGroup(text: string) {
    Nested(text + ")", 1)
  }

  lemma {:induction false} NestedConcat(s: string, t: string, depth: nat)
    requires Nested(s, depth) && IsPeersSuffix(t)
    ensures Nested(s + t, depth)
    decreases |s|
  {
    if s == "" {
      assert s + t == t;
    } else {
      assert (s + t)[1..] == s[1..] + t;
      NestedConcat(s[1..], t, if s[0] == '(' then depth + 1 else if s[0] == ')' then depth - 1 else depth);
    }
  }

  /** Peer groups may hold peer groups of their own, after the text that names the peer. */
  lemma NestedGroup(text: string, inner: string)
    requires BracketFree(text) && IsPeersSuffix(inner)
    ensures IsPeersSuffix("(" + text + inner + ")")
  {
    NestedDeeper(inner, 0);
    NestedAppend(text, inner + ")", 1);
    assert text + inner + ")" == text + (inner + ")");
    GroupIsSuffix(text + inner);
    assert "(" + (text + inner) + ")" == "(" + text + inner + ")";
  }

  lemma {:induction false} NestedDeeper(t: string, depth: nat)
    requires Nested(t, depth)
    ensures Nested(t + ")", depth + 1)
    decreases |t|
  {
    if t == "" {
      assert (t + ")")[1..] == "";
    } else {
      assert (t + ")")[1..] == t[1..] + ")";
      NestedDeeper(t[1..], if t[0] == '(' then depth + 1 else if t[0] == ')' then depth - 1 else depth);
    }
  }

  lemma GroupIsSuffix(text: string)
    requires FitsInGroup(text)
    ensures IsPeersSuffix("(" + text + ")")
  {
    assert ("(" + text + ")")[1..] == text + ")";
  }

  lemma {:induction false} JoinedGroups(texts: seq<string>)
    requires texts != [] && forall t :: t in texts ==> FitsInGroup(t)
    ensures IsPeersSuffix("(" + Join(texts, ")(") + ")")
  {
    GroupIsSuffix(texts[0]);
    if |texts| > 1 {
      JoinedGroups(texts[1..]);
      var first, rest := "(" + texts[0] + ")", "(" + Join(texts[1..], ")(") + ")";
      NestedConcat(first, rest, 0);
      assert first + rest == "(" + Join(texts, ")(") + ")";
    }
  }

  /** What the printer appends for peers is always a peers suffix, so paths built with it parse back. */
  lemma PeersDirSuffixIsSuffix(shortHash: string -> string, peerIds: seq<PeerId>, maxLength: nat)
    requires forall p :: p in peerIds ==> FitsInGroup(PeerText(p))
    requires forall s :: BracketFree(shortHash(s))
    ensures IsPeersSuffix(CreatePeersDirSuffix(shortHash, peerIds, maxLength))
  {
    hide Sort, FitsInGroup, IsPeersSuffix, BracketFree;
    var texts := PeerTexts(peerIds);
    var dirName := Join(Sort(texts), ")(");
    if |dirName| > maxLength {
      HashGroup(shortHash(dirName));
    } else if Sort(texts) == [] {
      HashGroup("");
    } else {
      SortedFit(texts);
      JoinedGroups(Sort(texts));
    }
  }

  lemma SortedFit(texts: seq<string>)
    requires forall i :: 0 <= i < |texts| ==> FitsInGroup(texts[i])
    ensures forall t :: t in Sort(texts) ==> FitsInGroup(t)
  {
    hide FitsInGroup, Sort;
    forall t | t in Sort(texts) ensures FitsInGroup(t) {
      assert t in multiset(Sort(texts));
      assert t in multiset(texts);
    }
  }

  lemma HashGroup(h: string)
    requires BracketFree(h)
    ensures IsPeersSuffix("(" + h + ")")
  {
    NestedAppend(h, ")", 1);
    assert ")"[1..] == "";
    GroupIsSuffix(h);
  }

  /** The suffix depends on which peers there are, not on the order they are listed in. */
  lemma PeersOrderIrrelevant(shortHash: string -> string, xs: seq<PeerId>, ys: seq<PeerId>, maxLength: nat)
    requires multiset(PeerTexts(xs)) == multiset(PeerTexts(ys))
    ensures CreatePeersDirSuffix(shortHash, xs, maxLength) == CreatePeersDirSuffix(shortHash, ys, maxLength)
  {
    SortSorts(PeerTexts(xs));
    SortSorts(PeerTexts(ys));
    SortedUnique(Sort(PeerTexts(xs)), Sort(PeerTexts(ys)));
  }
}
