/** Precedence of versions as section 11 of Semantic Versioning 2.0.0 defines it. Build metadata takes no part. */
module SemVer {
  import opened StringOrder

  datatype Identifier = Numeric(n: nat) | Alphanumeric(s: string)

  datatype Version = Version(major: nat, minor: nat, patch: nat, prerelease: seq<Identifier>)

  predicate Below(a: Identifier, b: Identifier) {
    match (a, b)
    case (Numeric(m), Numeric(n)) => m < n
    case (Numeric(_), Alphanumeric(_)) => true
    case (Alphanumeric(_), Numeric(_)) => false
    case (Alphanumeric(s), Alphanumeric(t)) => s != t && Leq(s, t)
  }

  /** Field by field; of two lists with a common start the longer one is higher. */
  predicate ListBelow(a: seq<Identifier>, b: seq<Identifier>) {
    if b == [] then false
    else if a == [] then true
    else if a[0] == b[0] then ListBelow(a[1..], b[1..])
    else Below(a[0], b[0])
  }

  /** A pre-release is lower than the release itself. */
  predicate PrereleaseBelow(a: seq<Identifier>, b: seq<Identifier>) {
    if a == [] then false else if b == [] then true else ListBelow(a, b)
  }

  predicate Gt(a: Version, b: Version) {
    if a.major != b.major then a.major > b.major
    else if a.minor != b.minor then a.minor > b.minor
    else if a.patch != b.patch then a.patch > b.patch
    else PrereleaseBelow(b.prerelease, a.prerelease)
  }

  lemma BelowOrder(a: Identifier, b: Identifier, c: Identifier)
    ensures !Below(a, a)
    ensures a != b ==> Below(a, b) || Below(b, a)
    ensures Below(a, b) && Below(b, c) ==> Below(a, c)
    ensures Below(a, b) ==> !Below(b, a)
  {
    if a.Alphanumeric? && b.Alphanumeric? {
      LeqTotal(a.s, b.s);
      if c.Alphanumeric? {
        LeqTotal(b.s, c.s);
        LeqTotal(a.s, c.s);
        if Leq(a.s, b.s) && Leq(b.s, c.s) {
          LeqTrans(a.s, b.s, c.s);
        }
      }
    }
  }

  lemma {:induction false} ListOrder(a: seq<Identifier>, b: seq<Identifier>, c: seq<Identifier>)
    ensures !ListBelow(a, a)
    ensures a != b ==> ListBelow(a, b) || ListBelow(b, a)
    ensures ListBelow(a, b) && ListBelow(b, c) ==> ListBelow(a, c)
    decreases |a| + |b| + |c|
  {
    hide Below;
    if a != [] {
      if b != [] {
        assert a == [a[0]] + a[1..] && b == [b[0]] + b[1..];
        BelowOrder(a[0], b[0], if c == [] then a[0] else c[0]);
        ListOrder(a[1..], b[1..], if c == [] then [] else c[1..]);
      } else {
        ListOrder(a[1..], [], []);
      }
    }
  }

  /** Precedence is a strict total order on versions without build metadata. */
  lemma GtOrder(a: Version, b: Version, c: Version)
    ensures !Gt(a, a)
    ensures a != b ==> Gt(a, b) || Gt(b, a)
    ensures Gt(a, b) && Gt(b, c) ==> Gt(a, c)
  {
    hide ListBelow;
    ListOrder(a.prerelease, b.prerelease, c.prerelease);
    ListOrder(c.prerelease, b.prerelease, a.prerelease);
  }

  // ----- The rules of section 11 -----

  /** Rules 11.4.1 to 11.4.3: numbers by value, other identifiers by their text, numbers below the others. */
  ghost predicate LowerIdentifier(a: Identifier, b: Identifier) {
    || (a.Numeric? && b.Numeric? && a.n < b.n)
    || (a.Numeric? && b.Alphanumeric?)
    || (a.Alphanumeric? && b.Alphanumeric? && a.s != b.s && (a.s <= b.s || LowerAtDifference(a.s, b.s)))
  }

  /** Rule 11.4: decided at the first identifier that differs; rule 11.4.4: otherwise the shorter list is lower. */
  ghost predicate LowerPrerelease(a: seq<Identifier>, b: seq<Identifier>) {
    || a < b
    || exists k :: 0 <= k < |a| && k < |b| && a[..k] == b[..k] && LowerIdentifier(a[k], b[k])
  }

  lemma BelowIsLower(a: Identifier, b: Identifier)
    ensures Below(a, b) <==> LowerIdentifier(a, b)
  {
    if a.Alphanumeric? && b.Alphanumeric? {
      LeqIsLexicographic(a.s, b.s);
    }
  }

  lemma {:induction false} ListBelowIsLower(a: seq<Identifier>, b: seq<Identifier>)
    ensures ListBelow(a, b) <==> LowerPrerelease(a, b)
  {
    hide Below, LowerIdentifier;
    if a != [] && b != [] {
      if a[0] == b[0] {
        ListBelowIsLower(a[1..], b[1..]);
        assert a == [a[0]] + a[1..] && b == [b[0]] + b[1..];
        var s, t := a[1..], b[1..];
        if k :| 0 <= k < |s| && k < |t| && s[..k] == t[..k] && LowerIdentifier(s[k], t[k]) {
          assert a[..k + 1] == [a[0]] + a[1..][..k] && b[..k + 1] == [b[0]] + b[1..][..k];
          assert LowerIdentifier(a[k + 1], b[k + 1]);
        }
        if k :| 0 <= k < |a| && k < |b| && a[..k] == b[..k] && LowerIdentifier(a[k], b[k]) {
          if k == 0 {
            BelowIsLower(a[0], b[0]);
            BelowOrder(a[0], a[0], a[0]);
          } else {
            assert a[1..][..k - 1] == a[..k][1..] && b[1..][..k - 1] == b[..k][1..];
            assert LowerIdentifier(a[1..][k - 1], b[1..][k - 1]);
          }
        }
      } else {
        BelowIsLower(a[0], b[0]);
        assert a[..0] == b[..0];
        forall k | 0 < k <= |a| && k <= |b| ensures a[..k] != b[..k] {
          assert a[..k][0] == a[0] && b[..k][0] == b[0];
        }
      }
    }
  }

  /** Rules 11.2 and 11.3: major, minor and patch decide in this order; then a release is above its pre-releases. */
  lemma PrecedenceRules(a: Version, b: Version)
    ensures Gt(a, b) <==>
      || a.major > b.major
      || (a.major == b.major && a.minor > b.minor)
      || (a.major == b.major && a.minor == b.minor && a.patch > b.patch)
      || (a.major == b.major && a.minor == b.minor && a.patch == b.patch && b.prerelease != [] &&
          (a.prerelease == [] || LowerPrerelease(b.prerelease, a.prerelease)))
  {
    hide ListBelow, LowerPrerelease;
    ListBelowIsLower(b.prerelease, a.prerelease);
  }
}
