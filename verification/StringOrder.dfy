/** Lexicographic order of strings and sorting by it. */
module StringOrder {

  predicate Leq(a: string, b: string) {
    if a == "" then true
    else if b == "" then false
    else if a[0] == b[0] then Leq(a[1..], b[1..])
    else a[0] < b[0]
  }

  lemma {:induction false} LeqTotal(a: string, b: string)
    ensures Leq(a, b) || Leq(b, a)
    ensures Leq(a, b) && Leq(b, a) ==> a == b
    ensures a == b ==> Leq(a, b)
  {
    if a != "" && b != "" && a[0] == b[0] {
      LeqTotal(a[1..], b[1..]);
      assert a == [a[0]] + a[1..] && b == [b[0]] + b[1..];
    }
  }

  lemma {:induction false} LeqTrans(a: string, b: string, c: string)
    requires Leq(a, b) && Leq(b, c)
    ensures Leq(a, c)
  {
    if a != "" && b != "" && c != "" && a[0] == b[0] == c[0] {
      LeqTrans(a[1..], b[1..], c[1..]);
    }
  }

  /** `a` is the lower at the first place where they differ. */
  ghost predicate LowerAtDifference(a: string, b: string) {
    exists k :: 0 <= k < |a| && k < |b| && a[..k] == b[..k] && a[k] < b[k]
  }

  lemma DifferenceLater(a: string, b: string)
    requires a != "" && b != "" && a[0] == b[0]
    ensures LowerAtDifference(a, b) <==> LowerAtDifference(a[1..], b[1..])
  {
    var s, t := a[1..], b[1..];
    assert a == [a[0]] + s && b == [b[0]] + t;
    if k :| 0 <= k < |s| && k < |t| && s[..k] == t[..k] && s[k] < t[k] {
      assert a[..k + 1] == [a[0]] + s[..k] && b[..k + 1] == [b[0]] + t[..k];
      assert a[k + 1] < b[k + 1];
    }
    if k :| 0 <= k < |a| && k < |b| && a[..k] == b[..k] && a[k] < b[k] {
      assert s[..k - 1] == a[..k][1..] && t[..k - 1] == b[..k][1..];
      assert s[k - 1] < t[k - 1];
    }
  }

  lemma DifferenceFirst(a: string, b: string)
    requires a != "" && b != "" && a[0] != b[0]
    ensures LowerAtDifference(a, b) <==> a[0] < b[0]
  {
    assert a[..0] == b[..0];
    forall k | 0 < k <= |a| && k <= |b| ensures a[..k] != b[..k] {
      assert a[..k][0] == a[0] && b[..k][0] == b[0];
    }
  }

  /** The order compares characters from the left, and a prefix comes first. */
  lemma {:induction false} LeqIsLexicographic(a: string, b: string)
    ensures Leq(a, b) <==> a <= b || LowerAtDifference(a, b)
  {
    hide LowerAtDifference;
    if a == "" || b == "" {
      NoDifference(a, b);
    } else if a[0] == b[0] {
      LeqIsLexicographic(a[1..], b[1..]);
      DifferenceLater(a, b);
      assert a == [a[0]] + a[1..] && b == [b[0]] + b[1..];
    } else {
      DifferenceFirst(a, b);
    }
  }

  lemma NoDifference(a: string, b: string)
    requires a == "" || b == ""
    ensures !LowerAtDifference(a, b)
  {
  }

  ghost predicate Sorted(s: seq<string>) {
    forall i, j :: 0 <= i < j < |s| ==> Leq(s[i], s[j])
  }

  function Insert(s: seq<string>, x: string): (r: seq<string>)
    ensures multiset(r) == multiset(s) + multiset{x}
  {
    if s == [] then [x]
    else if Leq(x, s[0]) then [x] + s
    else
      assert s == [s[0]] + s[1..];
      [s[0]] + Insert(s[1..], x)
  }

  function Sort(s: seq<string>): (r: seq<string>)
    ensures multiset(r) == multiset(s)
  {
    if s == [] then []
    else
      assert s == [s[0]] + s[1..];
      Insert(Sort(s[1..]), s[0])
  }

  lemma {:induction false} InsertSorts(s: seq<string>, x: string)
    requires Sorted(s)
    ensures Sorted(Insert(s, x))
  {
    if s != [] {
      LeqTotal(x, s[0]);
      if Leq(x, s[0]) {
        forall i | 0 <= i < |s| ensures Leq(x, s[i]) {
          if i > 0 {
            LeqTrans(x, s[0], s[i]);
          }
        }
      } else {
        InsertSorts(s[1..], x);
        forall y | y in Insert(s[1..], x) ensures Leq(s[0], y) {
          assert y in multiset(Insert(s[1..], x));
          if y != x {
            assert y in s[1..];
          }
        }
      }
    }
  }

  lemma {:induction false} SortSorts(s: seq<string>)
    ensures Sorted(Sort(s))
  {
    if s != [] {
      SortSorts(s[1..]);
      InsertSorts(Sort(s[1..]), s[0]);
    }
  }

  /** A multiset of strings has one sorted listing. */
  lemma {:induction false} SortedUnique(s: seq<string>, t: seq<string>)
    requires Sorted(s) && Sorted(t) && multiset(s) == multiset(t)
    ensures s == t
  {
    hide Leq;
    if s == [] {
      assert |multiset(t)| == 0;
    } else {
      SameHead(s, t);
      TailSorted(s);
      TailSorted(t);
      assert s == [s[0]] + s[1..] && t == [t[0]] + t[1..];
      assert multiset(s[1..]) == multiset(s) - multiset{s[0]} == multiset(t[1..]);
      SortedUnique(s[1..], t[1..]);
    }
  }

  lemma TailSorted(s: seq<string>)
    requires Sorted(s) && s != []
    ensures Sorted(s[1..])
  {
    hide Leq;
  }

  lemma SameHead(s: seq<string>, t: seq<string>)
    requires Sorted(s) && Sorted(t) && multiset(s) == multiset(t) && s != []
    ensures t != [] && s[0] == t[0]
  {
    hide Leq;
    assert s[0] in multiset(s) && s[0] in multiset(t);
    assert t[0] in multiset(t) && t[0] in multiset(s);
    LeastFirst(s, t[0]);
    LeastFirst(t, s[0]);
    LeqTotal(s[0], t[0]);
  }

  lemma LeastFirst(s: seq<string>, x: string)
    requires Sorted(s) && x in s
    ensures Leq(s[0], x)
  {
    LeqTotal(s[0], s[0]);
  }
}
