/** Finite directed graphs: paths, reachability and simple cycles.
  * Every traversal of the project is specified against `Reaches`, which is defined by the
  * existence of a path and characterised by its three closure lemmas as a least fixed point.
  */
module Digraph {

  type Graph<T> = map<T, set<T>>

  function Succ<T>(g: Graph<T>, n: T): set<T> {
    if n in g then g[n] else {}
  }

  function Elems<T>(s: seq<T>): set<T> {
    set x | x in s
  }

  ghost predicate NoDup<T>(s: seq<T>) {
    forall i, j :: 0 <= i < j < |s| ==> s[i] != s[j]
  }

  lemma ElemsAppend<T>(s: seq<T>, t: seq<T>)
    ensures Elems(s + t) == Elems(s) + Elems(t)
  {
  }

  ghost predicate IsPath<T>(g: Graph<T>, p: seq<T>) {
    && p != []
    && forall i {:trigger Succ(g, p[i])} :: 0 <= i < |p| - 1 ==> p[i + 1] in Succ(g, p[i])
  }

  ghost predicate PathFromTo<T>(g: Graph<T>, p: seq<T>, roots: set<T>, n: T) {
    IsPath(g, p) && p[0] in roots && p[|p| - 1] == n
  }

  /** `n` is one of `roots` or can be reached from one of them along edges of `g`. */
  ghost predicate Reaches<T(!new)>(g: Graph<T>, roots: set<T>, n: T) {
    exists p: seq<T> :: PathFromTo(g, p, roots, n)
  }

  lemma ReachesRoot<T(!new)>(g: Graph<T>, roots: set<T>, n: T)
    requires n in roots
    ensures Reaches(g, roots, n)
  {
    assert PathFromTo(g, [n], roots, n);
  }

  lemma ReachesStep<T(!new)>(g: Graph<T>, roots: set<T>, n: T, m: T)
    requires Reaches(g, roots, n) && m in Succ(g, n)
    ensures Reaches(g, roots, m)
  {
    var p :| PathFromTo(g, p, roots, n);
    assert PathFromTo(g, p + [m], roots, m);
  }

  ghost predicate Closed<T>(g: Graph<T>, s: set<T>) {
    forall n :: n in s ==> Succ(g, n) <= s
  }

  /** Reachability is the least closed set: any closed set holding the roots holds all of it. */
  lemma ReachesInClosed<T(!new)>(g: Graph<T>, roots: set<T>, s: set<T>, n: T)
    requires roots <= s && Closed(g, s)
    requires Reaches(g, roots, n)
    ensures n in s
  {
    var p :| PathFromTo(g, p, roots, n);
    PathStaysIn(g, p, s);
  }

  lemma {:induction false} PathStaysIn<T>(g: Graph<T>, p: seq<T>, s: set<T>)
    requires IsPath(g, p) && p[0] in s && Closed(g, s)
    ensures forall i :: 0 <= i < |p| ==> p[i] in s
  {
    if |p| > 1 {
      var q := p[..|p| - 1];
      PathStaysIn(g, q, s);
      assert q[|q| - 1] in s;
      assert p[|q| - 1 + 1] in Succ(g, p[|q| - 1]);
    }
  }

  /** What can be reached from a reachable set was reachable already. */
  lemma ReachesTrans<T(!new)>(g: Graph<T>, roots: set<T>, mid: set<T>, n: T)
    requires forall m :: m in mid ==> Reaches(g, roots, m)
    requires Reaches(g, mid, n)
    ensures Reaches(g, roots, n)
  {
    var p :| PathFromTo(g, p, mid, n);
    var q :| PathFromTo(g, q, roots, p[0]);
    var r := q + p[1..];
    assert forall i :: 0 <= i < |r| - 1 ==> r[i + 1] in Succ(g, r[i]) by {
      forall i | 0 <= i < |r| - 1 ensures r[i + 1] in Succ(g, r[i]) {
        if i < |q| - 1 {
          assert q[i + 1] in Succ(g, q[i]);
        } else {
          var k := i - (|q| - 1);
          assert p[k + 1] in Succ(g, p[k]);
        }
      }
    }
    assert PathFromTo(g, r, roots, n);
  }

  /** Reachability grows with the edges and with the roots. */
  lemma ReachesMono<T(!new)>(g: Graph<T>, h: Graph<T>, roots: set<T>, more: set<T>, n: T)
    requires roots <= more
    requires forall x :: x in g ==> Succ(g, x) <= Succ(h, x)
    requires Reaches(g, roots, n)
    ensures Reaches(h, more, n)
  {
    var p :| PathFromTo(g, p, roots, n);
    forall i | 0 <= i < |p| - 1 ensures p[i + 1] in Succ(h, p[i]) {
      assert p[i + 1] in Succ(g, p[i]);
    }
    assert PathFromTo(h, p, more, n);
  }

  /** Any property the roots have and the edges keep holds of all that is reachable. */
  lemma ReachesInvariant<T(!new)>(g: Graph<T>, roots: set<T>, inv: T -> bool, n: T)
    requires forall r :: r in roots ==> inv(r)
    requires forall a, b {:trigger b in Succ(g, a)} :: inv(a) && b in Succ(g, a) ==> inv(b)
    requires Reaches(g, roots, n)
    ensures inv(n)
  {
    var p :| PathFromTo(g, p, roots, n);
    PathInvariant(g, p, inv);
  }

  lemma {:induction false} PathInvariant<T(!new)>(g: Graph<T>, p: seq<T>, inv: T -> bool)
    requires IsPath(g, p) && inv(p[0])
    requires forall a, b {:trigger b in Succ(g, a)} :: inv(a) && b in Succ(g, a) ==> inv(b)
    ensures inv(p[|p| - 1])
  {
    if |p| > 1 {
      var q := p[..|p| - 1];
      forall i | 0 <= i < |q| - 1 ensures q[i + 1] in Succ(g, q[i]) {
        assert p[i + 1] in Succ(g, p[i]);
      }
      PathInvariant(g, q, inv);
      assert p[|q| - 1 + 1] in Succ(g, p[|q| - 1]);
    }
  }

  // ----- Walks with a shared set of walked nodes -----

  /** Between `walked0` and `walked1` a walk from `entries` ran to its end: what it added is reachable
    * and has all its successors walked.
    */
  ghost predicate Walk<T(!new)>(g: Graph<T>, entries: set<T>, walked0: set<T>, walked1: set<T>) {
    && walked0 <= walked1
    && forall n {:trigger Reaches(g, entries, n)} {:trigger Succ(g, n)} :: n in walked1 && n !in walked0 ==>
         Reaches(g, entries, n) && Succ(g, n) <= walked1
  }

  lemma WalkNode<T(!new)>(g: Graph<T>, entries: set<T>, n: T, walked0: set<T>, walked1: set<T>)
    requires n in entries && Succ(g, n) <= walked1
    requires Walk(g, Succ(g, n), walked0 + {n}, walked1)
    ensures Walk(g, entries, walked0, walked1)
  {
    ReachesRoot(g, entries, n);
    forall m | m in Succ(g, n) ensures Reaches(g, entries, m) {
      ReachesStep(g, entries, n, m);
    }
    forall m | m in walked1 && m !in walked0 ensures Reaches(g, entries, m) && Succ(g, m) <= walked1 {
      if m != n {
        assert Reaches(g, Succ(g, n), m);
        ReachesTrans(g, entries, Succ(g, n), m);
      }
    }
  }

  lemma WalkTrans<T(!new)>(g: Graph<T>, entries: set<T>, walked0: set<T>, walked1: set<T>, walked2: set<T>)
    requires Walk(g, entries, walked0, walked1) && Walk(g, entries, walked1, walked2)
    ensures Walk(g, entries, walked0, walked2)
  {
    forall n | n in walked2 && n !in walked0 ensures Reaches(g, entries, n) && Succ(g, n) <= walked2 {
      if n in walked1 {
        assert Succ(g, n) <= walked1;
      } else {
        assert Succ(g, n) <= walked2;
      }
    }
  }

  lemma WalkMono<T(!new)>(g: Graph<T>, entries: set<T>, more: set<T>, walked0: set<T>, walked1: set<T>)
    requires entries <= more && Walk(g, entries, walked0, walked1)
    ensures Walk(g, more, walked0, walked1)
  {
    forall n | n in walked1 && n !in walked0 ensures Reaches(g, more, n) && Succ(g, n) <= walked1 {
      assert Reaches(g, entries, n);
      ReachesMono(g, g, entries, more, n);
    }
  }

  /** A finished walk from nothing has walked exactly what its entries reach. */
  lemma WalkComplete<T(!new)>(g: Graph<T>, entries: set<T>, walked: set<T>)
    requires Walk(g, entries, {}, walked) && entries <= walked
    ensures forall n {:trigger n in walked} {:trigger Reaches(g, entries, n)} :: n in walked <==> Reaches(g, entries, n)
  {
    forall n | Reaches(g, entries, n) ensures n in walked {
      forall m | m in walked ensures Succ(g, m) <= walked {
        assert Reaches(g, entries, m);
      }
      ReachesInClosed(g, entries, walked, n);
    }
  }

  // ----- Simple cycles -----

  /** `c` lists the nodes of a simple cycle: a path without repetition whose end leads back to its start. */
  ghost predicate IsCycle<T>(g: Graph<T>, c: seq<T>) {
    IsPath(g, c) && NoDup(c) && c[0] in Succ(g, c[|c| - 1])
  }

  /** The node before `start` on a cycle through it. */
  lemma CyclePredecessor<T>(g: Graph<T>, c: seq<T>, start: T) returns (q: T)
    requires IsCycle(g, c) && start in c
    ensures q in c && start in Succ(g, q)
    ensures |c| >= 2 ==> q != start
  {
    var i :| 0 <= i < |c| && c[i] == start;
    if i == 0 {
      q := c[|c| - 1];
    } else {
      q := c[i - 1];
      assert c[i - 1 + 1] in Succ(g, c[i - 1]);
    }
  }

  /** Going round the cycle from `start`, one never leaves a set closed under the edges inside `live`. */
  lemma CycleStaysIn<T>(g: Graph<T>, c: seq<T>, start: T, s: set<T>, live: set<T>)
    requires IsCycle(g, c) && start in c && start in s && Elems(c) <= live
    requires forall n, m :: n in s && m in Succ(g, n) && m in live ==> m in s
    ensures Elems(c) <= s
  {
    var i :| 0 <= i < |c| && c[i] == start;
    CycleRun(g, c, i, s, live);
    assert c[0] in live;
    CycleRun(g, c, 0, s, live);
  }

  lemma {:induction false} CycleRun<T>(g: Graph<T>, c: seq<T>, lo: nat, s: set<T>, live: set<T>)
    requires IsPath(g, c) && lo < |c| && c[lo] in s && Elems(c) <= live
    requires forall n, m :: n in s && m in Succ(g, n) && m in live ==> m in s
    ensures forall k :: lo <= k < |c| ==> c[k] in s
    decreases |c| - lo
  {
    if lo + 1 < |c| {
      assert c[lo + 1] in Succ(g, c[lo]);
      assert c[lo + 1] in live;
      CycleRun(g, c, lo + 1, s, live);
    }
  }

  ghost predicate HasSuccIn<T>(g: Graph<T>, n: T, r: set<T>) {
    exists m :: m in Succ(g, n) && m in r
  }

  /** Pigeonhole: if every node of a non-empty set has a successor in the set, the set holds a cycle. */
  lemma CycleExists<T>(g: Graph<T>, r: set<T>) returns (c: seq<T>)
    requires r != {}
    requires forall n {:trigger HasSuccIn(g, n, r)} :: n in r ==> HasSuccIn(g, n, r)
    ensures IsCycle(g, c) && Elems(c) <= r
  {
    var n :| n in r;
    c := ExtendToCycle(g, r, [n]);
  }

  lemma ExtendToCycle<T>(g: Graph<T>, r: set<T>, p: seq<T>) returns (c: seq<T>)
    requires forall n {:trigger HasSuccIn(g, n, r)} :: n in r ==> HasSuccIn(g, n, r)
    requires IsPath(g, p) && NoDup(p) && Elems(p) <= r
    ensures IsCycle(g, c) && Elems(c) <= r
    decreases r - Elems(p)
  {
    var last := p[|p| - 1];
    assert last in Elems(p) && HasSuccIn(g, last, r);
    var m :| m in Succ(g, last) && m in r;
    if m in p {
      var i :| 0 <= i < |p| && p[i] == m;
      c := p[i..];
      LoopCloses(g, p, i);
    } else {
      ExtendPath(g, p, m);
      assert m in r - Elems(p) && m in Elems(p + [m]);
      assert Elems(p) <= Elems(p + [m]);
      c := ExtendToCycle(g, r, p + [m]);
    }
  }

  lemma LoopCloses<T>(g: Graph<T>, p: seq<T>, i: nat)
    requires IsPath(g, p) && NoDup(p) && i < |p| && p[i] in Succ(g, p[|p| - 1])
    ensures IsCycle(g, p[i..]) && Elems(p[i..]) <= Elems(p)
  {
    var c := p[i..];
    forall k | 0 <= k < |c| - 1 ensures c[k + 1] in Succ(g, c[k]) {
      assert p[i + k + 1] in Succ(g, p[i + k]);
    }
  }

  lemma ExtendPath<T>(g: Graph<T>, p: seq<T>, m: T)
    requires IsPath(g, p) && NoDup(p) && m in Succ(g, p[|p| - 1]) && m !in p
    ensures IsPath(g, p + [m]) && NoDup(p + [m]) && Elems(p + [m]) == Elems(p) + {m}
  {
  }

  /** `new Set(items)`: distinct items in order of first occurrence. */
  function Distinct<T(==)>(items: seq<T>): (r: seq<T>)
    ensures NoDup(r) && Elems(r) == Elems(items)
  {
    if items == [] then []
    else
      var init := items[..|items| - 1];
      var last := items[|items| - 1];
      var r := Distinct(init);
      assert items == init + [last];
      ElemsAppend(init, [last]);
      ElemsAppend(r, [last]);
      assert last in r <==> last in Elems(r);
      if last in r then r else r + [last]
  }

  // ----- Sequences of groups -----

  function Flatten<T>(groups: seq<seq<T>>): seq<T> {
    if groups == [] then [] else Flatten(groups[..|groups| - 1]) + groups[|groups| - 1]
  }

  lemma FlattenAppend<T>(groups: seq<seq<T>>, last: seq<T>)
    ensures Flatten(groups + [last]) == Flatten(groups) + last
  {
    assert (groups + [last])[..|groups|] == groups;
  }

  lemma {:induction false} FlattenConcat<T>(xs: seq<seq<T>>, ys: seq<seq<T>>)
    ensures Flatten(xs + ys) == Flatten(xs) + Flatten(ys)
  {
    if ys == [] {
      assert xs + ys == xs;
    } else {
      var zs := ys[..|ys| - 1];
      FlattenConcat(xs, zs);
      assert (xs + ys)[..|xs + ys| - 1] == xs + zs;
    }
  }

  lemma {:induction false} FlattenElems<T>(groups: seq<seq<T>>, x: T)
    ensures x in Flatten(groups) <==> exists k :: 0 <= k < |groups| && x in groups[k]
  {
    if groups != [] {
      var init := groups[..|groups| - 1];
      FlattenElems(init, x);
      if x in Flatten(init) {
        var k :| 0 <= k < |init| && x in init[k];
        assert x in groups[k];
      }
      if k :| 0 <= k < |groups| && x in groups[k] {
        if k < |init| {
          assert x in init[k];
        }
      }
    }
  }
}
