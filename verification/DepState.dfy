/** The memoised dependency state of packages/calc-dep-state: the tree of package ids below a package, cut
  * off where an id repeats that of an ancestor, with one cache shared by all calls.
  */
module DepState {
  import opened Digraph
  import opened Records
  import opened Lockfile

  type PkgId(==,!new)

  /** `children` lists the dep paths of the children in the order in which the code visits them. */
  datatype DepsGraphNode = DepsGraphNode(children: seq<DepPath>, pkgId: PkgId)

  type DepsGraph = map<DepPath, DepsGraphNode>

  /** A state object; sorting its keys, as the code does before hashing, does not change the value. */
  datatype State = State(children: map<PkgId, State>)

  type Cache = map<DepPath, State>

  const NOTHING := State(map[])

  function Ids(g: DepsGraph): set<PkgId> {
    set d | d in g :: g[d].pkgId
  }

  /** What every recursive call lowers, on cyclic graphs too. */
  function Measure(g: DepsGraph, d: DepPath, parents: set<PkgId>): nat {
    2 * |Ids(g) - parents| + (if d in g && g[d].pkgId in parents then 1 else 0)
  }

  lemma MeasureDrops(g: DepsGraph, d: DepPath, child: DepPath, parents: set<PkgId>)
    requires d in g && child in g && g[child].pkgId !in parents
    ensures Measure(g, child, parents + {g[d].pkgId}) < Measure(g, d, parents)
  {
    var id := g[d].pkgId;
    if id in parents {
      assert parents + {id} == parents;
    } else {
      assert Ids(g) - parents == Ids(g) - (parents + {id}) + {id};
    }
  }

  // ----- Without a cache -----

  function Unfold(g: DepsGraph, d: DepPath, parents: set<PkgId>): State
    decreases Measure(g, d, parents), 1, 0
  {
    if d !in g then NOTHING else State(UnfoldChildren(g, d, g[d].children, parents))
  }

  function UnfoldChildren(g: DepsGraph, d: DepPath, children: seq<DepPath>, parents: set<PkgId>): map<PkgId, State>
    requires d in g
    decreases Measure(g, d, parents), 0, |children|
  {
    if children == [] then map[]
    else
      var state, child := UnfoldChildren(g, d, children[..|children| - 1], parents), children[|children| - 1];
      if child !in g then state
      else if g[child].pkgId in parents then state[g[child].pkgId := NOTHING]
      else
        MeasureDrops(g, d, child, parents);
        state[g[child].pkgId := Unfold(g, child, parents + {g[d].pkgId})]
  }

  // ----- With the cache -----

  function Memo(g: DepsGraph, d: DepPath, cache: Cache, parents: set<PkgId>): (State, Cache)
    decreases Measure(g, d, parents), 1, 0
  {
    if d in cache then (cache[d], cache)
    else if d !in g then (NOTHING, cache)
    else
      var (state, after) := MemoChildren(g, d, g[d].children, cache, parents);
      (State(state), after[d := State(state)])
  }

  function MemoChildren(g: DepsGraph, d: DepPath, children: seq<DepPath>, cache: Cache, parents: set<PkgId>)
    : (map<PkgId, State>, Cache)
    requires d in g
    decreases Measure(g, d, parents), 0, |children|
  {
    if children == [] then (map[], cache)
    else
      var (state, cache1) := MemoChildren(g, d, children[..|children| - 1], cache, parents);
      var child := children[|children| - 1];
      if child !in g then (state, cache1)
      else if g[child].pkgId in parents then (state[g[child].pkgId := NOTHING], cache1)
      else
        MeasureDrops(g, d, child, parents);
        var (below, cache2) := Memo(g, child, cache1, parents + {g[d].pkgId});
        (state[g[child].pkgId := below], cache2)
  }

  class DepsStateCache {
    const graph: DepsGraph
    var cache: Cache

    constructor (graph: DepsGraph)
      ensures this.graph == graph && cache == map[]
    {
      this.graph, cache := graph, map[];
    }

    method CalcDepStateObj(depPath: DepPath, parents: set<PkgId>) returns (r: State)
      modifies this
      ensures (r, cache) == Memo(graph, depPath, old(cache), parents)
      decreases Measure(graph, depPath, parents)
    {
      if depPath in cache {
        return cache[depPath];
      }
      if depPath !in graph {
        return NOTHING;
      }
      var node := graph[depPath];
      var nextParents := parents + {node.pkgId};
      var state: map<PkgId, State> := map[];
      var i := 0;
      while i < |node.children|
        invariant 0 <= i <= |node.children|
        invariant (state, cache) == MemoChildren(graph, depPath, node.children[..i], old(cache), parents)
      {
        var childId := node.children[i];
        assert node.children[..i + 1][..i] == node.children[..i];
        i := i + 1;
        if childId !in graph {
          continue;
        }
        var child := graph[childId];
        if child.pkgId in parents {
          state := state[child.pkgId := NOTHING];
          continue;
        }
        MeasureDrops(graph, depPath, childId, parents);
        var below := CalcDepStateObj(childId, nextParents);
        state := state[child.pkgId := below];
      }
      assert node.children[..i] == node.children;
      r := State(state);
      cache := cache[depPath := r];
    }
  }

  // ----- Below a package -----

  ghost function Edges(g: DepsGraph): Graph<DepPath> {
    map d | d in g :: Elems(g[d].children)
  }

  /** `e` lies below `d`, at least one edge away. */
  ghost predicate IsBelow(g: DepsGraph, d: DepPath, e: DepPath) {
    Reaches(Edges(g), Succ(Edges(g), d), e)
  }

  ghost predicate InDown(g: DepsGraph, d: DepPath, e: DepPath) {
    e == d || IsBelow(g, d, e)
  }

  ghost function ChildIds(g: DepsGraph, children: seq<DepPath>): set<PkgId> {
    set c | c in children && c in g :: g[c].pkgId
  }

  /** The package has no child in the graph, so that its state is empty. */
  ghost predicate IsLeaf(g: DepsGraph, d: DepPath)
    requires d in g
  {
    ChildIds(g, g[d].children) == {}
  }

  lemma ChildBelow(g: DepsGraph, d: DepPath, child: DepPath)
    requires d in g && child in g[d].children
    ensures IsBelow(g, d, child)
    ensures forall e {:trigger IsBelow(g, child, e)} :: IsBelow(g, child, e) ==> IsBelow(g, d, e)
  {
    hide Reaches;
    var h := Edges(g);
    assert child in Succ(h, d);
    ReachesRoot(h, Succ(h, d), child);
    forall e | IsBelow(g, child, e) ensures IsBelow(g, d, e) {
      forall c | c in Succ(h, child) ensures Reaches(h, Succ(h, d), c) {
        ReachesStep(h, Succ(h, d), child, c);
      }
      ReachesTrans(h, Succ(h, d), Succ(h, child), e);
    }
  }

  lemma BelowChild(g: DepsGraph, d: DepPath, m: DepPath, e: DepPath)
    requires IsBelow(g, d, m) && m in g && e in g[m].children
    ensures IsBelow(g, d, e)
  {
    hide Reaches;
    assert e in Succ(Edges(g), m);
    ReachesStep(Edges(g), Succ(Edges(g), d), m, e);
  }

  // ----- The keys of a state, on every graph -----

  ghost predicate KeysOk(g: DepsGraph, cache: Cache) {
    forall d :: d in cache ==> d in g && cache[d].children.Keys == ChildIds(g, g[d].children)
  }

  /** Cyclic or not, cached or not, the state of a package has the ids of its known children as keys. */
  lemma {:induction false} MemoKeys(g: DepsGraph, d: DepPath, cache: Cache, parents: set<PkgId>)
    requires KeysOk(g, cache)
    ensures KeysOk(g, Memo(g, d, cache, parents).1)
    ensures Memo(g, d, cache, parents).0.children.Keys == if d in g then ChildIds(g, g[d].children) else {}
    decreases Measure(g, d, parents), 1, 0
  {
    if d !in cache && d in g {
      MemoChildrenKeys(g, d, g[d].children, cache, parents);
    }
  }

  lemma {:induction false} MemoChildrenKeys(
    g: DepsGraph, d: DepPath, children: seq<DepPath>, cache: Cache, parents: set<PkgId>)
    requires d in g && KeysOk(g, cache)
    ensures KeysOk(g, MemoChildren(g, d, children, cache, parents).1)
    ensures MemoChildren(g, d, children, cache, parents).0.Keys == ChildIds(g, children)
    decreases Measure(g, d, parents), 0, |children|
  {
    if children != [] {
      var init, child := children[..|children| - 1], children[|children| - 1];
      assert children == init + [child];
      MemoChildrenKeys(g, d, init, cache, parents);
      assert ChildIds(g, children) == ChildIds(g, init) + if child in g then {g[child].pkgId} else {};
      if child in g && g[child].pkgId !in parents {
        MeasureDrops(g, d, child, parents);
        MemoKeys(g, child, MemoChildren(g, d, init, cache, parents).1, parents + {g[d].pkgId});
      }
    }
  }

  lemma {:induction false} UnfoldKeys(g: DepsGraph, d: DepPath, parents: set<PkgId>)
    ensures Unfold(g, d, parents).children.Keys == if d in g then ChildIds(g, g[d].children) else {}
    decreases Measure(g, d, parents), 1, 0
  {
    if d in g {
      UnfoldChildrenKeys(g, d, g[d].children, parents);
    }
  }

  lemma {:induction false} UnfoldChildrenKeys(g: DepsGraph, d: DepPath, children: seq<DepPath>, parents: set<PkgId>)
    requires d in g
    ensures UnfoldChildren(g, d, children, parents).Keys == ChildIds(g, children)
    decreases Measure(g, d, parents), 0, |children|
  {
    if children != [] {
      var init, child := children[..|children| - 1], children[|children| - 1];
      assert children == init + [child];
      UnfoldChildrenKeys(g, d, init, parents);
      assert ChildIds(g, children) == ChildIds(g, init) + if child in g then {g[child].pkgId} else {};
    }
  }

  lemma LeafUnfolds(g: DepsGraph, d: DepPath, parents: set<PkgId>)
    requires d in g && IsLeaf(g, d)
    ensures Unfold(g, d, parents) == NOTHING
  {
    UnfoldKeys(g, d, parents);
    assert Unfold(g, d, parents).children == map[];
  }

  // ----- What a state shows -----

  /** `ids` leads down through the nested states. */
  ghost predicate InState(state: State, ids: seq<PkgId>)
    decreases |ids|
  {
    ids == [] || (ids[0] in state.children && InState(state.children[ids[0]], ids[1..]))
  }

  /** Of the children of `d` with this id in the graph, `child` is the last. */
  ghost predicate IsLast(g: DepsGraph, d: DepPath, child: DepPath)
    requires d in g
  {
    && child in g
    && exists i :: 0 <= i < |g[d].children| && g[d].children[i] == child &&
         forall j :: i < j < |g[d].children| && g[d].children[j] in g ==> g[g[d].children[j]].pkgId != g[child].pkgId
  }

  /** A way down the graph, always to the last child with an id, that goes on from no package whose id occurs among
    * `parents` or on the way before the package just above.
    */
  ghost predicate IsWay(g: DepsGraph, parents: set<PkgId>, p: seq<DepPath>) {
    && p != [] && (forall i :: 0 <= i < |p| ==> p[i] in g)
    && (forall i :: 0 <= i < |p| - 1 ==> IsLast(g, p[i], p[i + 1]))
    && (forall i :: 1 <= i < |p| - 1 ==> g[p[i]].pkgId !in parents)
    && (forall i, j :: 0 <= j && j + 2 <= i < |p| - 1 ==> g[p[i]].pkgId != g[p[j]].pkgId)
  }

  ghost function IdsOf(g: DepsGraph, p: seq<DepPath>): (r: seq<PkgId>)
    requires forall i :: 0 <= i < |p| ==> p[i] in g
    ensures |r| == |p| && forall i :: 0 <= i < |p| ==> r[i] == g[p[i]].pkgId
  {
    seq(|p|, i requires 0 <= i < |p| => g[p[i]].pkgId)
  }

  /** Some way from `d` has these ids below `d`. */
  ghost predicate HasWay(g: DepsGraph, d: DepPath, parents: set<PkgId>, ids: seq<PkgId>) {
    exists p: seq<DepPath> :: IsWay(g, parents, p) && p[0] == d && IdsOf(g, p[1..]) == ids
  }

  /** The state under an id is that of the last child with this id, or empty where it is cut off. */
  lemma {:induction false} UnfoldAt(g: DepsGraph, d: DepPath, k: nat, i: nat, parents: set<PkgId>)
    requires d in g && i < k <= |g[d].children| && g[d].children[i] in g
    requires forall j :: i < j < k && g[d].children[j] in g ==> g[g[d].children[j]].pkgId != g[g[d].children[i]].pkgId
    ensures var child := g[d].children[i];
            var state := UnfoldChildren(g, d, g[d].children[..k], parents);
            && g[child].pkgId in state
            && (g[child].pkgId in parents ==> state[g[child].pkgId] == NOTHING)
            && (g[child].pkgId !in parents ==> state[g[child].pkgId] == Unfold(g, child, parents + {g[d].pkgId}))
  {
    hide Unfold, Measure;
    assert g[d].children[..k][..k - 1] == g[d].children[..k - 1];
    if i < k - 1 {
      UnfoldAt(g, d, k - 1, i, parents);
      var last := g[d].children[k - 1];
      if last in g && g[last].pkgId !in parents {
        MeasureDrops(g, d, last, parents);
      }
    } else if g[g[d].children[i]].pkgId !in parents {
      MeasureDrops(g, d, g[d].children[i], parents);
    }
  }

  lemma UnfoldAtLast(g: DepsGraph, d: DepPath, child: DepPath, parents: set<PkgId>)
    requires d in g && IsLast(g, d, child)
    ensures var state, id := Unfold(g, d, parents).children, g[child].pkgId;
            && id in state
            && (id in parents ==> state[id] == NOTHING)
            && (id !in parents ==> state[id] == Unfold(g, child, parents + {g[d].pkgId}))
  {
    var i :| 0 <= i < |g[d].children| && g[d].children[i] == child &&
      forall j :: i < j < |g[d].children| && g[d].children[j] in g ==> g[g[d].children[j]].pkgId != g[child].pkgId;
    assert g[d].children[..|g[d].children|] == g[d].children;
    UnfoldAt(g, d, |g[d].children|, i, parents);
  }

  lemma LastExists(g: DepsGraph, d: DepPath, k: nat, id: PkgId) returns (i: nat)
    requires d in g && k <= |g[d].children| && id in ChildIds(g, g[d].children[..k])
    ensures i < k && g[d].children[i] in g && g[g[d].children[i]].pkgId == id
    ensures forall j :: i < j < k && g[d].children[j] in g ==> g[g[d].children[j]].pkgId != id
    decreases k
  {
    var last := g[d].children[k - 1];
    if last in g && g[last].pkgId == id {
      i := k - 1;
    } else {
      var c :| c in g[d].children[..k] && c in g && g[c].pkgId == id;
      assert c in g[d].children[..k - 1];
      i := LastExists(g, d, k - 1, id);
    }
  }

  lemma LastChild(g: DepsGraph, d: DepPath, parents: set<PkgId>, id: PkgId) returns (child: DepPath)
    requires d in g && id in Unfold(g, d, parents).children
    ensures IsLast(g, d, child) && g[child].pkgId == id
  {
    UnfoldKeys(g, d, parents);
    assert g[d].children[..|g[d].children|] == g[d].children;
    var i := LastExists(g, d, |g[d].children|, id);
    child := g[d].children[i];
  }

  lemma WayTail(g: DepsGraph, parents: set<PkgId>, p: seq<DepPath>)
    requires IsWay(g, parents, p) && |p| > 1
    ensures IsWay(g, parents + {g[p[0]].pkgId}, p[1..])
  {
    var q, more := p[1..], parents + {g[p[0]].pkgId};
    forall i | 0 <= i < |q| - 1 ensures IsLast(g, q[i], q[i + 1]) {
      assert IsLast(g, p[i + 1], p[i + 1 + 1]);
    }
    forall i | 1 <= i < |q| - 1 ensures g[q[i]].pkgId !in more {
      assert 0 + 2 <= i + 1 < |p| - 1;
    }
    forall i, j | 0 <= j && j + 2 <= i < |q| - 1 ensures g[q[i]].pkgId != g[q[j]].pkgId {
      assert (j + 1) + 2 <= i + 1 < |p| - 1;
    }
  }

  lemma WayFrom(g: DepsGraph, parents: set<PkgId>, d: DepPath, q: seq<DepPath>)
    requires d in g && IsWay(g, parents + {g[d].pkgId}, q) && IsLast(g, d, q[0])
    requires |q| > 1 ==> g[q[0]].pkgId !in parents
    ensures IsWay(g, parents, [d] + q)
  {
    var p := [d] + q;
    forall i | 0 <= i < |p| - 1 ensures IsLast(g, p[i], p[i + 1]) {
      if i > 0 {
        assert IsLast(g, q[i - 1], q[i - 1 + 1]);
      }
    }
    forall i, j | 0 <= j && j + 2 <= i < |p| - 1 ensures g[p[i]].pkgId != g[p[j]].pkgId {
      if j > 0 {
        assert (j - 1) + 2 <= i - 1 < |q| - 1;
      } else {
        assert 1 <= i - 1 < |q| - 1;
      }
    }
  }

  /** On every graph a state shows exactly the ways down the graph, by their ids. */
  lemma {:induction false} StateShowsWays(g: DepsGraph, d: DepPath, parents: set<PkgId>, ids: seq<PkgId>)
    requires d in g
    ensures InState(Unfold(g, d, parents), ids) <==> HasWay(g, d, parents, ids)
    decreases |ids|
  {
    hide Unfold, IsLast;
    if ids == [] {
      assert IsWay(g, parents, [d]) && IdsOf(g, [d][1..]) == ids;
    } else {
      if InState(Unfold(g, d, parents), ids) {
        WayInState(g, d, parents, ids);
      }
      if HasWay(g, d, parents, ids) {
        var p: seq<DepPath> :| IsWay(g, parents, p) && p[0] == d && IdsOf(g, p[1..]) == ids;
        var child, q := p[1], p[1..];
        assert IsLast(g, p[0], p[0 + 1]);
        UnfoldAtLast(g, d, child, parents);
        WayTail(g, parents, p);
        assert IdsOf(g, q[1..]) == ids[1..];
        if g[child].pkgId !in parents {
          StateShowsWays(g, child, parents + {g[d].pkgId}, ids[1..]);
          assert HasWay(g, child, parents + {g[d].pkgId}, ids[1..]);
        } else {
          assert |p| == 2;
        }
      }
    }
  }

  lemma {:induction false} WayInState(g: DepsGraph, d: DepPath, parents: set<PkgId>, ids: seq<PkgId>)
    requires d in g && ids != [] && InState(Unfold(g, d, parents), ids)
    ensures HasWay(g, d, parents, ids)
    decreases |ids|, 0
  {
    hide Unfold, IsLast;
    var child := LastChild(g, d, parents, ids[0]);
    IsLastKnown(g, d, child);
    UnfoldAtLast(g, d, child, parents);
    var q := [child];
    assert IsWay(g, parents + {g[d].pkgId}, q) && IdsOf(g, q[1..]) == [];
    if ids[1..] != [] {
      assert g[child].pkgId !in parents;
      StateShowsWays(g, child, parents + {g[d].pkgId}, ids[1..]);
      q :| IsWay(g, parents + {g[d].pkgId}, q) && q[0] == child && IdsOf(g, q[1..]) == ids[1..];
    }
    WayFrom(g, parents, d, q);
    var p := [d] + q;
    assert p[1..] == q && IdsOf(g, q) == [ids[0]] + IdsOf(g, q[1..]) == ids;
  }

  lemma IsLastKnown(g: DepsGraph, d: DepPath, child: DepPath)
    requires d in g && IsLast(g, d, child)
    ensures child in g && child in g[d].children
  {
  }

  // ----- Where the cache is harmless -----

  /** Below `r`, another package `z` has a child that repeats the id of `r` and has children of its own: under `r`
    * that child is cut off, and `z` is cached without what lies below it.
    */
  ghost predicate Harmful(g: DepsGraph, r: DepPath, z: DepPath, e: DepPath) {
    && r in g && z in g && e in g
    && r != z && IsBelow(g, r, z) && e in g[z].children
    && g[e].pkgId == g[r].pkgId && !IsLeaf(g, e)
  }

  ghost predicate Harmless(g: DepsGraph) {
    forall r, z, e :: !Harmful(g, r, z, e)
  }

  /** No package has a package with its own id below it. */
  ghost predicate NoIdRepeats(g: DepsGraph) {
    forall d, e {:trigger IsBelow(g, d, e)} :: d in g && e in g && IsBelow(g, d, e) ==> g[d].pkgId != g[e].pkgId
  }

  lemma NoRepeatsIsHarmless(g: DepsGraph)
    requires NoIdRepeats(g)
    ensures Harmless(g)
  {
    forall r, z, e ensures !Harmful(g, r, z, e) {
      if Harmful(g, r, z, e) {
        BelowChild(g, r, z, e);
        assert false;
      }
    }
  }

  /** No package has two different children with one id. */
  ghost predicate SiblingsDiffer(g: DepsGraph) {
    forall d, c, e {:trigger c in g[d].children, e in g[d].children} ::
      d in g && c in g && e in g && c in g[d].children && e in g[d].children && g[c].pkgId == g[e].pkgId ==> c == e
  }

  /** Some path of edges from `d` between packages of the graph has these ids below `d`. */
  ghost predicate HasPath(g: DepsGraph, d: DepPath, ids: seq<PkgId>) {
    exists p: seq<DepPath> ::
      IsPath(Edges(g), p) && p[0] == d && (forall i :: 0 <= i < |p| ==> p[i] in g) && IdsOf(g, p[1..]) == ids
  }

  /** Where no id repeats below a package or among siblings, a state shows exactly the paths of the graph. */
  lemma StateShowsPaths(g: DepsGraph, d: DepPath, ids: seq<PkgId>)
    requires NoIdRepeats(g) && SiblingsDiffer(g) && d in g
    ensures InState(Unfold(g, d, {}), ids) <==> HasPath(g, d, ids)
  {
    hide Unfold, InState, IsLast, NoIdRepeats, SiblingsDiffer;
    StateShowsWays(g, d, {}, ids);
    if HasWay(g, d, {}, ids) {
      var p: seq<DepPath> :| IsWay(g, {}, p) && p[0] == d && IdsOf(g, p[1..]) == ids;
      WayIsPath(g, p);
    }
    if HasPath(g, d, ids) {
      var p: seq<DepPath> :|
        IsPath(Edges(g), p) && p[0] == d && (forall i :: 0 <= i < |p| ==> p[i] in g) && IdsOf(g, p[1..]) == ids;
      PathIsWay(g, p);
    }
  }

  /** In particular the id of every package below `d` occurs in the state of `d`. */
  lemma BelowShows(g: DepsGraph, d: DepPath, e: DepPath)
    requires NoIdRepeats(g) && SiblingsDiffer(g) && d in g && e in g && IsBelow(g, d, e)
    ensures exists ids :: InState(Unfold(g, d, {}), ids) && ids != [] && ids[|ids| - 1] == g[e].pkgId
  {
    hide Unfold, InState, NoIdRepeats, SiblingsDiffer;
    var h := Edges(g);
    var q :| PathFromTo(h, q, Succ(h, d), e);
    var p := [d] + q;
    forall i | 0 <= i < |p| - 1 ensures p[i + 1] in Succ(h, p[i]) {
      if i > 0 {
        assert q[i - 1 + 1] in Succ(h, q[i - 1]);
      }
    }
    forall i | 0 <= i < |p| ensures p[i] in g {
      if i < |p| - 1 {
        assert p[i + 1] in Succ(h, p[i]);
      }
    }
    var ids := IdsOf(g, p[1..]);
    assert HasPath(g, d, ids);
    StateShowsPaths(g, d, ids);
  }

  lemma WayIsPath(g: DepsGraph, p: seq<DepPath>)
    requires IsWay(g, {}, p)
    ensures IsPath(Edges(g), p) && forall i :: 0 <= i < |p| ==> p[i] in g
  {
    hide IsLast;
    forall i | 0 <= i < |p| - 1 ensures p[i + 1] in Succ(Edges(g), p[i]) {
      assert IsLast(g, p[i], p[i + 1]);
      IsLastKnown(g, p[i], p[i + 1]);
    }
  }

  lemma PathIsWay(g: DepsGraph, p: seq<DepPath>)
    requires NoIdRepeats(g) && SiblingsDiffer(g)
    requires IsPath(Edges(g), p) && forall i :: 0 <= i < |p| ==> p[i] in g
    ensures IsWay(g, {}, p)
  {
    hide IsLast, NoIdRepeats, SiblingsDiffer;
    forall i | 0 <= i < |p| - 1 ensures IsLast(g, p[i], p[i + 1]) {
      assert p[i + 1] in Succ(Edges(g), p[i]);
      OnlyChild(g, p[i], p[i + 1]);
    }
    forall i, j | 0 <= j && j + 2 <= i < |p| - 1 ensures g[p[i]].pkgId != g[p[j]].pkgId {
      LaterIsBelow(g, p, j, i);
      NoRepeatBelow(g, p[j], p[i]);
    }
  }

  lemma OnlyChild(g: DepsGraph, d: DepPath, child: DepPath)
    requires SiblingsDiffer(g) && d in g && child in g && child in g[d].children
    ensures IsLast(g, d, child)
  {
    assert g[d].children[..|g[d].children|] == g[d].children;
    var i := LastExists(g, d, |g[d].children|, g[child].pkgId);
    assert g[d].children[i] in g[d].children && child in g[d].children;
  }

  lemma NoRepeatBelow(g: DepsGraph, d: DepPath, e: DepPath)
    requires NoIdRepeats(g) && d in g && e in g && IsBelow(g, d, e)
    ensures g[d].pkgId != g[e].pkgId
  {
  }

  lemma LaterIsBelow(g: DepsGraph, p: seq<DepPath>, j: nat, i: nat)
    requires IsPath(Edges(g), p) && j < i < |p|
    ensures IsBelow(g, p[j], p[i])
  {
    var q := p[j + 1..i + 1];
    forall k | 0 <= k < |q| - 1 ensures q[k + 1] in Succ(Edges(g), q[k]) {
      assert p[j + 1 + k + 1] in Succ(Edges(g), p[j + 1 + k]);
    }
    assert p[j + 1] in Succ(Edges(g), p[j]);
    assert PathFromTo(Edges(g), q, Succ(Edges(g), p[j]), p[i]);
  }

  /** Whatever repeats one of the ids `parents` below `d` is a leaf. */
  ghost predicate Clear(g: DepsGraph, d: DepPath, parents: set<PkgId>) {
    forall e {:trigger IsBelow(g, d, e)} :: e in g && IsBelow(g, d, e) && g[e].pkgId in parents ==> IsLeaf(g, e)
  }

  /** The same, but for the package's own id. */
  ghost predicate NearlyClear(g: DepsGraph, d: DepPath, parents: set<PkgId>)
    requires d in g
  {
    Clear(g, d, parents - {g[d].pkgId})
  }

  /** Nothing below another child leads back to `d`, and what repeats its id there is a leaf. */
  lemma NothingComesBack(g: DepsGraph, d: DepPath, child: DepPath)
    requires Harmless(g) && d in g && child in g && child in g[d].children && child != d
    ensures !IsBelow(g, child, d) && Clear(g, child, {g[d].pkgId})
  {
    hide Reaches, Harmless;
    var h := Edges(g);
    ChildBelow(g, d, child);
    assert !IsLeaf(g, d) by {
      assert g[child].pkgId in ChildIds(g, g[d].children);
    }
    var inv := (n: DepPath) => n != d && IsBelow(g, d, n) && (n in g && g[n].pkgId == g[d].pkgId ==> IsLeaf(g, n));
    forall m, n | m in g && m != d && IsBelow(g, d, m) && n in Succ(h, m) ensures inv(n) {
      BelowChild(g, d, m, n);
      if n in g {
        NotHarmful(g, d, m, n);
      }
    }
    forall e | IsBelow(g, child, e) ensures inv(e) {
      ReachesInvariant(h, Succ(h, child), inv, e);
    }
  }

  lemma NotHarmful(g: DepsGraph, r: DepPath, z: DepPath, e: DepPath)
    requires Harmless(g)
    ensures !Harmful(g, r, z, e)
  {
  }

  lemma ChildIsNearlyClear(g: DepsGraph, d: DepPath, child: DepPath, parents: set<PkgId>)
    requires Harmless(g) && d in g && child in g && child in g[d].children && NearlyClear(g, d, parents)
    ensures NearlyClear(g, child, parents + {g[d].pkgId})
    ensures child != d ==> Clear(g, child, {g[d].pkgId}) && !IsBelow(g, child, d)
  {
    hide IsBelow, IsLeaf, Harmless;
    ChildBelow(g, d, child);
    if child != d {
      NothingComesBack(g, d, child);
    }
  }

  /** The ancestors passed along do not matter, but for whether the package's own id is among them; and not even
    * that if only leaves repeat it below.
    */
  lemma {:induction false} UnfoldSame(g: DepsGraph, d: DepPath, p: set<PkgId>, q: set<PkgId>)
    requires Harmless(g) && d in g && NearlyClear(g, d, p) && NearlyClear(g, d, q)
    requires (g[d].pkgId in p <==> g[d].pkgId in q) || Clear(g, d, {g[d].pkgId})
    ensures Unfold(g, d, p) == Unfold(g, d, q)
    decreases Measure(g, d, p) + Measure(g, d, q), 1, 0
  {
    assert g[d].children[..|g[d].children|] == g[d].children;
    UnfoldChildrenSame(g, d, |g[d].children|, p, q);
  }

  lemma {:induction false} UnfoldChildrenSame(g: DepsGraph, d: DepPath, k: nat, p: set<PkgId>, q: set<PkgId>)
    requires Harmless(g) && d in g && k <= |g[d].children| && NearlyClear(g, d, p) && NearlyClear(g, d, q)
    requires (g[d].pkgId in p <==> g[d].pkgId in q) || Clear(g, d, {g[d].pkgId})
    ensures UnfoldChildren(g, d, g[d].children[..k], p) == UnfoldChildren(g, d, g[d].children[..k], q)
    decreases Measure(g, d, p) + Measure(g, d, q), 0, k
  {
    hide Harmless, IsBelow, IsLeaf, Measure, Unfold;
    if k > 0 {
      var child := g[d].children[k - 1];
      assert g[d].children[..k][..k - 1] == g[d].children[..k - 1];
      UnfoldChildrenSame(g, d, k - 1, p, q);
      if child in g {
        var id := g[d].pkgId;
        ChildBelow(g, d, child);
        if g[child].pkgId !in p && g[child].pkgId !in q {
          ChildIsNearlyClear(g, d, child, p);
          ChildIsNearlyClear(g, d, child, q);
          MeasureDrops(g, d, child, p);
          MeasureDrops(g, d, child, q);
          UnfoldSame(g, child, p + {id}, q + {id});
        } else if g[child].pkgId !in p || g[child].pkgId !in q {
          assert IsLeaf(g, child);
          LeafUnfolds(g, child, p + {id});
          LeafUnfolds(g, child, q + {id});
        }
      }
    }
  }

  ghost predicate Accurate(g: DepsGraph, cache: Cache) {
    forall d :: d in cache ==> cache[d] == Unfold(g, d, {})
  }

  /** The entries at and below `d` are accurate. */
  ghost predicate AccurateDown(g: DepsGraph, d: DepPath, cache: Cache) {
    forall e {:trigger InDown(g, d, e)} :: e in cache && InDown(g, d, e) ==> cache[e] == Unfold(g, e, {})
  }

  ghost predicate SameOutside(g: DepsGraph, d: DepPath, before: Cache, after: Cache) {
    forall e {:trigger InDown(g, d, e)} :: !InDown(g, d, e) ==>
      (e in before <==> e in after) && (e in before ==> before[e] == after[e])
  }

  /** What the call leaves: the entry of `d` is its result, the others at and below it are accurate. */
  ghost predicate Computed(g: DepsGraph, d: DepPath, before: Cache, after: Cache, r: State) {
    && SameOutside(g, d, before, after)
    && (forall e {:trigger InDown(g, d, e)} :: e in after && InDown(g, d, e) && e != d ==> after[e] == Unfold(g, e, {}))
    && (d in after ==> after[d] == r)
  }

  /** With accurate entries below it, a package gets its uncached state, and the entries below stay accurate. Only
    * a package that lists itself is cached with a cut-off state for the time its own call takes.
    */
  lemma {:induction false} MemoIsUnfold(g: DepsGraph, d: DepPath, cache: Cache, parents: set<PkgId>)
    requires Harmless(g) && AccurateDown(g, d, cache)
    requires d in g ==> NearlyClear(g, d, parents)
    requires d in g && d in cache ==> g[d].pkgId !in parents || Clear(g, d, {g[d].pkgId})
    ensures Memo(g, d, cache, parents).0 == Unfold(g, d, parents)
    ensures Computed(g, d, cache, Memo(g, d, cache, parents).1, Unfold(g, d, parents))
    decreases Measure(g, d, parents), 1, 0
  {
    hide Harmless, IsBelow, IsLeaf, Measure, Clear;
    if d in cache {
      if d in g {
        NoParentsClear(g, d);
        UnfoldSame(g, d, parents, {});
      }
      assert InDown(g, d, d) && Unfold(g, d, parents) == Unfold(g, d, {});
    } else if d in g {
      assert g[d].children[..|g[d].children|] == g[d].children;
      MemoChildrenIsUnfold(g, d, |g[d].children|, cache, parents);
    }
  }

  lemma NoParentsClear(g: DepsGraph, d: DepPath)
    requires d in g
    ensures NearlyClear(g, d, {})
  {
  }

  /** What the loop over the children of `d` has done to the cache; an entry of `d` itself is the cut-off one. */
  ghost predicate Progress(g: DepsGraph, d: DepPath, before: Cache, after: Cache, parents: set<PkgId>)
    requires d in g
  {
    && SameOutside(g, d, before, after)
    && (forall e {:trigger InDown(g, d, e)} :: e in after && InDown(g, d, e) && e != d ==> after[e] == Unfold(g, e, {}))
    && (d in after ==> g[d].pkgId !in parents && after[d] == Unfold(g, d, parents + {g[d].pkgId}))
  }

  lemma {:induction false} MemoChildrenIsUnfold(g: DepsGraph, d: DepPath, k: nat, cache: Cache, parents: set<PkgId>)
    requires Harmless(g) && d in g && k <= |g[d].children| && NearlyClear(g, d, parents)
    requires AccurateDown(g, d, cache) && d !in cache
    ensures MemoChildren(g, d, g[d].children[..k], cache, parents).0 ==
            UnfoldChildren(g, d, g[d].children[..k], parents)
    ensures Progress(g, d, cache, MemoChildren(g, d, g[d].children[..k], cache, parents).1, parents)
    decreases Measure(g, d, parents), 0, k
  {
    hide Harmless, InDown, IsLeaf, Measure, NearlyClear, Memo, Unfold, Progress;
    if k == 0 {
      NothingDone(g, d, cache, parents);
    } else {
      var child := g[d].children[k - 1];
      assert g[d].children[..k][..k - 1] == g[d].children[..k - 1];
      MemoChildrenIsUnfold(g, d, k - 1, cache, parents);
      if child in g && g[child].pkgId !in parents {
        var cache1 := MemoChildren(g, d, g[d].children[..k - 1], cache, parents).1;
        MeasureDrops(g, d, child, parents);
        if child == d && d in cache1 {
          OwnEntry(g, d, cache, cache1, parents);
        } else {
          CallFits(g, d, child, cache, cache1, parents);
          MemoIsUnfold(g, child, cache1, parents + {g[d].pkgId});
          ChildProgress(g, d, child, cache, cache1, Memo(g, child, cache1, parents + {g[d].pkgId}).1, parents);
        }
      }
    }
  }

  lemma NothingDone(g: DepsGraph, d: DepPath, cache: Cache, parents: set<PkgId>)
    requires d in g && AccurateDown(g, d, cache) && d !in cache
    ensures Progress(g, d, cache, cache, parents)
  {
  }

  /** A package that lists itself twice finds its cut-off entry the second time. */
  lemma OwnEntry(g: DepsGraph, d: DepPath, before: Cache, cache: Cache, parents: set<PkgId>)
    requires d in g && d in cache && Progress(g, d, before, cache, parents)
    ensures Memo(g, d, cache, parents + {g[d].pkgId}) == (Unfold(g, d, parents + {g[d].pkgId}), cache)
  {
    hide Unfold;
  }

  /** The call for a child that is not cut off meets the conditions of `MemoIsUnfold`. */
  lemma CallFits(g: DepsGraph, d: DepPath, child: DepPath, before: Cache, cache: Cache, parents: set<PkgId>)
    requires Harmless(g) && d in g && child in g && child in g[d].children && NearlyClear(g, d, parents)
    requires g[child].pkgId !in parents && Progress(g, d, before, cache, parents) && (child == d ==> d !in cache)
    ensures var below := parents + {g[d].pkgId};
            && AccurateDown(g, child, cache) && NearlyClear(g, child, below)
            && (child in cache ==> g[child].pkgId !in below || Clear(g, child, {g[child].pkgId}))
            && (child != d ==> Unfold(g, child, below) == Unfold(g, child, {}))
  {
    hide Harmless, IsBelow, IsLeaf, Measure, Clear, Unfold;
    var below := parents + {g[d].pkgId};
    ChildIsNearlyClear(g, d, child, parents);
    ChildBelow(g, d, child);
    if child != d {
      NoParentsClear(g, child);
      UnfoldSame(g, child, below, {});
    }
    forall e | e in cache && InDown(g, child, e) ensures cache[e] == Unfold(g, e, {}) {
      assert InDown(g, d, e);
    }
  }

  lemma ChildProgress(
    g: DepsGraph, d: DepPath, child: DepPath, before: Cache, cache: Cache, after: Cache, parents: set<PkgId>)
    requires Harmless(g) && d in g && child in g && child in g[d].children && NearlyClear(g, d, parents)
    requires g[child].pkgId !in parents && Progress(g, d, before, cache, parents)
    requires Computed(g, child, cache, after, Unfold(g, child, parents + {g[d].pkgId}))
    requires child != d ==> Unfold(g, child, parents + {g[d].pkgId}) == Unfold(g, child, {})
    ensures Progress(g, d, before, after, parents)
  {
    hide Harmless, IsBelow, IsLeaf, Measure, Clear, Unfold;
    ChildIsNearlyClear(g, d, child, parents);
    ChildBelow(g, d, child);
    forall e | e in after && InDown(g, d, e) && e != d ensures after[e] == Unfold(g, e, {}) {
      assert InDown(g, child, e) || !InDown(g, child, e);
    }
    forall e | !InDown(g, d, e) ensures (e in before <==> e in after) && (e in before ==> before[e] == after[e]) {
      assert !InDown(g, child, e);
    }
    assert child != d ==> !InDown(g, child, d);
  }

  // ----- Calls sharing one cache -----

  function RunCalls(g: DepsGraph, calls: seq<DepPath>): (r: (seq<State>, Cache))
    ensures |r.0| == |calls|
  {
    if calls == [] then ([], map[])
    else
      var (results, cache) := RunCalls(g, calls[..|calls| - 1]);
      var (r, after) := Memo(g, calls[|calls| - 1], cache, {});
      (results + [r], after)
  }

  /** On every harmless graph: whatever calls were made before, each call returns what it would have returned alone. */
  lemma {:induction false} CallsAreIndependent(g: DepsGraph, calls: seq<DepPath>)
    requires Harmless(g)
    ensures |RunCalls(g, calls).0| == |calls| && Accurate(g, RunCalls(g, calls).1)
    ensures forall i :: 0 <= i < |calls| ==> RunCalls(g, calls).0[i] == Unfold(g, calls[i], {})
  {
    hide Harmless, IsBelow, Unfold, Memo;
    if calls != [] {
      var init, last := calls[..|calls| - 1], calls[|calls| - 1];
      CallsAreIndependent(g, init);
      var cache := RunCalls(g, init).1;
      if last in g {
        NoParentsClear(g, last);
      }
      MemoIsUnfold(g, last, cache, {});
      var after := Memo(g, last, cache, {}).1;
      forall d | d in after ensures after[d] == Unfold(g, d, {}) {
        assert InDown(g, last, d) || !InDown(g, last, d);
      }
    }
  }

  // ----- Where it is not -----

  /** Children of one package with one id agree on having children of their own. */
  ghost predicate SiblingsAgree(g: DepsGraph) {
    forall d, c, e {:trigger c in g[d].children, e in g[d].children} ::
      d in g && c in g && e in g && c in g[d].children && e in g[d].children && g[c].pkgId == g[e].pkgId ==>
        (IsLeaf(g, c) <==> IsLeaf(g, e))
  }

  /** Uncached and from the top, a child that has children is not cut off. */
  lemma {:induction false} UnfoldShows(g: DepsGraph, d: DepPath, k: nat, child: DepPath)
    requires SiblingsAgree(g) && d in g && k <= |g[d].children| && child in g[d].children[..k] && child in g
    requires !IsLeaf(g, child)
    ensures var state := UnfoldChildren(g, d, g[d].children[..k], {});
            g[child].pkgId in state && state[g[child].pkgId] != NOTHING
  {
    hide Unfold, Measure;
    var last := g[d].children[k - 1];
    assert g[d].children[..k][..k - 1] == g[d].children[..k - 1];
    if last in g && g[last].pkgId == g[child].pkgId {
      assert last in g[d].children && child in g[d].children;
      UnfoldKeys(g, last, {} + {g[d].pkgId});
      assert Unfold(g, last, {} + {g[d].pkgId}).children.Keys != {};
    } else {
      assert child in g[d].children[..k - 1];
      UnfoldShows(g, d, k - 1, child);
    }
  }

  /** Under `r`, a child of `d` has been cached or cut off; cut off for certain if it repeats the id of `r`. */
  ghost predicate ChildHandled(
    g: DepsGraph, r: DepPath, d: DepPath, child: DepPath, state: map<PkgId, State>, cache: Cache)
    requires r in g && child in g
  {
    && g[child].pkgId in state
    && (child in cache || state[g[child].pkgId] == NOTHING)
    && (d != r && g[child].pkgId == g[r].pkgId ==> state[g[child].pkgId] == NOTHING)
  }

  ghost predicate CutUnder(g: DepsGraph, r: DepPath, cache: Cache)
    requires r in g
  {
    forall d, child {:trigger cache[d], g[child]} :: d in cache && child in g ==>
      d in g && (child in g[d].children ==> ChildHandled(g, r, d, child, cache[d].children, cache))
  }

  lemma {:induction false} MemoCuts(g: DepsGraph, r: DepPath, d: DepPath, cache: Cache, parents: set<PkgId>)
    requires r in g && CutUnder(g, r, cache) && (d == r || g[r].pkgId in parents)
    ensures var after := Memo(g, d, cache, parents).1;
            CutUnder(g, r, after) && cache.Keys <= after.Keys && (d in g ==> d in after)
    decreases Measure(g, d, parents), 1, 0
  {
    hide Measure;
    if d !in cache && d in g {
      MemoChildrenCut(g, r, d, g[d].children, cache, parents);
      var (state, after) := MemoChildren(g, d, g[d].children, cache, parents);
      forall child | child in g && child in g[d].children
        ensures ChildHandled(g, r, d, child, state, after[d := State(state)])
      {
        assert ChildDone(g, child, parents, state, after);
      }
    }
  }

  ghost predicate ChildDone(g: DepsGraph, child: DepPath, parents: set<PkgId>, state: map<PkgId, State>, cache: Cache)
    requires child in g
  {
    && g[child].pkgId in state
    && if g[child].pkgId in parents then state[g[child].pkgId] == NOTHING else child in cache
  }

  lemma {:induction false} MemoChildrenCut(
    g: DepsGraph, r: DepPath, d: DepPath, children: seq<DepPath>, cache: Cache, parents: set<PkgId>)
    requires r in g && d in g && CutUnder(g, r, cache) && (d == r || g[r].pkgId in parents)
    ensures var (state, after) := MemoChildren(g, d, children, cache, parents);
            && CutUnder(g, r, after) && cache.Keys <= after.Keys
            && forall child :: child in g && child in children ==> ChildDone(g, child, parents, state, after)
    decreases Measure(g, d, parents), 0, |children|
  {
    hide Measure, CutUnder, Memo;
    if children != [] {
      var init, child := children[..|children| - 1], children[|children| - 1];
      assert children == init + [child];
      MemoChildrenCut(g, r, d, init, cache, parents);
      if child in g && g[child].pkgId !in parents {
        MeasureDrops(g, d, child, parents);
        MemoCuts(g, r, child, MemoChildren(g, d, init, cache, parents).1, parents + {g[d].pkgId});
      }
    }
  }

  /** If each entry left by a call for `r` is what a second call should return, the entries reach down to all
    * packages with children.
    */
  lemma CachedBelow(g: DepsGraph, r: DepPath, cache: Cache, z: DepPath)
    requires SiblingsAgree(g) && r in g && r in cache && CutUnder(g, r, cache) && Accurate(g, cache)
    requires IsBelow(g, r, z) && z in g && !IsLeaf(g, z)
    ensures z in cache
  {
    hide Reaches, IsLeaf, Unfold, SiblingsAgree;
    var h := Edges(g);
    var inv := (n: DepPath) => n in g && !IsLeaf(g, n) ==> n in cache;
    forall m, n | (m in g && !IsLeaf(g, m) ==> m in cache) && n in Succ(h, m) ensures inv(n) {
      if n in g && !IsLeaf(g, n) {
        CachedChild(g, r, cache, m, n);
      }
    }
    forall n | n in Succ(h, r) ensures inv(n) {
      if n in g && !IsLeaf(g, n) {
        CachedChild(g, r, cache, r, n);
      }
    }
    ReachesInvariant(h, Succ(h, r), inv, z);
  }

  lemma CachedChild(g: DepsGraph, r: DepPath, cache: Cache, m: DepPath, n: DepPath)
    requires SiblingsAgree(g) && r in g && CutUnder(g, r, cache) && Accurate(g, cache)
    requires m in g && n in g && n in g[m].children && !IsLeaf(g, n) && (!IsLeaf(g, m) ==> m in cache)
    ensures n in cache
  {
    hide SiblingsAgree;
    assert g[n].pkgId in ChildIds(g, g[m].children);
    assert cache[m] == Unfold(g, m, {}) && ChildHandled(g, r, m, n, cache[m].children, cache);
    UnfoldShowsAll(g, m, n);
  }

  lemma UnfoldShowsAll(g: DepsGraph, d: DepPath, child: DepPath)
    requires SiblingsAgree(g) && d in g && child in g[d].children && child in g && !IsLeaf(g, child)
    ensures var state := Unfold(g, d, {}).children; g[child].pkgId in state && state[g[child].pkgId] != NOTHING
  {
    hide SiblingsAgree, IsLeaf;
    assert g[d].children[..|g[d].children|] == g[d].children;
    UnfoldShows(g, d, |g[d].children|, child);
  }

  ghost predicate Independent(g: DepsGraph, calls: seq<DepPath>) {
    forall i {:trigger RunCalls(g, calls).0[i]} :: 0 <= i < |calls| ==>
      RunCalls(g, calls).0[i] == Unfold(g, calls[i], {})
  }

  /** A harmful repetition shows in two calls, the first of them for the package whose id is repeated. */
  lemma HarmShows(g: DepsGraph, r: DepPath, z: DepPath, e: DepPath) returns (second: DepPath)
    requires SiblingsAgree(g) && Harmful(g, r, z, e)
    ensures !Independent(g, [r, second])
  {
    hide IsBelow, Unfold, SiblingsAgree, Memo;
    var cache := Memo(g, r, map[], {}).1;
    MemoCuts(g, r, r, map[], {});
    if Accurate(g, cache) {
      assert !IsLeaf(g, z) by {
        assert g[e].pkgId in ChildIds(g, g[z].children);
      }
      CachedBelow(g, r, cache, z);
      assert ChildHandled(g, r, z, e, cache[z].children, cache);
      UnfoldShowsAll(g, z, e);
      assert false;
    }
    second :| second in cache && cache[second] != Unfold(g, second, {});
    SecondCall(g, r, second);
  }

  lemma SecondCall(g: DepsGraph, r: DepPath, x: DepPath)
    requires x in Memo(g, r, map[], {}).1
    ensures RunCalls(g, [r, x]).0[1] == Memo(g, r, map[], {}).1[x]
  {
    hide MemoChildren;
    assert [r, x][..1] == [r] && [r][..0] == [];
    assert RunCalls(g, [r]).1 == Memo(g, r, map[], {}).1;
  }

  /** Exactly the harmless graphs let every sequence of calls share one cache. */
  lemma IndependentIffHarmless(g: DepsGraph)
    requires SiblingsAgree(g)
    ensures (forall calls :: Independent(g, calls)) <==> Harmless(g)
  {
    hide SiblingsAgree, Harmful, Independent;
    if Harmless(g) {
      forall calls ensures Independent(g, calls) {
        AllIndependent(g, calls);
      }
    } else {
      var r, z, e :| Harmful(g, r, z, e);
      var second := HarmShows(g, r, z, e);
    }
  }

  lemma AllIndependent(g: DepsGraph, calls: seq<DepPath>)
    requires Harmless(g)
    ensures Independent(g, calls)
  {
    CallsAreIndependent(g, calls);
  }

  /** The smallest case: on a cycle of two packages the second call sees a state that the first call cut off. */
  lemma CycleSpoilsCache(a: DepPath, b: DepPath, ia: PkgId, ib: PkgId)
    requires a != b && ia != ib
    ensures var g: DepsGraph := map[a := DepsGraphNode([b], ia), b := DepsGraphNode([a], ib)];
            RunCalls(g, [a, b]).0[1] != Unfold(g, b, {})
  {
    var g: DepsGraph := map[a := DepsGraphNode([b], ia), b := DepsGraphNode([a], ib)];
    assert [a, b][..1] == [a] && [a][..0] == [] && [b][..0] == [] && {} + {ib} == {ib} && {} + {ia} == {ia};
    assert UnfoldChildren(g, a, [b], {ib}) == map[ib := NOTHING];
    assert UnfoldChildren(g, b, [a], {}) == map[ia := State(map[ib := NOTHING])];
    var cut := State(map[ia := NOTHING]);
    assert MemoChildren(g, b, [a], map[], {ia}) == (map[ia := NOTHING], map[]);
    assert Memo(g, b, map[], {ia}) == (cut, map[b := cut]);
    assert MemoChildren(g, a, [b], map[], {}) == (map[ib := cut], map[b := cut]);
    assert RunCalls(g, [a]) == RunCalls(g, [] + [a]);
    assert b in RunCalls(g, [a]).1 && RunCalls(g, [a]).1[b] == cut;
    assert RunCalls(g, [a, b]).0[1] == cut;
    assert NOTHING.children.Keys != State(map[ib := NOTHING]).children.Keys by {
      assert ib in State(map[ib := NOTHING]).children.Keys;
    }
    assert cut.children[ia] == NOTHING;
  }

  // ----- From a lockfile -----

  /** `idOf` stands for `getPkgIdWithPatchHash`. */
  method LockfileToDepGraph(rd: Reading, idOf: DepPath -> PkgId, lockfile: LockfileObject) returns (graph: DepsGraph)
    ensures var packages := if lockfile.packages.Some? then lockfile.packages.value else map[];
            && Edges(graph) == MergedEdges(rd, packages, true)
            && forall d :: d in graph ==> graph[d].pkgId == idOf(d)
  {
    hide DepPathsOf, MergedDeps;
    graph := map[];
    if lockfile.packages == None {
      return;
    }
    var packages := lockfile.packages.value;
    var entries := Entries(packages);
    var i := 0;
    while i < |entries|
      invariant 0 <= i <= |entries|
      invariant forall k :: 0 <= k < i ==> entries[k].0 in graph
      invariant graph.Keys <= packages.Keys
      invariant forall d :: d in graph ==> graph[d].pkgId == idOf(d)
      invariant forall d :: d in graph ==> Elems(graph[d].children) == DepPathsOf(rd, MergedDeps(packages[d], true))
    {
      var (depPath, pkgSnapshot) := entries[i];
      var children := ResolvedDepsToDepPaths(rd, MergedDeps(pkgSnapshot, true));
      graph := graph[depPath := DepsGraphNode(children, idOf(depPath))];
      i := i + 1;
    }
    forall d | d in packages ensures d in graph {
      assert (d, packages[d]) in entries;
      var k :| 0 <= k < |entries| && entries[k] == (d, packages[d]);
      assert entries[k].0 == d;
    }
  }
}
