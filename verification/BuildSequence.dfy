/** Selection of the packages that need building, from exec/build-modules, and their schedule. */
module BuildSequence {
  import opened Digraph
  import opened GraphSequencer
  import opened Records

  type DepPath = string

  datatype GraphNode = GraphNode(children: map<string, DepPath>, requiresBuild: bool, patch: Option<string>)
  {
    predicate Needy() {
      requiresBuild || patch.Some?
    }
  }

  type DependenciesGraph = map<DepPath, GraphNode>

  /** Child edges; a child that is not a key of the graph is already in node_modules. */
  ghost function Children(graph: DependenciesGraph): Graph<DepPath> {
    map d | d in graph :: graph[d].children.Values
  }

  ghost predicate NeedyAmong(graph: DependenciesGraph, ds: set<DepPath>) {
    exists d :: d in ds && d in graph && graph[d].Needy()
  }

  ghost predicate ReachesNeedy(graph: DependenciesGraph, d: DepPath) {
    exists m :: m in graph && graph[m].Needy() && Reaches(Children(graph), {d}, m)
  }

  /** The edges between selected packages, which `buildSequence` hands to the sequencer. */
  ghost function Selected(graph: DependenciesGraph, nodes: set<DepPath>): Graph<DepPath> {
    map d | d in nodes && d in graph :: graph[d].children.Values * nodes
  }

  /** Reached from selected entries through selected packages only. */
  ghost predicate ReachedSelected(graph: DependenciesGraph, entries: set<DepPath>, nodes: set<DepPath>, n: DepPath) {
    Reaches(Selected(graph, nodes), entries * nodes, n)
  }

  /** What one call of the selection adds: from (`walked0`, `build0`) to (`walked1`, `build1`). */
  ghost predicate Grown(
    graph: DependenciesGraph, entries: set<DepPath>,
    walked0: set<DepPath>, build0: seq<DepPath>, walked1: set<DepPath>, build1: seq<DepPath>)
  {
    && walked0 <= walked1 <= walked0 + graph.Keys
    && build0 <= build1 && NoDup(build1)
    && Elems(build1) <= Elems(build0) + (walked1 - walked0)
    && (forall n :: n in walked1 - walked0 ==> WalkedOk(graph, entries, walked1, Elems(build1), n))
    && (Elems(build1) != Elems(build0) ==> NeedyAmong(graph, walked1 - walked0))
  }

  /** What holds of a package walked by the call, once `walked` and `build` are the packages walked and selected. */
  ghost predicate WalkedOk(
    graph: DependenciesGraph, entries: set<DepPath>, walked: set<DepPath>, build: set<DepPath>, n: DepPath)
  {
    && Reaches(Children(graph), entries, n)
    && Succ(Children(graph), n) * graph.Keys <= walked
    && (n in graph && graph[n].Needy() ==> n in build)
    && (n in build ==> ReachesNeedy(graph, n) && ReachedSelected(graph, entries, build, n))
  }

  class BuildSelection {
    const graph: DependenciesGraph
    var nodesToBuild: seq<DepPath>
    var walked: set<DepPath>

    constructor (graph: DependenciesGraph)
      ensures this.graph == graph && nodesToBuild == [] && walked == {}
    {
      this.graph, nodesToBuild, walked := graph, [], {};
    }

    /** Depth-first walk with a shared walked set; tells whether this call met a node that needs building. */
    method GetSubgraphToBuild(entryNodes: seq<DepPath>) returns (currentShouldBeBuilt: bool)
      requires NoDup(nodesToBuild) && Elems(nodesToBuild) <= walked
      modifies this
      ensures Grown(graph, Elems(entryNodes), old(walked), old(nodesToBuild), walked, nodesToBuild)
      ensures Elems(entryNodes) * graph.Keys <= walked
      ensures currentShouldBeBuilt <==> NeedyAmong(graph, walked - old(walked))
      decreases graph.Keys - walked
    {
      currentShouldBeBuilt := false;
      var i := 0;
      while i < |entryNodes|
        invariant 0 <= i <= |entryNodes|
        invariant Grown(graph, Elems(entryNodes), old(walked), old(nodesToBuild), walked, nodesToBuild)
        invariant Elems(nodesToBuild) <= walked
        invariant Elems(entryNodes[..i]) * graph.Keys <= walked
        invariant currentShouldBeBuilt <==> NeedyAmong(graph, walked - old(walked))
      {
        var depPath := entryNodes[i];
        assert entryNodes[..i + 1] == entryNodes[..i] + [depPath];
        ElemsAppend(entryNodes[..i], [depPath]);
        i := i + 1;
        if depPath !in graph {
          continue;
        }
        if depPath in walked {
          continue;
        }
        ghost var w, b := walked, nodesToBuild;
        var node := graph[depPath];
        walked := walked + {depPath};
        var children := Values(node.children);
        var childShouldBeBuilt := GetSubgraphToBuild(children);
        childShouldBeBuilt := childShouldBeBuilt || node.requiresBuild || node.patch != None;
        NodeDone(graph, Elems(entryNodes), depPath, w, b, walked, nodesToBuild, childShouldBeBuilt);
        if childShouldBeBuilt {
          nodesToBuild := nodesToBuild + [depPath];
          currentShouldBeBuilt := true;
        }
        GrownTrans(graph, Elems(entryNodes), old(walked), old(nodesToBuild), w, b, walked, nodesToBuild);
      }
      assert entryNodes[..i] == entryNodes;
    }
  }

  lemma NodeDone(
    graph: DependenciesGraph, entries: set<DepPath>, d: DepPath,
    walked0: set<DepPath>, build0: seq<DepPath>, walked1: set<DepPath>, build1: seq<DepPath>, selected: bool)
    requires d in graph && d in entries && d !in walked0 && Elems(build0) <= walked0
    requires Grown(graph, graph[d].children.Values, walked0 + {d}, build0, walked1, build1)
    requires graph[d].children.Values * graph.Keys <= walked1
    requires selected <==> NeedyAmong(graph, walked1 - walked0)
    ensures Grown(graph, entries, walked0, build0, walked1, if selected then build1 + [d] else build1)
  {
    hide WalkedOk, NoDup, NeedyAmong, Reaches;
    ghost var build2 := if selected then build1 + [d] else build1;
    assert d !in Elems(build1);
    if selected {
      ElemsAppend(build1, [d]);
      AppendFresh(build1, d);
    }
    NeedyMore(graph, walked1 - (walked0 + {d}), walked1 - walked0);
    assert !selected ==> Elems(build1) == Elems(build0);
    forall n | n in walked1 - walked0 - {d} ensures Reaches(Children(graph), graph[d].children.Values, n) {
      WalkedIsReached(graph, graph[d].children.Values, walked1, Elems(build1), n);
    }
    forall n | n in walked1 - walked0 ensures WalkedOk(graph, entries, walked1, Elems(build2), n) {
      if n == d {
        NodeOk(graph, entries, d, walked0, walked1, Elems(build2), selected);
      } else {
        BelowOk(graph, entries, d, walked1, Elems(build1), Elems(build2), n);
      }
    }
  }

  lemma AppendFresh(s: seq<DepPath>, d: DepPath)
    requires NoDup(s) && d !in Elems(s)
    ensures NoDup(s + [d])
  {
  }

  lemma NeedyMore(graph: DependenciesGraph, ds: set<DepPath>, more: set<DepPath>)
    requires ds <= more
    ensures NeedyAmong(graph, ds) ==> NeedyAmong(graph, more)
  {
  }

  lemma WalkedIsReached(
    graph: DependenciesGraph, entries: set<DepPath>, walked: set<DepPath>, build: set<DepPath>, n: DepPath)
    requires WalkedOk(graph, entries, walked, build, n)
    ensures Reaches(Children(graph), entries, n)
  {
  }

  /** The node itself: it is selected if the call met a needy node, and then it reaches one. */
  lemma NodeOk(
    graph: DependenciesGraph, entries: set<DepPath>, d: DepPath, walked0: set<DepPath>, walked1: set<DepPath>,
    build: set<DepPath>, selected: bool)
    requires d in graph && d in entries && d in walked1 && d !in walked0
    requires graph[d].children.Values * graph.Keys <= walked1 && (d in build <==> selected)
    requires selected <==> NeedyAmong(graph, walked1 - walked0)
    requires forall n :: n in walked1 - walked0 - {d} ==> Reaches(Children(graph), graph[d].children.Values, n)
    ensures WalkedOk(graph, entries, walked1, build, d)
  {
    hide Reaches;
    var g := Children(graph);
    ReachesRoot(g, entries, d);
    ReachesRoot(g, {d}, d);
    forall m | m in Succ(g, d) ensures Reaches(g, {d}, m) {
      ReachesStep(g, {d}, d, m);
    }
    forall n | n in walked1 - walked0 - {d} ensures Reaches(g, {d}, n) {
      ReachesTrans(g, {d}, Succ(g, d), n);
    }
    if selected {
      ReachesRoot(Selected(graph, build), entries * build, d);
    }
  }

  /** A node walked below `d`: if it is selected, so is `d`, and the way to it leads on from `d`. */
  lemma BelowOk(
    graph: DependenciesGraph, entries: set<DepPath>, d: DepPath, walked: set<DepPath>,
    build1: set<DepPath>, build2: set<DepPath>, n: DepPath)
    requires d in graph && d in entries && n != d
    requires WalkedOk(graph, graph[d].children.Values, walked, build1, n)
    requires build1 <= build2 <= build1 + {d} && (n in build1 ==> d in build2)
    ensures WalkedOk(graph, entries, walked, build2, n)
  {
    hide Reaches, ReachesNeedy;
    var g := Children(graph);
    var children := graph[d].children.Values;
    ReachesRoot(g, entries, d);
    forall m | m in Succ(g, d) ensures Reaches(g, entries, m) {
      ReachesStep(g, entries, d, m);
    }
    ReachesTrans(g, entries, children, n);
    if n in build1 {
      var h := Selected(graph, build2);
      ReachesRoot(h, entries * build2, d);
      forall m | m in children * build1 ensures Reaches(h, entries * build2, m) {
        ReachesStep(h, entries * build2, d, m);
      }
      SelectedMore(graph, children, build1, build2, n);
      ReachesMono(Selected(graph, build1), h, children * build1, children * build1, n);
      ReachesTrans(h, entries * build2, children * build1, n);
    }
  }

  lemma SelectedMore(
    graph: DependenciesGraph, entries: set<DepPath>, build1: set<DepPath>, build2: set<DepPath>, n: DepPath)
    requires build1 <= build2
    ensures forall x :: x in Selected(graph, build1) ==>
      Succ(Selected(graph, build1), x) <= Succ(Selected(graph, build2), x)
    ensures ReachedSelected(graph, entries, build1, n) ==> ReachedSelected(graph, entries, build2, n)
  {
    hide Reaches;
    if ReachedSelected(graph, entries, build1, n) {
      ReachesMono(Selected(graph, build1), Selected(graph, build2), entries * build1, entries * build2, n);
    }
  }

  lemma GrownTrans(
    graph: DependenciesGraph, entries: set<DepPath>, walked0: set<DepPath>, build0: seq<DepPath>,
    walked1: set<DepPath>, build1: seq<DepPath>, walked2: set<DepPath>, build2: seq<DepPath>)
    requires Grown(graph, entries, walked0, build0, walked1, build1)
    requires Grown(graph, entries, walked1, build1, walked2, build2)
    requires Elems(build0) <= walked0 && Elems(build1) <= walked1
    ensures Grown(graph, entries, walked0, build0, walked2, build2)
  {
    hide Reaches, ReachesNeedy, NoDup, Selected;
    forall n | n in Elems(build1) ensures n in Elems(build2) {
      var i :| 0 <= i < |build1| && build1[i] == n;
      assert build2[i] == n;
    }
    NeedyMore(graph, walked1 - walked0, walked2 - walked0);
    NeedyMore(graph, walked2 - walked1, walked2 - walked0);
    forall n | n in walked2 - walked0 ensures WalkedOk(graph, entries, walked2, Elems(build2), n) {
      if n in walked1 {
        assert WalkedOk(graph, entries, walked1, Elems(build1), n);
        SelectedMore(graph, entries, Elems(build1), Elems(build2), n);
      } else {
        assert WalkedOk(graph, entries, walked2, Elems(build2), n);
      }
    }
  }

  // ----- The whole selection and its schedule -----

  /** Every needy node that the roots reach is selected; every selected node reaches a needy one, and the roots
    * reach it through selected nodes only.
    */
  ghost predicate SelectionOk(graph: DependenciesGraph, roots: set<DepPath>, nodes: set<DepPath>) {
    && (forall n :: n in nodes ==>
         && n in graph && Reaches(Children(graph), roots, n)
         && ReachesNeedy(graph, n) && ReachedSelected(graph, roots, nodes, n))
    && (forall n :: n in graph && graph[n].Needy() && Reaches(Children(graph), roots, n) ==> n in nodes)
  }

  method BuildSequence(depGraph: DependenciesGraph, rootDepPaths: seq<DepPath>)
    returns (chunks: seq<seq<DepPath>>, ghost r: SequencerResult<DepPath>)
    ensures chunks == r.chunks
    ensures SelectionOk(depGraph, Elems(rootDepPaths), Elems(Flatten(chunks)))
    ensures Correct(Selected(depGraph, Elems(Flatten(chunks))), Elems(Flatten(chunks)), r)
  {
    hide Correct, ReachesNeedy, Reaches, Known, LeadsToCycle;
    var selection := new BuildSelection(depGraph);
    var _ := selection.GetSubgraphToBuild(rootDepPaths);
    var nodes := selection.nodesToBuild;
    SelectionComplete(depGraph, Elems(rootDepPaths), selection.walked, nodes);
    var edges := OnlyBuildEdges(depGraph, nodes);
    var result := SequenceGraph(nodes, edges, nodes);
    chunks, r := result.value.chunks, result.value;
    assert Elems(Flatten(chunks)) == Elems(nodes) by {
      CoversIncluded(Selected(depGraph, Elems(nodes)), Elems(nodes), result.value);
    }
  }

  lemma CoversIncluded(g: Graph<DepPath>, included: set<DepPath>, r: SequencerResult<DepPath>)
    requires Correct(g, included, r)
    ensures Elems(Flatten(r.chunks)) == included
  {
  }

  /** The graph over the selected nodes, with the edges to other selected nodes only. */
  method OnlyBuildEdges(depGraph: DependenciesGraph, nodes: seq<DepPath>) returns (edges: map<DepPath, seq<DepPath>>)
    requires Elems(nodes) <= depGraph.Keys && NoDup(nodes)
    ensures ValidInput(nodes, edges, Elems(nodes)) && AllKnown(edges, Elems(nodes))
    ensures Induced(edges, Elems(nodes)) == Selected(depGraph, Elems(nodes))
  {
    hide NoDup, EntryOk, AllKnown, Induced, Selected;
    edges := map[];
    assert Elems(nodes[..0]) == {};
    var i := 0;
    while i < |nodes|
      invariant 0 <= i <= |nodes|
      invariant edges.Keys == Elems(nodes[..i])
      invariant forall d :: d in edges ==> EntryOk(depGraph, Elems(nodes), d, edges[d])
    {
      assert Elems(nodes[..i + 1]) == Elems(nodes[..i]) + {nodes[i]} && nodes[i] in Elems(nodes) by {
        assert nodes[..i + 1] == nodes[..i] + [nodes[i]];
        ElemsAppend(nodes[..i], [nodes[i]]);
      }
      var children := Values(depGraph[nodes[i]].children);
      var kept := OnlyFrom(children, nodes);
      OneEntry(depGraph, nodes, nodes[i], children, kept);
      edges := edges[nodes[i] := kept];
      i := i + 1;
    }
    assert nodes[..i] == nodes;
    EntriesInduce(depGraph, Elems(nodes), edges);
  }

  ghost predicate EntryOk(depGraph: DependenciesGraph, nodes: set<DepPath>, d: DepPath, kept: seq<DepPath>) {
    d in depGraph && Elems(kept) == depGraph[d].children.Values * nodes
  }

  lemma OneEntry(
    depGraph: DependenciesGraph, nodes: seq<DepPath>, d: DepPath, children: seq<DepPath>, kept: seq<DepPath>)
    requires d in depGraph && Elems(children) == depGraph[d].children.Values
    requires Elems(kept) == Elems(children) * Elems(nodes)
    ensures EntryOk(depGraph, Elems(nodes), d, kept)
  {
  }

  lemma EntriesInduce(depGraph: DependenciesGraph, nodes: set<DepPath>, edges: map<DepPath, seq<DepPath>>)
    requires edges.Keys == nodes && forall d :: d in edges ==> EntryOk(depGraph, nodes, d, edges[d])
    ensures AllKnown(edges, nodes)
    ensures Induced(edges, nodes) == Selected(depGraph, nodes)
  {
    forall n | n in nodes ensures Induced(edges, nodes)[n] == Selected(depGraph, nodes)[n] {
      assert EntryOk(depGraph, nodes, n, edges[n]);
      assert forall m :: m in edges[n] <==> m in Elems(edges[n]);
    }
    forall n, m | n in nodes && m in edges[n] ensures m in edges {
      assert EntryOk(depGraph, nodes, n, edges[n]) && m in Elems(edges[n]);
    }
  }

  function OnlyFrom(children: seq<DepPath>, nodes: seq<DepPath>): (r: seq<DepPath>)
    ensures Elems(r) == Elems(children) * Elems(nodes)
  {
    if children == [] then []
    else
      var init, last := children[..|children| - 1], children[|children| - 1];
      assert children == init + [last];
      ElemsAppend(init, [last]);
      ElemsAppend(OnlyFrom(init, nodes), [last]);
      if last in nodes then OnlyFrom(init, nodes) + [last] else OnlyFrom(init, nodes)
  }

  lemma SelectionComplete(graph: DependenciesGraph, roots: set<DepPath>, walked: set<DepPath>, nodes: seq<DepPath>)
    requires Grown(graph, roots, {}, [], walked, nodes) && roots * graph.Keys <= walked
    ensures walked == set n | n in graph && Reaches(Children(graph), roots, n)
    ensures SelectionOk(graph, roots, Elems(nodes))
  {
    hide Reaches, ReachesNeedy, ReachedSelected;
    var g := Children(graph);
    var outside := roots + (set n, m | n in graph && m in Succ(g, n) :: m) - graph.Keys;
    var closed := walked + outside;
    assert walked - {} == walked;
    forall n | n in walked ensures WalkedOk(graph, roots, walked, Elems(nodes), n) {
    }
    assert Closed(g, closed);
    forall n | n in graph && Reaches(g, roots, n) ensures n in walked {
      ReachesInClosed(g, roots, closed, n);
    }
  }

  /** A selected dependency is built strictly before its dependent, unless the dependent lies on a
    * cycle of selected packages.
    */
  lemma DependencyBuiltFirst(
    graph: DependenciesGraph, r: SequencerResult<DepPath>, nodes: set<DepPath>, k: nat, parent: DepPath, child: DepPath)
    requires nodes <= graph.Keys && Correct(Selected(graph, nodes), nodes, r)
    requires k < |r.chunks| && parent in r.chunks[k]
    requires parent in graph && child in graph[parent].children.Values && child in nodes
    requires forall c :: IsCycle(Selected(graph, nodes), c) ==> parent !in c
    ensures InEarlierChunk(r.chunks, k, child)
  {
    hide Tight, IsPath, NoDup;
    FlattenElems(r.chunks, parent);
    assert parent in Elems(Flatten(r.chunks));
    assert child in Succ(Selected(graph, nodes), parent);
    if OnReportedCycle(r.cycles, parent) {
      FlattenElems(r.cycles, parent);
    }
  }
}
