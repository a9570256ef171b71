/** The build scheduler of deps/graph-sequencer: peel a directed multigraph into chunks by remaining
  * out-degree and break cycles when no node is free.
  */
module GraphSequencer {
  import opened Digraph
  import opened Records

  datatype SequencerResult<T> = SequencerResult(safe: bool, chunks: seq<seq<T>>, cycles: seq<seq<T>>)

  const MAX_SAFE_INTEGER := 0x1F_FFFF_FFFF_FFFF

  /** The graph induced on the included nodes, with parallel edges merged. */
  ghost function Induced<T>(edges: map<T, seq<T>>, included: set<T>): Graph<T> {
    map n | n in included && n in edges :: set m | m in edges[n] && m in included
  }

  /** What a caller owes: included nodes are keys of the graph. */
  ghost predicate ValidInput<T>(keys: seq<T>, edges: map<T, seq<T>>, included: set<T>) {
    && NoDup(keys)
    && Elems(keys) == edges.Keys
    && included <= edges.Keys
  }

  /** The edges of `n` lead to keys. Where one does not, a cycle search that follows it throws. */
  ghost predicate Known<T>(edges: map<T, seq<T>>, n: T) {
    n in edges ==> Elems(edges[n]) <= edges.Keys
  }

  ghost predicate AllKnown<T>(edges: map<T, seq<T>>, ns: set<T>) {
    forall n :: n in ns ==> Known(edges, n)
  }

  ghost predicate LeadsToCycle<T(!new)>(g: Graph<T>, n: T) {
    exists c :: IsCycle(g, c) && Reaches(g, {n}, c[0])
  }

  /** Some included node has an edge to a node that is no key and leads to a cycle of included nodes. */
  ghost predicate Throws<T(!new)>(edges: map<T, seq<T>>, included: set<T>) {
    exists n :: n in included && !Known(edges, n) && LeadsToCycle(Induced(edges, included), n)
  }

  // ----- What a result means -----

  ghost predicate OnReportedCycle<T>(cycles: seq<seq<T>>, n: T) {
    n in Flatten(cycles)
  }

  ghost predicate InEarlierChunk<T>(chunks: seq<seq<T>>, k: nat, n: T) {
    exists j :: 0 <= j < k && j < |chunks| && n in chunks[j]
  }

  /** Every dependency of a node that is not on a reported cycle sits in a strictly earlier chunk. */
  ghost predicate Ordered<T(!new)>(g: Graph<T>, chunks: seq<seq<T>>, cycles: seq<seq<T>>) {
    forall k, n, m :: 0 <= k < |chunks| && n in chunks[k] && !OnReportedCycle(cycles, n) && m in Succ(g, n)
      ==> InEarlierChunk(chunks, k, m)
  }

  ghost predicate HasSuccInSeq<T(!new)>(g: Graph<T>, n: T, s: seq<T>) {
    exists m :: m in Succ(g, n) && m in s
  }

  /** No node is scheduled later than needed: beyond the first chunk it waits for the chunk just before. */
  ghost predicate Tight<T(!new)>(g: Graph<T>, chunks: seq<seq<T>>, cycles: seq<seq<T>>) {
    forall k, n :: 0 < k < |chunks| && n in chunks[k] && !OnReportedCycle(cycles, n)
      ==> HasSuccInSeq(g, n, chunks[k - 1])
  }

  /** The reported cycles are simple cycles of the graph and share no node. */
  ghost predicate RealCycles<T>(g: Graph<T>, cycles: seq<seq<T>>) {
    && NoDup(Flatten(cycles))
    && forall i :: 0 <= i < |cycles| ==> IsCycle(g, cycles[i])
  }

  /** A chunk with a node of a reported cycle holds whole reported cycles and nothing else. */
  ghost predicate CyclesInChunks<T>(chunks: seq<seq<T>>, cycles: seq<seq<T>>) {
    && (forall i :: 0 <= i < |cycles| ==> InOneChunk(chunks, cycles[i]))
    && (forall k :: 0 <= k < |chunks| ==> AllOrNone(Elems(chunks[k]), Elems(Flatten(cycles))))
  }

  ghost predicate AllOrNone<T>(chunk: set<T>, reported: set<T>) {
    chunk <= reported || chunk !! reported
  }

  ghost predicate InOneChunk<T>(chunks: seq<seq<T>>, cycle: seq<T>) {
    exists k :: 0 <= k < |chunks| && Elems(cycle) <= Elems(chunks[k])
  }

  ghost predicate Correct<T(!new)>(g: Graph<T>, included: set<T>, r: SequencerResult<T>) {
    && NoDup(Flatten(r.chunks))
    && Elems(Flatten(r.chunks)) == included
    && (forall k :: 0 <= k < |r.chunks| ==> r.chunks[k] != [])
    && Ordered(g, r.chunks, r.cycles)
    && Tight(g, r.chunks, r.cycles)
    && RealCycles(g, r.cycles)
    && CyclesInChunks(r.chunks, r.cycles)
    && (r.cycles == [] <==> !exists c :: IsCycle(g, c))
    && (r.safe <==> !exists c :: IsCycle(g, c) && |c| >= 2)
  }

  // ----- Out-degrees with multiplicity -----

  /** The number of edges, counted with multiplicity, that lead into `live`. */
  ghost function Degree<T>(edges: seq<T>, live: set<T>): nat {
    if edges == [] then 0
    else Degree(edges[..|edges| - 1], live) + (if edges[|edges| - 1] in live then 1 else 0)
  }

  lemma {:induction false} DegreeZero<T>(edges: seq<T>, live: set<T>)
    ensures Degree(edges, live) == 0 <==> forall e :: e in edges ==> e !in live
  {
    if edges != [] {
      var init := edges[..|edges| - 1];
      DegreeZero(init, live);
      assert edges == init + [edges[|edges| - 1]];
    }
  }

  /** Taking one node out of `live` lowers the degree by the multiplicity of the edges to it. */
  lemma {:induction false} DegreeRemove<T>(edges: seq<T>, live: set<T>, x: T)
    requires x in live
    ensures Degree(edges, live) == Degree(edges, live - {x}) + multiset(edges)[x]
  {
    if edges != [] {
      var init := edges[..|edges| - 1];
      DegreeRemove(init, live, x);
      assert edges == init + [edges[|edges| - 1]];
    }
  }

  ghost function EdgeCount<T>(edges: map<T, seq<T>>, f: T, m: T): nat {
    if f in edges then multiset(edges[f])[m] else 0
  }

  ghost function SourceCount<T>(reverse: map<T, seq<T>>, m: T, f: T): nat {
    if m in reverse then multiset(reverse[m])[f] else 0
  }

  /** `reverse[m]` lists each included source in `done` once per parallel edge to `m`. */
  ghost predicate ReverseOk<T(!new)>(reverse: map<T, seq<T>>, edges: map<T, seq<T>>, included: set<T>, done: set<T>) {
    forall m, f {:trigger SourceCount(reverse, m, f)} :: m in included ==>
      SourceCount(reverse, m, f) == if f in done && f in included then EdgeCount(edges, f, m) else 0
  }

  ghost predicate DegreesOk<T(!new)>(degrees: map<T, int>, edges: map<T, seq<T>>, included: set<T>, live: set<T>) {
    forall n {:trigger degrees[n]} :: n in included && n in degrees && n in edges ==>
      degrees[n] == Degree(edges[n], live)
  }

  /** Lowering every source of `x` once per entry of its reverse list accounts for the removal of `x`. */
  lemma DegreesAfterRemoval<T(!new)>(
    before: map<T, int>, after: map<T, int>, reverse: map<T, seq<T>>, edges: map<T, seq<T>>,
    included: set<T>, live: set<T>, x: T)
    requires before.Keys == after.Keys == edges.Keys
    requires included <= edges.Keys && x in live && x in included
    requires DegreesOk(before, edges, included, live)
    requires ReverseOk(reverse, edges, included, included)
    requires forall n {:trigger after[n]} :: n in included ==> after[n] == before[n] - SourceCount(reverse, x, n)
    ensures DegreesOk(after, edges, included, live - {x})
  {
    forall n | n in included ensures after[n] == Degree(edges[n], live - {x}) {
      DegreeRemove(edges[n], live, x);
      assert SourceCount(reverse, x, n) == EdgeCount(edges, n, x);
      assert before[n] == Degree(edges[n], live);
    }
  }

  lemma NothingEntered<T(!new)>(degrees: map<T, int>, reverse: map<T, seq<T>>, edges: map<T, seq<T>>, included: set<T>)
    requires forall m :: m in reverse ==> reverse[m] == []
    ensures DegreesOk(degrees, edges, {}, included)
    ensures ReverseOk(reverse, edges, included, {})
  {
  }

  lemma OtherDegree<T(!new)>(
    degrees: map<T, int>, edges: map<T, seq<T>>, counted: set<T>, live: set<T>, from: T, d: int)
    requires DegreesOk(degrees, edges, counted, live) && from !in counted
    ensures DegreesOk(degrees[from := d], edges, counted, live)
  {
  }

  lemma DegreeCounted<T(!new)>(degrees: map<T, int>, edges: map<T, seq<T>>, included: set<T>, done: set<T>, from: T)
    requires DegreesOk(degrees, edges, included * done, included) && from in degrees && from in edges
    requires from in included ==> degrees[from] == Degree(edges[from], included)
    ensures DegreesOk(degrees, edges, included * (done + {from}), included)
  {
  }

  function Without<T(==)>(s: seq<T>, x: T): (r: seq<T>)
    ensures Elems(r) == Elems(s) - {x}
    ensures x in s ==> |r| < |s|
    ensures |r| <= |s|
  {
    if s == [] then []
    else
      var init := s[..|s| - 1];
      var last := s[|s| - 1];
      assert s == init + [last];
      ElemsAppend(init, [last]);
      ElemsAppend(Without(init, x), [last]);
      assert x in s ==> x in init || x == last;
      if last == x then Without(init, x) else Without(init, x) + [last]
  }

  lemma {:induction false} WithoutNoDup<T>(s: seq<T>, x: T)
    requires NoDup(s)
    ensures NoDup(Without(s, x))
  {
    if s != [] {
      var init := s[..|s| - 1];
      WithoutNoDup(init, x);
      assert s[|s| - 1] !in Elems(init);
      assert s[|s| - 1] !in Elems(Without(init, x));
    }
  }

  // ----- The mutable state of one run -----

  class Sequencer<T(==,!new)> {
    const keys: seq<T>
    const edges: map<T, seq<T>>
    ghost const included: set<T>
    var nodes: seq<T>
    var visited: set<T>
    var outDegree: map<T, int>
    var reverseGraph: map<T, seq<T>>

    ghost predicate Valid()
      reads this
    {
      && ValidInput(keys, edges, included)
      && NoDup(nodes)
      && Elems(nodes) <= included
      && visited == edges.Keys - Elems(nodes)
      && outDegree.Keys == reverseGraph.Keys == edges.Keys
      && DegreesOk(outDegree, edges, included, Elems(nodes))
      && ReverseOk(reverseGraph, edges, included, included)
    }

    constructor (keys: seq<T>, edges: map<T, seq<T>>, includedNodes: seq<T>)
      requires ValidInput(keys, edges, Elems(includedNodes))
      ensures Valid() && this.edges == edges && included == Elems(includedNodes)
      ensures nodes == Distinct(includedNodes)
    {
      this.keys, this.edges, this.included := keys, edges, Elems(includedNodes);
      nodes := Distinct(includedNodes);
      visited := {};
      outDegree := map k | k in edges :: 0;
      reverseGraph := map k | k in edges :: [];
      new;
      EnterAllEdges();
    }

    /** Fills the degrees and the reverse lists from the edges between included nodes. */
    method EnterAllEdges()
      requires ValidInput(keys, edges, included)
      requires NoDup(nodes) && Elems(nodes) == included
      requires visited == {} && outDegree.Keys == reverseGraph.Keys == edges.Keys
      requires forall m :: m in reverseGraph ==> reverseGraph[m] == []
      modifies this`outDegree, this`reverseGraph, this`visited
      ensures Valid()
    {
      hide DegreesOk, ReverseOk;
      NothingEntered(outDegree, reverseGraph, edges, included);
      assert Elems(keys[..0]) == {} == included * {};
      var k := 0;
      while k < |keys|
        invariant 0 <= k <= |keys|
        invariant outDegree.Keys == reverseGraph.Keys == edges.Keys
        invariant DegreesOk(outDegree, edges, included * Elems(keys[..k]), included)
        invariant visited == Elems(keys[..k]) - included
        invariant ReverseOk(reverseGraph, edges, included, Elems(keys[..k]))
      {
        var from := keys[k];
        ghost var done := Elems(keys[..k]);
        assert from !in done && from in Elems(keys) by {
          assert from !in keys[..k];
        }
        assert Elems(keys[..k + 1]) == done + {from} by {
          assert keys[..k + 1] == keys[..k] + [from];
          ElemsAppend(keys[..k], [from]);
        }
        OtherDegree(outDegree, edges, included * done, included, from, 0);
        outDegree := outDegree[from := 0];
        AddEdges(from, done);
        assert from in nodes <==> from in Elems(nodes);
        if from !in nodes {
          visited := visited + {from};
        }
        k := k + 1;
      }
      assert keys[..k] == keys;
      assert included * Elems(keys) == included;
      ReverseOkAll(reverseGraph, edges, included, Elems(keys));
    }

    /** Count the edges of one node and enter them in the reverse graph. */
    method AddEdges(from: T, ghost done: set<T>)
      requires ValidInput(keys, edges, included)
      requires Elems(nodes) == included
      requires outDegree.Keys == reverseGraph.Keys == edges.Keys
      requires from in edges && from !in done && outDegree[from] == 0
      requires ReverseOk(reverseGraph, edges, included, done)
      requires DegreesOk(outDegree, edges, included * done, included)
      modifies this`outDegree, this`reverseGraph
      ensures outDegree.Keys == reverseGraph.Keys == edges.Keys
      ensures DegreesOk(outDegree, edges, included * (done + {from}), included)
      ensures ReverseOk(reverseGraph, edges, included, done + {from})
    {
      hide DegreesOk, ReverseOk, ReversePartial;
      var es := edges[from];
      NoneEntered(reverseGraph, edges, included, done, from);
      assert es[..0] == [];
      var i := 0;
      while i < |es|
        invariant 0 <= i <= |es|
        invariant outDegree.Keys == reverseGraph.Keys == edges.Keys
        invariant DegreesOk(outDegree, edges, included * done, included)
        invariant from in included ==> outDegree[from] == Degree(es[..i], included)
        invariant ReversePartial(reverseGraph, edges, included, done, from, es[..i])
      {
        var target := es[i];
        assert from in nodes <==> from in Elems(nodes);
        assert target in nodes <==> target in Elems(nodes);
        assert es[..i + 1][..i] == es[..i];
        assert es[..i + 1] == es[..i] + [target];
        NotEntered(reverseGraph, edges, included, done, from, es[..i], target);
        if from in nodes && target in nodes {
          OtherDegree(outDegree, edges, included * done, included, from, outDegree[from] + 1);
          ChangeOutDegree(from, 1);
          ghost var before := reverseGraph;
          reverseGraph := reverseGraph[target := reverseGraph[target] + [from]];
          ReverseEntered(before, reverseGraph, edges, included, done, from, es[..i], target);
        }
        i := i + 1;
      }
      assert es[..i] == es;
      AllEntered(reverseGraph, edges, included, done, from);
      DegreeCounted(outDegree, edges, included, done, from);
    }

    method ChangeOutDegree(node: T, value: int)
      requires node in outDegree
      modifies this`outDegree
      ensures outDegree == old(outDegree)[node := old(outDegree)[node] + value]
    {
      var degree := outDegree[node];
      outDegree := outDegree[node := degree + value];
    }

    method RemoveNode(node: T)
      requires Valid() && node in nodes
      modifies this
      ensures Valid()
      ensures nodes == Without(old(nodes), node)
    {
      assert node in Elems(nodes);
      var sources := reverseGraph[node];
      ghost var before := outDegree;
      var i := 0;
      while i < |sources|
        invariant 0 <= i <= |sources|
        invariant nodes == old(nodes) && visited == old(visited) && reverseGraph == old(reverseGraph)
        invariant outDegree.Keys == edges.Keys
        invariant forall n {:trigger outDegree[n]} :: n in included ==>
          outDegree[n] == before[n] - multiset(sources[..i])[n]
      {
        assert sources[..i + 1] == sources[..i] + [sources[i]];
        SourceIncluded(reverseGraph, edges, included, node, sources[i]);
        ChangeOutDegree(sources[i], -1);
        i := i + 1;
      }
      assert sources[..i] == sources;
      DegreesAfterRemoval(before, outDegree, reverseGraph, edges, included, Elems(nodes), node);
      WithoutNoDup(nodes, node);
      visited := visited + {node};
      nodes := Without(nodes, node);
    }

    method RemoveAll(group: seq<T>)
      requires Valid() && NoDup(group) && Elems(group) <= Elems(nodes)
      modifies this
      ensures Valid()
      ensures Elems(nodes) == old(Elems(nodes)) - Elems(group)
      ensures group != [] ==> |nodes| < |old(nodes)|
    {
      var i := 0;
      while i < |group|
        invariant 0 <= i <= |group|
        invariant Valid()
        invariant Elems(nodes) == old(Elems(nodes)) - Elems(group[..i])
        invariant if i > 0 then |nodes| < |old(nodes)| else nodes == old(nodes)
      {
        assert group[i] in Elems(group);
        assert group[i] !in Elems(group[..i]);
        assert group[i] in Elems(nodes);
        assert group[..i + 1] == group[..i] + [group[i]];
        ElemsAppend(group[..i], [group[i]]);
        RemoveNode(group[i]);
        i := i + 1;
      }
      assert group[..i] == group;
    }

    /** One round of the search: look at the edges of `id`, which was reached by `cycle`. An unknown target would
      * be queued and end the search with an error when its turn comes.
      */
    method FollowEdges(
      startNode: T, id: T, cycle: seq<T>, queue0: seq<(T, seq<T>)>, ghost ids0: seq<T>, seen0: set<T>,
      cycles0: seq<seq<T>>, ghost before: set<T>)
      returns (known: bool, queue: seq<(T, seq<T>)>, ghost ids: seq<T>, cycleVisited: set<T>, cycles: seq<seq<T>>)
      requires Valid() && id !in before
      requires SearchOk(Induced(edges, included), Elems(nodes), startNode, queue0, ids0, seen0, cycles0,
                        before + {id}, before)
      requires SearchPath(Induced(edges, included), Elems(nodes), startNode, id, cycle)
      requires Elems(cycle) <= {startNode} + seen0
      ensures known ==>
        SearchOk(Induced(edges, included), Elems(nodes), startNode, queue, ids, cycleVisited, cycles,
                 before + {id}, before + {id})
      ensures known <==> Known(edges, id)
    {
      ghost var g, live, expanded := Induced(edges, included), Elems(nodes), before + {id};
      known, queue, ids, cycleVisited, cycles := true, queue0, ids0, seen0, cycles0;
      FollowingStarts(g, live, startNode, queue, ids, cycleVisited, cycles, expanded, before, id, cycle);
      InducedEdges(edges, included, id);
      hide Following, SearchPath, DegreesOk, ReverseOk, Induced;
      var targets := edges[id];
      var i := 0;
      while i < |targets|
        invariant 0 <= i <= |targets|
        invariant known && Elems(targets[..i]) <= edges.Keys
        invariant Following(g, live, startNode, queue, ids, cycleVisited, cycles, expanded, before,
                            Elems(targets[..i]), id, cycle)
      {
        var target := targets[i];
        assert Elems(targets[..i + 1]) == Elems(targets[..i]) + {target} && target in Elems(targets) by {
          assert targets[..i + 1] == targets[..i] + [target];
          ElemsAppend(targets[..i], [target]);
        }
        FollowingOne(g, live, startNode, queue, ids, cycleVisited, cycles, expanded, before,
                     Elems(targets[..i]), id, cycle, target);
        if target == startNode {
          cycleVisited := cycleVisited + {target};
          cycles := cycles + [cycle];
        } else if !(target in visited || target in cycleVisited) {
          if target !in edges {
            known := false;
            return;
          }
          cycleVisited := cycleVisited + {target};
          queue, ids := queue + [(target, cycle + [target])], ids + [target];
        }
        i := i + 1;
      }
      assert targets[..i] == targets;
      FollowingEnds(g, live, startNode, queue, ids, cycleVisited, cycles, expanded, before, Elems(targets), id, cycle);
    }

    /** Breadth-first search for cycles through `startNode` among the remaining nodes; the longest found wins. */
    method FindCycle(startNode: T) returns (known: bool, cycle: seq<T>)
      requires Valid() && startNode in nodes
      ensures known ==> CycleSearchResult(Induced(edges, included), Elems(nodes), startNode, cycle)
      ensures known ==> Known(edges, startNode) && AllKnown(edges, Elems(cycle))
      ensures !known ==> !AllKnown(edges, Elems(nodes))
    {
      hide DegreesOk, ReverseOk, ValidInput, Known, SearchOk, SearchPath, CycleSearchResult, Induced;
      known := true;
      ghost var g := Induced(edges, included);
      ghost var live := Elems(nodes);
      assert startNode in live;
      var queue: seq<(T, seq<T>)> := [(startNode, [startNode])];
      var cycleVisited: set<T> := {};
      var cycles: seq<seq<T>> := [];
      ghost var ids := [startNode];
      ghost var expanded: set<T> := {};
      SearchStarts(g, live, startNode);
      while queue != []
        invariant known && expanded <= live && AllKnown(edges, expanded)
        invariant SearchOk(g, live, startNode, queue, ids, cycleVisited, cycles, expanded, expanded)
        decreases live - expanded
      {
        var (id, cycle) := queue[0];
        ghost var before := expanded;
        NextInQueue(g, live, startNode, queue, ids, cycleVisited, cycles, before);
        queue, ids, expanded := queue[1..], ids[1..], expanded + {id};
        known, queue, ids, cycleVisited, cycles :=
          FollowEdges(startNode, id, cycle, queue, ids, cycleVisited, cycles, before);
        if !known {
          return false, [];
        }
      }
      if cycles == [] {
        cycle := [];
      } else {
        cycle := Longest(cycles);
      }
      SearchDone(g, live, startNode, ids, cycleVisited, cycles, expanded, cycle);
    }

    /** The remaining nodes without remaining dependencies, and the least remaining out-degree. */
    method FreeNodes() returns (chunk: seq<T>, minDegree: int)
      requires Valid()
      ensures NoDup(chunk) && Elems(chunk) <= Elems(nodes)
      ensures forall n {:trigger HasSuccIn(Induced(edges, included), n, Elems(nodes))} :: n in Elems(nodes) ==>
        (n in chunk <==> !HasSuccIn(Induced(edges, included), n, Elems(nodes)))
      ensures minDegree == 0 <==> chunk != []
    {
      ghost var g, live := Induced(edges, included), Elems(nodes);
      chunk, minDegree := [], MAX_SAFE_INTEGER;
      var i := 0;
      while i < |nodes|
        invariant 0 <= i <= |nodes|
        invariant NoDup(chunk) && (forall n :: n in chunk ==> n in nodes[..i])
        invariant forall n {:trigger HasSuccIn(g, n, live)} :: n in nodes[..i] ==>
          (n in chunk <==> !HasSuccIn(g, n, live))
        invariant 0 <= minDegree && (minDegree == 0 <==> chunk != [])
      {
        var node := nodes[i];
        assert node in live && node !in nodes[..i];
        assert nodes[..i + 1] == nodes[..i] + [node];
        var degree := outDegree[node];
        DegreeZero(edges[node], live);
        assert degree == 0 <==> !HasSuccIn(g, node, live) by {
          if e :| e in edges[node] && e in live {
            assert e in Succ(g, node);
          }
        }
        if degree == 0 {
          chunk := chunk + [node];
        }
        minDegree := if degree < minDegree then degree else minDegree;
        i := i + 1;
      }
      assert nodes[..i] == nodes;
    }

    /** No node is free: remove one longest cycle through each remaining node that lies on one. */
    method BreakCycles(cycles0: seq<seq<T>>, safe0: bool)
      returns (known: bool, cycles: seq<seq<T>>, cycleNodes: seq<T>, safe: bool)
      requires Valid() && nodes != []
      requires forall n {:trigger HasSuccIn(Induced(edges, included), n, Elems(nodes))} :: n in Elems(nodes) ==>
        HasSuccIn(Induced(edges, included), n, Elems(nodes))
      requires CyclesSoFar(Induced(edges, included), included - Elems(nodes), Elems(nodes), safe0, cycles0)
      modifies this
      ensures known ==> Valid() && |nodes| < |old(nodes)| && cycleNodes != []
      ensures known ==>
        RoundOk(Induced(edges, included), included, old(Elems(nodes)), Elems(nodes), cycles0, cycles, cycleNodes, safe)
      ensures known <==> AllKnown(edges, old(Elems(nodes)))
    {
      hide CyclesSoFar, IsPath, DegreesOk, ReverseOk, ValidInput, Known;
      ghost var g, live := Induced(edges, included), Elems(nodes);
      var snapshot := nodes;
      known, cycles, cycleNodes, safe := true, cycles0, [], safe0;
      var i := 0;
      while i < |snapshot|
        invariant 0 <= i <= |snapshot|
        invariant Valid()
        invariant RoundOk(g, included, live, Elems(nodes), cycles0, cycles, cycleNodes, safe)
        invariant if cycleNodes == [] then nodes == snapshot else |nodes| < |snapshot|
        invariant cycleNodes == [] ==> forall k :: 0 <= k < i ==> OffCycles(g, live, snapshot[k])
        invariant AllKnown(edges, live - Elems(nodes)) && forall k :: 0 <= k < i ==> Known(edges, snapshot[k])
      {
        var node := snapshot[i];
        assert node in live;
        assert node in nodes <==> node in Elems(nodes);
        if node in nodes {
          var cycle;
          known, cycle := FindCycle(node);
          if !known {
            return;
          }
          if |cycle| > 0 {
            ghost var rest := Elems(nodes);
            RemoveAll(cycle);
            RoundContinues(g, included, live, rest, node, cycles0, cycles, cycleNodes, safe, cycle);
            cycles := cycles + [cycle];
            cycleNodes := cycleNodes + cycle;
            if |cycle| > 1 {
              safe := false;
            }
          }
        }
        i := i + 1;
      }
      if cycleNodes == [] {
        ghost var k := SomeNodeOnCycle(g, snapshot);
        assert false;
      }
    }
  }

  /** One stuck round: `live` nodes at its start, `rest` now; the removed ones are those of the new cycles. */
  ghost predicate RoundOk<T(!new)>(
    g: Graph<T>, included: set<T>, live: set<T>, rest: set<T>,
    cycles0: seq<seq<T>>, cycles: seq<seq<T>>, cycleNodes: seq<T>, safe: bool)
  {
    && rest <= live
    && NoDup(cycleNodes) && Elems(cycleNodes) == live - rest
    && Elems(Flatten(cycles)) == Elems(Flatten(cycles0)) + Elems(cycleNodes)
    && cycles0 <= cycles
    && (forall i :: |cycles0| <= i < |cycles| ==> Elems(cycles[i]) <= Elems(cycleNodes))
    && CyclesSoFar(g, included - rest, rest, safe, cycles)
  }

  lemma RoundContinues<T(!new)>(
    g: Graph<T>, included: set<T>, live: set<T>, rest: set<T>, start: T,
    cycles0: seq<seq<T>>, cycles: seq<seq<T>>, cycleNodes: seq<T>, safe: bool, cycle: seq<T>)
    requires live <= included && RoundOk(g, included, live, rest, cycles0, cycles, cycleNodes, safe)
    requires CycleSearchResult(g, rest, start, cycle) && cycle != []
    ensures RoundOk(g, included, live, rest - Elems(cycle), cycles0, cycles + [cycle], cycleNodes + cycle,
                    safe && |cycle| <= 1)
  {
    CycleReported(g, included, rest, rest - Elems(cycle), start, safe, cycles, cycle);
    AppendDisjoint(cycles, cycle, included - rest);
    NoDupConcat(cycleNodes, cycle);
    ElemsAppend(cycleNodes, cycle);
    FlattenAppend(cycles, cycle);
    ElemsAppend(Flatten(cycles), cycle);
  }

  lemma SomeNodeOnCycle<T(!new)>(g: Graph<T>, nodes: seq<T>) returns (k: nat)
    requires nodes != []
    requires forall n {:trigger HasSuccIn(g, n, Elems(nodes))} :: n in Elems(nodes) ==> HasSuccIn(g, n, Elems(nodes))
    ensures k < |nodes| && !OffCycles(g, Elems(nodes), nodes[k])
  {
    assert nodes[0] in Elems(nodes);
    var c := CycleExists(g, Elems(nodes));
    assert c[0] in Elems(c);
    k :| 0 <= k < |nodes| && nodes[k] == c[0];
  }

  ghost predicate OffCycles<T(!new)>(g: Graph<T>, live: set<T>, n: T) {
    forall c :: IsCycle(g, c) && Elems(c) <= live ==> n !in c
  }

  lemma NoDupConcat<T>(s: seq<T>, t: seq<T>)
    requires NoDup(s) && NoDup(t) && Elems(s) !! Elems(t)
    ensures NoDup(s + t)
  {
    forall i, j | 0 <= i < |s| && 0 <= j < |t| ensures s[i] != t[j] {
      assert s[i] in Elems(s) && t[j] in Elems(t);
    }
  }

  /** Reporting the cycle found through `start` keeps all that is known about cycles. */
  lemma CycleReported<T(!new)>(
    g: Graph<T>, included: set<T>, live: set<T>, live': set<T>, start: T, safe: bool, cycles: seq<seq<T>>,
    cycle: seq<T>)
    requires live <= included && live' == live - Elems(cycle)
    requires CycleSearchResult(g, live, start, cycle) && cycle != []
    requires CyclesSoFar(g, included - live, live, safe, cycles)
    ensures CyclesSoFar(g, included - live', live', safe && |cycle| <= 1, cycles + [cycle])
  {
    hide IsCycle, CycleSearchResult, CyclesIntact, RealCycles, LongCycleReported, Flatten, Elems;
    ResultIsCycle(g, live, start, cycle);
    StaysReal(g, included, live, cycles, cycle);
    StaysIntact(g, live, start, safe, cycles, cycle);
    LongIfLong(cycles, cycle);
    assert Elems(Flatten(cycles + [cycle])) <= included - live';
  }

  lemma ResultIsCycle<T(!new)>(g: Graph<T>, live: set<T>, start: T, cycle: seq<T>)
    requires CycleSearchResult(g, live, start, cycle) && cycle != []
    ensures IsCycle(g, cycle) && NoDup(cycle) && Elems(cycle) <= live
  {
  }

  /** The new cycle shares no node with those reported before, whose nodes are gone. */
  lemma StaysReal<T>(g: Graph<T>, included: set<T>, live: set<T>, cycles: seq<seq<T>>, cycle: seq<T>)
    requires live <= included && IsCycle(g, cycle) && NoDup(cycle) && Elems(cycle) <= live
    requires RealCycles(g, cycles) && Elems(Flatten(cycles)) <= included - live
    ensures RealCycles(g, cycles + [cycle])
    ensures Elems(Flatten(cycles + [cycle])) <= included - (live - Elems(cycle))
  {
    hide IsCycle;
    AppendDisjoint(cycles, cycle, included - live);
  }

  lemma LongIfLong<T>(cycles: seq<seq<T>>, cycle: seq<T>)
    ensures LongCycleReported(cycles + [cycle]) <==> LongCycleReported(cycles) || |cycle| >= 2
  {
    var all := cycles + [cycle];
    assert all[|cycles|] == cycle;
    if LongCycleReported(cycles) {
      var i :| 0 <= i < |cycles| && |cycles[i]| >= 2;
      assert all[i] == cycles[i];
    }
  }

  /** A self-loop is reported only where no longer cycle passes, so it breaks none. */
  lemma StaysIntact<T(!new)>(g: Graph<T>, live: set<T>, start: T, safe: bool, cycles: seq<seq<T>>, cycle: seq<T>)
    requires CycleSearchResult(g, live, start, cycle) && cycle != []
    requires CyclesIntact(g, live, safe, cycles)
    ensures CyclesIntact(g, live - Elems(cycle), safe && |cycle| <= 1, cycles + [cycle])
  {
    hide IsCycle;
    forall c | IsCycle(g, c) && safe && |cycle| <= 1 && |c| >= 2 ensures Elems(c) <= live - Elems(cycle) {
      assert Elems(c) <= live;
      assert start !in c;
      assert cycle == [start];
      assert start !in Elems(c);
    }
  }

  // ----- Breadth-first search: invariants -----

  /** Sound: the result is empty or a cycle through `start` in `live`. Complete: it is empty only when
    * no cycle through `start` exists, and a self-loop only when no longer cycle through `start` exists.
    */
  ghost predicate CycleSearchResult<T(!new)>(g: Graph<T>, live: set<T>, start: T, r: seq<T>) {
    && (r != [] ==> IsCycle(g, r) && r[0] == start && Elems(r) <= live)
    && (forall c :: IsCycle(g, c) && Elems(c) <= live && start in c ==> r != [] && (|c| >= 2 ==> |r| >= 2))
  }

  ghost predicate QueueOk<T>(
    g: Graph<T>, live: set<T>, start: T, queue: seq<(T, seq<T>)>, ids: seq<T>, seen: set<T>)
  {
    && |ids| == |queue|
    && NoDup(ids)
    && forall i :: 0 <= i < |queue| ==>
         && queue[i].0 == ids[i]
         && SearchPath(g, live, start, queue[i].0, queue[i].1)
         && Elems(queue[i].1) <= {start} + seen
  }

  /** The whole search state; the nodes in `done` have had all their edges followed. */
  ghost predicate SearchOk<T(!new)>(
    g: Graph<T>, live: set<T>, start: T, queue: seq<(T, seq<T>)>, ids: seq<T>, seen: set<T>,
    cycles: seq<seq<T>>, expanded: set<T>, done: set<T>)
  {
    && QueueOk(g, live, start, queue, ids, seen)
    && Discovered(live, start, seen, ids, expanded)
    && CyclesOk(g, live, start, cycles)
    && forall n {:trigger n in done} :: n in done ==> Explored(g, live, start, Succ(g, n), n, seen, cycles)
  }

  ghost predicate SearchPath<T>(g: Graph<T>, live: set<T>, start: T, id: T, p: seq<T>) {
    IsPath(g, p) && NoDup(p) && p[0] == start && p[|p| - 1] == id && Elems(p) <= live
  }

  /** Every discovered node is waiting in the queue or has been expanded, and never both. */
  ghost predicate Discovered<T>(live: set<T>, start: T, seen: set<T>, ids: seq<T>, expanded: set<T>) {
    && {start} + seen == expanded + Elems(ids)
    && expanded !! Elems(ids)
    && {start} + seen <= live
  }

  ghost predicate CyclesOk<T>(g: Graph<T>, live: set<T>, start: T, cycles: seq<seq<T>>) {
    forall i :: 0 <= i < |cycles| ==> IsCycle(g, cycles[i]) && cycles[i][0] == start && Elems(cycles[i]) <= live
  }

  ghost predicate EndsAt<T>(cycles: seq<seq<T>>, n: T) {
    exists i :: 0 <= i < |cycles| && cycles[i] != [] && cycles[i][|cycles[i]| - 1] == n
  }

  ghost predicate Explored<T>(
    g: Graph<T>, live: set<T>, start: T, targets: set<T>, n: T, seen: set<T>, cycles: seq<seq<T>>)
  {
    && targets * live - {start} <= seen
    && (start in targets ==> EndsAt(cycles, n))
  }

  /** The search while the edges of `id` are followed, those to `targets` so far. */
  ghost predicate Following<T(!new)>(
    g: Graph<T>, live: set<T>, start: T, queue: seq<(T, seq<T>)>, ids: seq<T>, seen: set<T>, cycles: seq<seq<T>>,
    expanded: set<T>, before: set<T>, targets: set<T>, id: T, path: seq<T>)
  {
    && SearchOk(g, live, start, queue, ids, seen, cycles, expanded, before)
    && SearchPath(g, live, start, id, path) && Elems(path) <= {start} + seen
    && Explored(g, live, start, targets, id, seen, cycles)
  }

  lemma FollowingStarts<T(!new)>(
    g: Graph<T>, live: set<T>, start: T, queue: seq<(T, seq<T>)>, ids: seq<T>, seen: set<T>, cycles: seq<seq<T>>,
    expanded: set<T>, before: set<T>, id: T, path: seq<T>)
    requires SearchOk(g, live, start, queue, ids, seen, cycles, expanded, before)
    requires SearchPath(g, live, start, id, path) && Elems(path) <= {start} + seen
    ensures Following(g, live, start, queue, ids, seen, cycles, expanded, before, {}, id, path)
    ensures id in live && start in live
  {
    assert path[0] in Elems(path) && id in Elems(path);
  }

  /** What each of the three ways to treat an edge leaves. */
  lemma FollowingOne<T(!new)>(
    g: Graph<T>, live: set<T>, start: T, queue: seq<(T, seq<T>)>, ids: seq<T>, seen: set<T>, cycles: seq<seq<T>>,
    expanded: set<T>, before: set<T>, targets: set<T>, id: T, path: seq<T>, target: T)
    requires Following(g, live, start, queue, ids, seen, cycles, expanded, before, targets, id, path)
    requires target in live ==> target in Succ(g, id)
    ensures seen <= live && start in live
    ensures target == start ==>
      Following(g, live, start, queue, ids, seen + {target}, cycles + [path],
                expanded, before, targets + {target}, id, path)
    ensures target != start && target in live && target !in seen ==>
      Following(g, live, start, queue + [(target, path + [target])], ids + [target], seen + {target}, cycles,
                expanded, before, targets + {target}, id, path)
    ensures target != start && (target !in live || target in seen) ==>
      Following(g, live, start, queue, ids, seen, cycles, expanded, before, targets + {target}, id, path)
  {
    hide QueueOk, CyclesOk, EndsAt;
    assert start in live by {
      assert path[0] in Elems(path);
    }
    var cycles', seen' := cycles, seen;
    if target == start {
      hide SearchPath;
      Found(g, live, start, queue, ids, seen, cycles, expanded, id, path);
      cycles', seen' := cycles + [path], seen + {target};
    } else if target in live && target !in seen {
      Enqueued(g, live, start, queue, ids, seen, expanded, id, path, target);
      seen' := seen + {target};
    }
    ExploredMore(g, live, start, before, cycles, seen, cycles', seen');
    ExploredOne(g, live, start, targets, id, cycles, seen, cycles', seen', target);
  }

  lemma FollowingEnds<T(!new)>(
    g: Graph<T>, live: set<T>, start: T, queue: seq<(T, seq<T>)>, ids: seq<T>, seen: set<T>, cycles: seq<seq<T>>,
    expanded: set<T>, before: set<T>, targets: set<T>, id: T, path: seq<T>)
    requires Following(g, live, start, queue, ids, seen, cycles, expanded, before, targets, id, path)
    requires Succ(g, id) <= targets
    ensures SearchOk(g, live, start, queue, ids, seen, cycles, expanded, before + {id})
  {
    hide QueueOk, CyclesOk, Discovered, EndsAt;
  }

  lemma InducedEdges<T>(edges: map<T, seq<T>>, included: set<T>, n: T)
    requires n in included && n in edges
    ensures Succ(Induced(edges, included), n) == Elems(edges[n]) * included
  {
  }

  lemma ExploredMore<T>(
    g: Graph<T>, live: set<T>, start: T, done: set<T>,
    found: seq<seq<T>>, seen: set<T>, found': seq<seq<T>>, seen': set<T>)
    requires seen <= seen' && found <= found'
    requires forall n {:trigger n in done} :: n in done ==> Explored(g, live, start, Succ(g, n), n, seen, found)
    ensures forall n {:trigger n in done} :: n in done ==> Explored(g, live, start, Succ(g, n), n, seen', found')
  {
    forall n | n in done && start in Succ(g, n) ensures EndsAt(found', n) {
      EndsAtMore(found, found', n);
    }
  }

  lemma EndsAtMore<T>(found: seq<seq<T>>, found': seq<seq<T>>, n: T)
    requires found <= found' && EndsAt(found, n)
    ensures EndsAt(found', n)
  {
    var i :| 0 <= i < |found| && found[i] != [] && found[i][|found[i]| - 1] == n;
    assert found'[i] == found[i];
  }

  lemma Dequeued<T>(live: set<T>, start: T, seen: set<T>, ids: seq<T>, expanded: set<T>)
    requires ids != [] && NoDup(ids) && Discovered(live, start, seen, ids, expanded)
    ensures Discovered(live, start, seen, ids[1..], expanded + {ids[0]})
  {
    assert ids == [ids[0]] + ids[1..];
    ElemsAppend([ids[0]], ids[1..]);
    assert ids[0] !in ids[1..];
  }

  lemma Enqueued<T>(
    g: Graph<T>, live: set<T>, start: T, queue: seq<(T, seq<T>)>, ids: seq<T>, seen: set<T>, expanded: set<T>,
    id: T, path: seq<T>, target: T)
    requires QueueOk(g, live, start, queue, ids, seen) && Discovered(live, start, seen, ids, expanded)
    requires SearchPath(g, live, start, id, path) && Elems(path) <= {start} + seen
    requires target in Succ(g, id) && target in live && target != start && target !in seen
    ensures QueueOk(g, live, start, queue + [(target, path + [target])], ids + [target], seen + {target})
    ensures Discovered(live, start, seen + {target}, ids + [target], expanded)
  {
    ElemsAppend(ids, [target]);
    assert target !in Elems(ids) && target !in Elems(path);
    ExtendPath(g, path, target);
  }

  lemma Found<T>(
    g: Graph<T>, live: set<T>, start: T, queue: seq<(T, seq<T>)>, ids: seq<T>, seen: set<T>,
    cycles: seq<seq<T>>, expanded: set<T>, id: T, path: seq<T>)
    requires QueueOk(g, live, start, queue, ids, seen) && Discovered(live, start, seen, ids, expanded)
    requires CyclesOk(g, live, start, cycles)
    requires SearchPath(g, live, start, id, path) && start in Succ(g, id)
    ensures QueueOk(g, live, start, queue, ids, seen + {start})
    ensures Discovered(live, start, seen + {start}, ids, expanded)
    ensures CyclesOk(g, live, start, cycles + [path]) && EndsAt(cycles + [path], id)
  {
    assert (cycles + [path])[|cycles|] == path;
  }

  lemma ExploredOne<T>(
    g: Graph<T>, live: set<T>, start: T, targets: set<T>, n: T,
    found: seq<seq<T>>, seen: set<T>, found': seq<seq<T>>, seen': set<T>, target: T)
    requires Explored(g, live, start, targets, n, seen, found)
    requires seen <= seen' && found <= found'
    requires target == start ==> EndsAt(found', n)
    requires target != start && target in live ==> target in seen'
    ensures Explored(g, live, start, targets + {target}, n, seen', found')
  {
    if start in targets {
      EndsAtMore(found, found', n);
    }
  }

  /** Any cycle through the start inside `live` has a counterpart among the cycles found. */
  lemma CycleIsFound<T(!new)>(
    g: Graph<T>, live: set<T>, start: T, expanded: set<T>, seen: set<T>, cycles: seq<seq<T>>, c: seq<T>)
    returns (k: nat)
    requires Discovered(live, start, seen, [], expanded)
    requires CyclesOk(g, live, start, cycles)
    requires forall n {:trigger n in expanded} :: n in expanded ==>
      Explored(g, live, start, Succ(g, n), n, seen, cycles)
    requires IsCycle(g, c) && Elems(c) <= live && start in c
    ensures k < |cycles| && (|c| >= 2 ==> |cycles[k]| >= 2)
  {
    CycleStaysIn(g, c, start, expanded, live);
    var q := CyclePredecessor(g, c, start);
    assert q in Elems(c);
    assert EndsAt(cycles, q);
    k :| 0 <= k < |cycles| && cycles[k] != [] && cycles[k][|cycles[k]| - 1] == q;
  }

  lemma SearchStarts<T(!new)>(g: Graph<T>, live: set<T>, start: T)
    requires start in live
    ensures SearchOk(g, live, start, [(start, [start])], [start], {}, [], {}, {})
  {
  }

  /** The head of the queue is a node that has not been expanded, with a path to it. */
  lemma NextInQueue<T(!new)>(
    g: Graph<T>, live: set<T>, start: T, queue: seq<(T, seq<T>)>, ids: seq<T>, seen: set<T>, cycles: seq<seq<T>>,
    expanded: set<T>)
    requires queue != [] && SearchOk(g, live, start, queue, ids, seen, cycles, expanded, expanded)
    ensures var (id, path) := queue[0];
            && ids != [] && id !in expanded && id in live
            && SearchPath(g, live, start, id, path) && Elems(path) <= {start} + seen
            && SearchOk(g, live, start, queue[1..], ids[1..], seen, cycles, expanded + {id}, expanded)
  {
    hide SearchPath, CyclesOk, Explored;
    assert ids[0] == queue[0].0 && ids[0] in Elems(ids);
    Dequeued(live, start, seen, ids, expanded);
  }

  /** When nothing is left in the queue, a longest cycle found is the result, and all its nodes were expanded. */
  lemma SearchDone<T(!new)>(
    g: Graph<T>, live: set<T>, start: T, ids: seq<T>, seen: set<T>, cycles: seq<seq<T>>, expanded: set<T>,
    cycle: seq<T>)
    requires SearchOk(g, live, start, [], ids, seen, cycles, expanded, expanded)
    requires if cycles == [] then cycle == [] else cycle in cycles
    requires forall i :: 0 <= i < |cycles| ==> |cycles[i]| <= |cycle|
    ensures CycleSearchResult(g, live, start, cycle)
    ensures start in expanded && Elems(cycle) <= expanded
  {
    assert ids == [];
    if cycles != [] {
      CycleStaysIn(g, cycle, start, expanded, live);
    }
    forall c | IsCycle(g, c) && Elems(c) <= live && start in c ensures cycles != [] && (|c| >= 2 ==> |cycle| >= 2) {
      var k := CycleIsFound(g, live, start, expanded, seen, cycles, c);
      assert |cycles[k]| <= |cycle|;
    }
  }

  /** The head of a stable sort by decreasing length: the first of the longest cycles. */
  method Longest<T>(cycles: seq<seq<T>>) returns (best: seq<T>)
    requires cycles != []
    ensures exists k :: 0 <= k < |cycles| && best == cycles[k] && (forall i :: 0 <= i < k ==> |cycles[i]| < |best|)
    ensures forall i :: 0 <= i < |cycles| ==> |cycles[i]| <= |best|
  {
    var k := 0;
    for i := 1 to |cycles|
      invariant 0 <= k < i
      invariant forall j :: 0 <= j < k ==> |cycles[j]| < |cycles[k]|
      invariant forall j :: 0 <= j < i ==> |cycles[j]| <= |cycles[k]|
    {
      if |cycles[i]| > |cycles[k]| {
        k := i;
      }
    }
    best := cycles[k];
  }

  // ----- The scheduling loop -----

  ghost predicate LongCycleReported<T>(cycles: seq<seq<T>>) {
    exists i :: 0 <= i < |cycles| && |cycles[i]| >= 2
  }

  /** No cycle has lost a node yet if none was reported, and no long cycle has if only self-loops were. */
  ghost predicate CyclesIntact<T(!new)>(g: Graph<T>, live: set<T>, safe: bool, cycles: seq<seq<T>>) {
    forall c :: IsCycle(g, c) && (cycles == [] || (safe && |c| >= 2)) ==> Elems(c) <= live
  }

  ghost predicate CyclesSoFar<T(!new)>(g: Graph<T>, removed: set<T>, live: set<T>, safe: bool, cycles: seq<seq<T>>) {
    && RealCycles(g, cycles)
    && Elems(Flatten(cycles)) <= removed
    && (safe <==> !LongCycleReported(cycles))
    && CyclesIntact(g, live, safe, cycles)
  }

  /** After every round each remaining node had a dependency that was still there when the round began. */
  ghost predicate Waiting<T(!new)>(g: Graph<T>, live: set<T>, chunks: seq<seq<T>>) {
    chunks != [] ==>
      forall n {:trigger HasSuccIn(g, n, live + Elems(chunks[|chunks| - 1]))} :: n in live ==>
        HasSuccIn(g, n, live + Elems(chunks[|chunks| - 1]))
  }

  ghost predicate ChunksSoFar<T(!new)>(
    g: Graph<T>, removed: set<T>, live: set<T>, chunks: seq<seq<T>>, cycles: seq<seq<T>>)
  {
    && NoDup(Flatten(chunks))
    && Elems(Flatten(chunks)) == removed
    && (forall k :: 0 <= k < |chunks| ==> chunks[k] != [])
    && Ordered(g, chunks, cycles)
    && Tight(g, chunks, cycles)
    && CyclesInChunks(chunks, cycles)
    && Waiting(g, live, chunks)
  }

  /** The loop invariant of the scheduler, with `live` still to be scheduled. */
  ghost predicate Schedule<T(!new)>(
    g: Graph<T>, included: set<T>, live: set<T>, chunks: seq<seq<T>>, cycles: seq<seq<T>>, safe: bool)
  {
    && ChunksSoFar(g, included - live, live, chunks, cycles)
    && CyclesSoFar(g, included - live, live, safe, cycles)
  }

  /** `None` is the error of a cycle search that meets a target that is no key. */
  method SequenceGraph<T(==,!new)>(keys: seq<T>, edges: map<T, seq<T>>, includedNodes: seq<T>)
    returns (r: Option<SequencerResult<T>>)
    requires ValidInput(keys, edges, Elems(includedNodes))
    ensures r.Some? ==> Correct(Induced(edges, Elems(includedNodes)), Elems(includedNodes), r.value)
    ensures r.None? <==> Throws(edges, Elems(includedNodes))
  {
    hide ChunksSoFar, CyclesSoFar, Correct, RoundOk, Known, IsCycle, LeadsToCycle;
    var state := new Sequencer(keys, edges, includedNodes);
    ghost var g, included := Induced(edges, Elems(includedNodes)), Elems(includedNodes);
    var chunks: seq<seq<T>>, cycles: seq<seq<T>>, safe := [], [], true;
    StartsEmpty(g, included);
    while state.nodes != []
      invariant ThrowsLater(g, edges, included, Elems(state.nodes))
      invariant state.Valid() && fresh(state) && state.edges == edges && state.included == included
      invariant Schedule(g, included, Elems(state.nodes), chunks, cycles, safe)
      decreases |state.nodes|
    {
      ghost var live := Elems(state.nodes);
      var chunk, minDegree := state.FreeNodes();
      if minDegree == 0 {
        state.RemoveAll(chunk);
        FreeRoundThrows(g, edges, included, live, chunk);
        FreeRound(g, included, live, chunk, chunks, cycles, safe);
        chunks := chunks + [chunk];
      } else {
        ghost var cycles0, safe0 := cycles, safe;
        StuckLeads(g, live);
        var known, cycleNodes;
        known, cycles, cycleNodes, safe := state.BreakCycles(cycles, safe);
        if !known {
          return None;
        }
        StuckRound(g, included, live, Elems(state.nodes), cycleNodes, chunks, cycles0, cycles, safe0, safe);
        chunks := chunks + [cycleNodes];
      }
    }
    assert Elems(state.nodes) == {};
    assert !Throws(edges, included);
    r := Some(SequencerResult(safe, chunks, cycles));
    Finished(g, included, r.value);
  }

  // ----- Where it throws -----

  /** No node that leads to a cycle has been removed yet, or all of them have passed a search. */
  ghost predicate ThrowsLater<T(!new)>(g: Graph<T>, edges: map<T, seq<T>>, included: set<T>, live: set<T>) {
    || (forall n :: n in included && LeadsToCycle(g, n) ==> n in live)
    || (forall n :: n in included && LeadsToCycle(g, n) ==> Known(edges, n))
  }

  /** A node that leads to a cycle has a successor that does. */
  lemma LeadsOn<T(!new)>(g: Graph<T>, n: T) returns (m: T)
    requires LeadsToCycle(g, n)
    ensures m in Succ(g, n) && LeadsToCycle(g, m)
  {
    var c :| IsCycle(g, c) && Reaches(g, {n}, c[0]);
    var p :| PathFromTo(g, p, {n}, c[0]);
    if |p| > 1 {
      m := p[1];
      var q := p[1..];
      forall i | 0 <= i < |q| - 1 ensures q[i + 1] in Succ(g, q[i]) {
        assert p[i + 1 + 1] in Succ(g, p[i + 1]);
      }
      assert PathFromTo(g, q, {m}, c[0]);
    } else if |c| > 1 {
      m := c[1];
      var q := c[1..];
      forall i | 0 <= i < |q| - 1 ensures q[i + 1] in Succ(g, q[i]) {
        assert c[i + 1 + 1] in Succ(g, c[i + 1]);
      }
      assert PathFromTo(g, q, {m}, c[|c| - 1]);
      ReachesStep(g, {m}, c[|c| - 1], c[0]);
    } else {
      m := c[0];
      ReachesRoot(g, {m}, m);
    }
  }

  lemma FreeRoundThrows<T(!new)>(g: Graph<T>, edges: map<T, seq<T>>, included: set<T>, live: set<T>, chunk: seq<T>)
    requires g.Keys == included && (forall n :: n in g ==> g[n] <= included)
    requires forall n {:trigger HasSuccIn(g, n, live)} :: n in live ==> (n in chunk <==> !HasSuccIn(g, n, live))
    requires ThrowsLater(g, edges, included, live)
    ensures ThrowsLater(g, edges, included, live - Elems(chunk))
  {
    hide LeadsToCycle, Known;
    if forall n :: n in included && LeadsToCycle(g, n) ==> n in live {
      forall n | n in included && LeadsToCycle(g, n) ensures n !in chunk {
        var m := LeadsOn(g, n);
        assert HasSuccIn(g, n, live);
      }
    }
  }

  /** Where every remaining node has a remaining successor, all of them lead to cycles. */
  lemma StuckLeads<T(!new)>(g: Graph<T>, live: set<T>)
    requires forall n {:trigger HasSuccIn(g, n, live)} :: n in live ==> HasSuccIn(g, n, live)
    ensures forall n :: n in live ==> LeadsToCycle(g, n)
  {
    hide Reaches, IsCycle;
    forall n | n in live ensures LeadsToCycle(g, n) {
      var ahead := set m | m in live && Reaches(g, {n}, m);
      ReachesRoot(g, {n}, n);
      assert n in ahead;
      forall m | m in ahead ensures HasSuccIn(g, m, ahead) {
        assert HasSuccIn(g, m, live);
        var k :| k in Succ(g, m) && k in live;
        ReachesStep(g, {n}, m, k);
      }
      var c := CycleExists(g, ahead);
      CycleHead(g, c);
    }
  }

  lemma CycleHead<T>(g: Graph<T>, c: seq<T>)
    requires IsCycle(g, c)
    ensures c != [] && c[0] in Elems(c)
  {
  }

  lemma StartsEmpty<T(!new)>(g: Graph<T>, included: set<T>)
    requires g.Keys == included && (forall n :: n in g ==> g[n] <= included)
    ensures Schedule(g, included, included, [], [], true)
  {
    forall c | IsCycle(g, c) ensures Elems(c) <= included {
      forall i | 0 <= i < |c| ensures c[i] in included {
        if i > 0 {
          assert c[i - 1 + 1] in Succ(g, c[i - 1]);
        }
      }
    }
  }

  lemma Finished<T(!new)>(g: Graph<T>, included: set<T>, r: SequencerResult<T>)
    requires Schedule(g, included, {}, r.chunks, r.cycles, r.safe)
    ensures Correct(g, included, r)
  {
    assert included - {} == included;
    forall c | IsCycle(g, c) ensures r.cycles != [] && (|c| >= 2 ==> !r.safe) {
      assert c[0] in Elems(c);
    }
    if r.cycles != [] {
      assert IsCycle(g, r.cycles[0]);
    }
    if !r.safe {
      var i :| 0 <= i < |r.cycles| && |r.cycles[i]| >= 2;
      assert IsCycle(g, r.cycles[i]);
    }
  }

  /** Every removed node sits in a chunk. */
  lemma RemovedIsEarlier<T>(chunks: seq<seq<T>>, n: T)
    requires n in Flatten(chunks)
    ensures InEarlierChunk(chunks, |chunks|, n)
  {
    FlattenElems(chunks, n);
  }

  lemma EarlierMore<T>(chunks: seq<seq<T>>, last: seq<T>, k: nat, n: T)
    requires InEarlierChunk(chunks, k, n)
    ensures InEarlierChunk(chunks + [last], k, n)
  {
    var j :| 0 <= j < k && j < |chunks| && n in chunks[j];
    assert n in (chunks + [last])[j];
  }

  /** Appending a chunk and reporting more cycles keeps the order and tightness of the earlier chunks. */
  lemma AppendChunk<T(!new)>(
    g: Graph<T>, chunks: seq<seq<T>>, cycles: seq<seq<T>>, chunk: seq<T>, cycles': seq<seq<T>>)
    requires Ordered(g, chunks, cycles) && Tight(g, chunks, cycles)
    requires Elems(Flatten(cycles)) <= Elems(Flatten(cycles'))
    requires forall n, m :: n in chunk && !OnReportedCycle(cycles', n) && m in Succ(g, n) ==>
               InEarlierChunk(chunks, |chunks|, m)
    requires chunks != [] ==> forall n :: n in chunk && !OnReportedCycle(cycles', n) ==>
               HasSuccInSeq(g, n, chunks[|chunks| - 1])
    ensures Ordered(g, chunks + [chunk], cycles') && Tight(g, chunks + [chunk], cycles')
  {
    var all := chunks + [chunk];
    forall k, n, m | 0 <= k < |all| && n in all[k] && !OnReportedCycle(cycles', n) && m in Succ(g, n)
      ensures InEarlierChunk(all, k, m)
    {
      assert n !in Elems(Flatten(cycles'));
      if k < |chunks| {
        assert n !in Elems(Flatten(cycles));
        assert n in chunks[k] && !OnReportedCycle(cycles, n);
      }
      EarlierMore(chunks, chunk, k, m);
    }
    forall k, n | 0 < k < |all| && n in all[k] && !OnReportedCycle(cycles', n)
      ensures HasSuccInSeq(g, n, all[k - 1])
    {
      assert n !in Elems(Flatten(cycles'));
      if k < |chunks| {
        assert n !in Elems(Flatten(cycles));
        assert n in chunks[k] && !OnReportedCycle(cycles, n);
      }
    }
  }

  /** So does appending a chunk of which nothing is reported, or a chunk of newly reported cycles. */
  lemma AppendWhole<T>(
    chunks: seq<seq<T>>, cycles: seq<seq<T>>, chunk: seq<T>, cycles': seq<seq<T>>)
    requires CyclesInChunks(chunks, cycles) && cycles <= cycles'
    requires forall i :: |cycles| <= i < |cycles'| ==> Elems(cycles'[i]) <= Elems(chunk)
    requires Elems(Flatten(cycles)) <= Elems(Flatten(cycles')) <= Elems(Flatten(cycles)) + Elems(chunk)
    requires Elems(Flatten(chunks)) !! Elems(chunk)
    requires AllOrNone(Elems(chunk), Elems(Flatten(cycles')))
    ensures CyclesInChunks(chunks + [chunk], cycles')
  {
    hide Elems, Flatten;
    var all := chunks + [chunk];
    forall i | 0 <= i < |cycles'| ensures InOneChunk(all, cycles'[i]) {
      if i < |cycles| {
        assert InOneChunk(chunks, cycles[i]);
        var k :| 0 <= k < |chunks| && Elems(cycles[i]) <= Elems(chunks[k]);
        assert all[k] == chunks[k] && cycles'[i] == cycles[i];
      } else {
        assert all[|chunks|] == chunk;
      }
    }
    forall k | 0 <= k < |all| ensures AllOrNone(Elems(all[k]), Elems(Flatten(cycles'))) {
      if k < |chunks| {
        assert all[k] == chunks[k];
        PartOfFlatten(chunks, k);
      }
    }
  }

  lemma PartOfFlatten<T>(groups: seq<seq<T>>, k: nat)
    requires k < |groups|
    ensures Elems(groups[k]) <= Elems(Flatten(groups))
  {
    forall x | x in groups[k] ensures x in Flatten(groups) {
      FlattenElems(groups, x);
    }
  }

  lemma AppendDisjoint<T>(groups: seq<seq<T>>, group: seq<T>, done: set<T>)
    requires NoDup(Flatten(groups)) && NoDup(group)
    requires Elems(Flatten(groups)) <= done && done !! Elems(group)
    ensures NoDup(Flatten(groups + [group]))
    ensures Elems(Flatten(groups + [group])) == Elems(Flatten(groups)) + Elems(group)
  {
    FlattenAppend(groups, group);
    ElemsAppend(Flatten(groups), group);
    forall i, j | 0 <= i < |Flatten(groups)| && 0 <= j < |group| ensures Flatten(groups)[i] != group[j] {
      assert Flatten(groups)[i] in Elems(Flatten(groups)) && group[j] in Elems(group);
    }
  }

  lemma FreeRound<T(!new)>(
    g: Graph<T>, included: set<T>, live: set<T>, chunk: seq<T>, chunks: seq<seq<T>>, cycles: seq<seq<T>>, safe: bool)
    requires live <= included && (forall n :: n in live ==> Succ(g, n) <= included)
    requires NoDup(chunk) && chunk != [] && Elems(chunk) <= live
    requires forall n {:trigger HasSuccIn(g, n, live)} :: n in live ==> (n in chunk <==> !HasSuccIn(g, n, live))
    requires Schedule(g, included, live, chunks, cycles, safe)
    ensures Schedule(g, included, live - Elems(chunk), chunks + [chunk], cycles, safe)
  {
    var live' := live - Elems(chunk);
    assert included - live' == included - live + Elems(chunk);
    AppendDisjoint(chunks, chunk, included - live);
    forall n, m | n in chunk && m in Succ(g, n) ensures InEarlierChunk(chunks, |chunks|, m) {
      assert n in Elems(chunk) && !HasSuccIn(g, n, live);
      assert m in Elems(Flatten(chunks));
      RemovedIsEarlier(chunks, m);
    }
    if chunks != [] {
      forall n | n in chunk ensures HasSuccInSeq(g, n, chunks[|chunks| - 1]) {
        assert n in Elems(chunk) && !HasSuccIn(g, n, live);
        assert HasSuccIn(g, n, live + Elems(chunks[|chunks| - 1]));
      }
    }
    AppendChunk(g, chunks, cycles, chunk, cycles);
    AppendWhole(chunks, cycles, chunk, cycles);
    forall n | n in live' ensures HasSuccIn(g, n, live' + Elems(chunk)) {
      assert HasSuccIn(g, n, live);
      assert live' + Elems(chunk) == live;
    }
    forall c | IsCycle(g, c) && (cycles == [] || (safe && |c| >= 2)) ensures Elems(c) <= live' {
      FreeNodesAvoidCycle(g, live, chunk, c);
    }
  }

  /** A node of a cycle inside `live` has its successor on the cycle, hence is never free. */
  lemma FreeNodesAvoidCycle<T>(g: Graph<T>, live: set<T>, chunk: seq<T>, c: seq<T>)
    requires forall n {:trigger HasSuccIn(g, n, live)} :: n in live ==> (n in chunk <==> !HasSuccIn(g, n, live))
    requires IsCycle(g, c) && Elems(c) <= live
    ensures Elems(c) <= live - Elems(chunk)
  {
    forall i | 0 <= i < |c| ensures c[i] !in chunk {
      var next := if i + 1 < |c| then c[i + 1] else c[0];
      assert c[i] in Elems(c) && next in Elems(c);
      assert next in Succ(g, c[i]);
      assert HasSuccIn(g, c[i], live);
    }
  }

  lemma StuckRound<T(!new)>(
    g: Graph<T>, included: set<T>, live: set<T>, live': set<T>, cycleNodes: seq<T>, chunks: seq<seq<T>>,
    cycles0: seq<seq<T>>, cycles: seq<seq<T>>, safe0: bool, safe: bool)
    requires live <= included
    requires forall n {:trigger HasSuccIn(g, n, live)} :: n in live ==> HasSuccIn(g, n, live)
    requires Schedule(g, included, live, chunks, cycles0, safe0)
    requires RoundOk(g, included, live, live', cycles0, cycles, cycleNodes, safe) && cycleNodes != []
    ensures Schedule(g, included, live', chunks + [cycleNodes], cycles, safe)
  {
    assert included - live' == included - live + Elems(cycleNodes);
    AppendDisjoint(chunks, cycleNodes, included - live);
    assert forall n :: n in cycleNodes ==> n in Elems(cycleNodes);
    AppendChunk(g, chunks, cycles0, cycleNodes, cycles);
    AppendWhole(chunks, cycles0, cycleNodes, cycles);
    assert live' + Elems(cycleNodes) == live;
  }

  // ----- Bookkeeping of the reverse graph -----

  ghost predicate ReversePartial<T(!new)>(
    reverse: map<T, seq<T>>, edges: map<T, seq<T>>, included: set<T>, done: set<T>, from: T, prefix: seq<T>)
  {
    forall m, f {:trigger SourceCount(reverse, m, f)} :: m in included ==>
      SourceCount(reverse, m, f) ==
        if f == from then if from in included then multiset(prefix)[m] else 0
        else if f in done && f in included then EdgeCount(edges, f, m) else 0
  }

  lemma NoneEntered<T(!new)>(reverse: map<T, seq<T>>, edges: map<T, seq<T>>, included: set<T>, done: set<T>, from: T)
    requires ReverseOk(reverse, edges, included, done) && from !in done
    ensures ReversePartial(reverse, edges, included, done, from, [])
  {
  }

  lemma AllEntered<T(!new)>(reverse: map<T, seq<T>>, edges: map<T, seq<T>>, included: set<T>, done: set<T>, from: T)
    requires from in edges && ReversePartial(reverse, edges, included, done, from, edges[from])
    ensures ReverseOk(reverse, edges, included, done + {from})
  {
  }

  /** An edge out of the included nodes is passed over. */
  lemma NotEntered<T(!new)>(
    reverse: map<T, seq<T>>, edges: map<T, seq<T>>, included: set<T>, done: set<T>, from: T, prefix: seq<T>, target: T)
    requires ReversePartial(reverse, edges, included, done, from, prefix)
    ensures from !in included || target !in included ==>
      ReversePartial(reverse, edges, included, done, from, prefix + [target])
  {
  }

  lemma ReverseEntered<T(!new)>(
    before: map<T, seq<T>>, after: map<T, seq<T>>, edges: map<T, seq<T>>, included: set<T>, done: set<T>,
    from: T, prefix: seq<T>, target: T)
    requires ReversePartial(before, edges, included, done, from, prefix)
    requires from in included && target in before && after == before[target := before[target] + [from]]
    ensures ReversePartial(after, edges, included, done, from, prefix + [target])
  {
    forall m, f | m in included
      ensures SourceCount(after, m, f) ==
        if f == from then multiset(prefix + [target])[m]
        else if f in done && f in included then EdgeCount(edges, f, m) else 0
    {
      assert SourceCount(after, m, f) == SourceCount(before, m, f) + if m == target && f == from then 1 else 0;
    }
  }

  lemma ReverseOkAll<T(!new)>(reverse: map<T, seq<T>>, edges: map<T, seq<T>>, included: set<T>, done: set<T>)
    requires ReverseOk(reverse, edges, included, done) && included <= done
    ensures ReverseOk(reverse, edges, included, included)
  {
  }

  lemma SourceIncluded<T(!new)>(reverse: map<T, seq<T>>, edges: map<T, seq<T>>, included: set<T>, m: T, f: T)
    requires ReverseOk(reverse, edges, included, included)
    requires m in included && m in reverse && f in reverse[m]
    ensures f in included
  {
    assert SourceCount(reverse, m, f) > 0;
  }

  // ----- On an acyclic graph the chunks are the layers of the longest dependency chains -----

  ghost predicate HasChain<T(!new)>(g: Graph<T>, n: T, edgeCount: nat) {
    exists p: seq<T> :: IsPath(g, p) && p[0] == n && |p| == edgeCount + 1
  }

  lemma {:induction false} ChainFits<T(!new)>(g: Graph<T>, included: set<T>, r: SequencerResult<T>, k: nat, p: seq<T>)
    requires Correct(g, included, r) && r.cycles == []
    requires IsPath(g, p) && k < |r.chunks| && p[0] in r.chunks[k]
    ensures |p| <= k + 1
    decreases |p|
  {
    if |p| > 1 {
      assert p[1] in Succ(g, p[0]);
      assert !OnReportedCycle(r.cycles, p[0]);
      assert InEarlierChunk(r.chunks, k, p[1]);
      var j :| 0 <= j < k && j < |r.chunks| && p[1] in r.chunks[j];
      forall i | 0 <= i < |p[1..]| - 1 ensures p[1..][i + 1] in Succ(g, p[1..][i]) {
        assert p[i + 1 + 1] in Succ(g, p[i + 1]);
      }
      ChainFits(g, included, r, j, p[1..]);
    }
  }

  lemma {:induction false} ChainExists<T(!new)>(g: Graph<T>, included: set<T>, r: SequencerResult<T>, k: nat, n: T)
    returns (p: seq<T>)
    requires Correct(g, included, r) && r.cycles == []
    requires k < |r.chunks| && n in r.chunks[k]
    ensures IsPath(g, p) && p[0] == n && |p| == k + 1
  {
    if k == 0 {
      p := [n];
    } else {
      assert !OnReportedCycle(r.cycles, n);
      assert HasSuccInSeq(g, n, r.chunks[k - 1]);
      var m :| m in Succ(g, n) && m in r.chunks[k - 1];
      var q := ChainExists(g, included, r, k - 1, m);
      p := [n] + q;
      forall i | 0 <= i < |p| - 1 ensures p[i + 1] in Succ(g, p[i]) {
        if i > 0 {
          assert q[i - 1 + 1] in Succ(g, q[i - 1]);
        }
      }
    }
  }

  /** The index of a node's chunk is the number of edges of its longest dependency chain. */
  lemma ChunkIndexIsLongestChain<T(!new)>(g: Graph<T>, included: set<T>, r: SequencerResult<T>, n: T, k: nat)
    requires Correct(g, included, r) && !exists c :: IsCycle(g, c)
    requires k < |r.chunks| && n in r.chunks[k]
    ensures HasChain(g, n, k)
    ensures forall l: nat {:trigger HasChain(g, n, l)} :: l > k ==> !HasChain(g, n, l)
  {
    var p := ChainExists(g, included, r, k, n);
    assert IsPath(g, p) && p[0] == n && |p| == k + 1;
    forall l: nat | l > k ensures !HasChain(g, n, l) {
      if HasChain(g, n, l) {
        var q: seq<T> :| IsPath(g, q) && q[0] == n && |q| == l + 1;
        ChainFits(g, included, r, k, q);
      }
    }
  }

  ghost predicate Layering<T(!new)>(g: Graph<T>, included: set<T>, level: map<T, nat>) {
    && included <= level.Keys
    && forall n, m {:trigger m in Succ(g, n)} :: n in included && m in Succ(g, n) && m in included ==>
         level[m] < level[n]
  }

  /** No other layering puts a node lower than its chunk, so none gets by with fewer layers than chunks. */
  lemma {:induction false} ChunksAreLowest<T(!new)>(
    g: Graph<T>, included: set<T>, r: SequencerResult<T>, level: map<T, nat>, n: T, k: nat)
    requires Correct(g, included, r) && !exists c :: IsCycle(g, c)
    requires Layering(g, included, level)
    requires k < |r.chunks| && n in r.chunks[k]
    ensures n in included && k <= level[n]
    decreases k
  {
    FlattenElems(r.chunks, n);
    assert n in Elems(Flatten(r.chunks));
    if k > 0 {
      assert !OnReportedCycle(r.cycles, n);
      assert HasSuccInSeq(g, n, r.chunks[k - 1]);
      var m :| m in Succ(g, n) && m in r.chunks[k - 1];
      ChunksAreLowest(g, included, r, level, m, k - 1);
    }
  }

  lemma FewestChunks<T(!new)>(g: Graph<T>, included: set<T>, r: SequencerResult<T>, level: map<T, nat>, layers: nat)
    requires Correct(g, included, r) && !exists c :: IsCycle(g, c)
    requires Layering(g, included, level) && forall n :: n in included ==> level[n] < layers
    ensures |r.chunks| <= layers
  {
    if r.chunks != [] {
      var n := r.chunks[|r.chunks| - 1][0];
      ChunksAreLowest(g, included, r, level, n, |r.chunks| - 1);
    }
  }
}
