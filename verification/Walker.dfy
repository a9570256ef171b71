/** The lazy lockfile walker of lockfile/walker. A step lists what it has just met and hands out one thunk
  * per package; all thunks share one walked set and may be run in any order, any number of times.
  */
module Walker {
  import opened Digraph
  import opened Lockfile

  datatype WalkerStep = WalkerStep(dependencies: seq<DepPath>, links: seq<DepPath>, missing: seq<DepPath>)

  /** What may not be told from the walked set alone: everything yielded so far, and whose thunk has run. */
  datatype WalkState = WalkState(
    walked: set<DepPath>,
    entered: set<DepPath>,
    yielded: seq<DepPath>,
    links: seq<DepPath>,
    missing: seq<DepPath>,
    expanded: set<DepPath>)

  datatype World = World(rd: Reading, packages: PackageSnapshots, includeOptional: bool, skipped: set<DepPath>)

  ghost function Edges(w: World): Graph<DepPath> {
    MergedEdges(w.rd, w.packages, w.includeOptional)
  }

  /** The graph without the skipped nodes: its paths are the paths that avoid them. */
  ghost function Avoiding(w: World): Graph<DepPath> {
    map d | d in w.packages && d !in w.skipped :: Succ(Edges(w), d) - w.skipped
  }

  ghost predicate ReachedAvoiding(w: World, roots: set<DepPath>, d: DepPath) {
    Reaches(Avoiding(w), roots - w.skipped, d)
  }

  // ----- The state machine -----

  function Initial(skipped: set<DepPath>): WalkState {
    WalkState(skipped, {}, [], [], [], {})
  }

  /** One step on `targets` from `walked`: the new targets, each once, sorted into the three lists. */
  ghost predicate StepOk(w: World, walked: set<DepPath>, targets: set<DepPath>, r: WalkerStep) {
    && NoDup(r.dependencies) && NoDup(r.links) && NoDup(r.missing)
    && (forall d :: d in r.dependencies <==> d in targets && d !in walked && d in w.packages)
    && (forall d :: d in r.links <==> d in targets && d !in walked && d !in w.packages && w.rd.isLink(d))
    && (forall d :: d in r.missing <==> d in targets && d !in walked && d !in w.packages && !w.rd.isLink(d))
  }

  function After(s: WalkState, targets: set<DepPath>, r: WalkerStep): WalkState {
    s.(walked := s.walked + targets, yielded := s.yielded + r.dependencies, links := s.links + r.links,
       missing := s.missing + r.missing)
  }

  /** Start the walk from more entry nodes: done once by `lockfileWalker`, once per importer by the grouped form. */
  ghost predicate Enter(w: World, s: WalkState, entries: set<DepPath>, s': WalkState) {
    exists r :: StepOk(w, s.walked, entries, r) && s' == After(s, entries, r).(entered := s.entered + entries)
  }

  /** Run the thunk of a package yielded before, for the first time or again. */
  ghost predicate RunNext(w: World, s: WalkState, d: DepPath, s': WalkState) {
    && d in s.yielded
    && exists r :: StepOk(w, s.walked, Succ(Edges(w), d), r) &&
         s' == After(s, Succ(Edges(w), d), r).(expanded := s.expanded + {d})
  }

  ghost predicate Step(w: World, s: WalkState, s': WalkState) {
    || (exists entries :: Enter(w, s, entries, s'))
    || (exists d :: RunNext(w, s, d, s'))
  }

  ghost predicate Run(w: World, trace: seq<WalkState>) {
    && trace != [] && trace[0] == Initial(w.skipped)
    && forall i {:trigger Step(w, trace[i], trace[i + 1])} :: 0 <= i < |trace| - 1 ==> Step(w, trace[i], trace[i + 1])
  }

  /** Every thunk handed out has been run. */
  ghost predicate Complete(s: WalkState) {
    forall d :: d in s.yielded ==> d in s.expanded
  }

  /** The three lists are free of repetition and together are what was walked beyond `skipped`. */
  ghost predicate ListsOk(w: World, s: WalkState) {
    && s.walked == w.skipped + Elems(s.yielded) + Elems(s.links) + Elems(s.missing)
    && w.skipped !! Elems(s.yielded) && w.skipped !! Elems(s.links) && w.skipped !! Elems(s.missing)
    && NoDup(s.yielded) && NoDup(s.links) && NoDup(s.missing)
    && (forall d :: d in s.yielded ==> d in w.packages)
    && (forall d :: d in s.links ==> d !in w.packages && w.rd.isLink(d))
    && (forall d :: d in s.missing ==> d !in w.packages && !w.rd.isLink(d))
  }

  ghost predicate Inv(w: World, s: WalkState) {
    && ListsOk(w, s)
    && s.entered <= s.walked
    && s.expanded <= Elems(s.yielded)
    && (forall d :: d in s.expanded ==> Succ(Edges(w), d) <= s.walked)
    && (forall d :: d in s.walked && d !in w.skipped ==> ReachedAvoiding(w, s.entered, d))
  }

  lemma InitialInv(w: World)
    ensures Inv(w, Initial(w.skipped))
  {
  }

  lemma AppendNew(s: seq<DepPath>, t: seq<DepPath>, walked: set<DepPath>)
    requires NoDup(s) && NoDup(t) && Elems(s) <= walked && forall d :: d in t ==> d !in walked
    ensures NoDup(s + t) && Elems(s + t) == Elems(s) + Elems(t)
  {
    ElemsAppend(s, t);
    forall i, j | 0 <= i < |s| && 0 <= j < |t| ensures s[i] != t[j] {
      assert s[i] in Elems(s);
    }
  }

  lemma ListsGrow(w: World, s: WalkState, targets: set<DepPath>, r: WalkerStep, s': WalkState)
    requires ListsOk(w, s) && StepOk(w, s.walked, targets, r)
    requires s' == After(s, targets, r).(entered := s'.entered, expanded := s'.expanded)
    ensures ListsOk(w, s') && Elems(s.yielded) <= Elems(s'.yielded) && targets <= s'.walked
  {
    AppendNew(s.yielded, r.dependencies, s.walked);
    AppendNew(s.links, r.links, s.walked);
    AppendNew(s.missing, r.missing, s.walked);
    assert targets - s.walked == Elems(r.dependencies) + Elems(r.links) + Elems(r.missing);
  }

  lemma EnterInv(w: World, s: WalkState, entries: set<DepPath>, r: WalkerStep)
    requires Inv(w, s) && StepOk(w, s.walked, entries, r)
    ensures Inv(w, After(s, entries, r).(entered := s.entered + entries))
  {
    hide ListsOk, StepOk, Edges, Avoiding, Reaches;
    var s' := After(s, entries, r).(entered := s.entered + entries);
    ListsGrow(w, s, entries, r, s');
    var g := Avoiding(w);
    forall d | d in s'.walked && d !in w.skipped ensures ReachedAvoiding(w, s'.entered, d) {
      if d in s.walked {
        ReachesMono(g, g, s.entered - w.skipped, s'.entered - w.skipped, d);
      } else {
        ReachesRoot(g, s'.entered - w.skipped, d);
      }
    }
  }

  lemma RunInv(w: World, s: WalkState, d: DepPath, r: WalkerStep)
    requires Inv(w, s) && d in s.yielded && StepOk(w, s.walked, Succ(Edges(w), d), r)
    ensures Inv(w, After(s, Succ(Edges(w), d), r).(expanded := s.expanded + {d}))
  {
    hide ListsOk, StepOk, Edges, Reaches, ReachedAvoiding;
    var s' := After(s, Succ(Edges(w), d), r).(expanded := s.expanded + {d});
    ListsGrow(w, s, Succ(Edges(w), d), r, s');
    YieldedWalked(w, s, d);
    forall e | e in Succ(Edges(w), d) && e !in w.skipped ensures ReachedAvoiding(w, s'.entered, e) {
      NextReached(w, s.entered, d, e);
    }
  }

  lemma YieldedWalked(w: World, s: WalkState, d: DepPath)
    requires ListsOk(w, s) && d in s.yielded
    ensures d in Elems(s.yielded) && d in s.walked && d !in w.skipped && d in w.packages
  {
    assert d in Elems(s.yielded);
  }

  lemma NextReached(w: World, roots: set<DepPath>, d: DepPath, e: DepPath)
    requires ReachedAvoiding(w, roots, d) && d in w.packages && d !in w.skipped
    requires e in Succ(Edges(w), d) && e !in w.skipped
    ensures ReachedAvoiding(w, roots, e)
  {
    hide Reaches, Edges;
    assert e in Succ(Avoiding(w), d);
    ReachesStep(Avoiding(w), roots - w.skipped, d, e);
  }

  lemma {:induction false} RunsKeepInv(w: World, trace: seq<WalkState>)
    requires Run(w, trace)
    ensures Inv(w, trace[|trace| - 1])
  {
    hide Inv, StepOk;
    if |trace| == 1 {
      InitialInv(w);
    } else {
      var prefix := trace[..|trace| - 1];
      forall i | 0 <= i < |prefix| - 1 ensures Step(w, prefix[i], prefix[i + 1]) {
        assert Step(w, trace[i], trace[i + 1]);
      }
      RunsKeepInv(w, prefix);
      var k := |trace| - 2;
      var s, s' := trace[k], trace[k + 1];
      assert Step(w, trace[k], trace[k + 1]);
      if entries :| Enter(w, s, entries, s') {
        var r :| StepOk(w, s.walked, entries, r) && s' == After(s, entries, r).(entered := s.entered + entries);
        EnterInv(w, s, entries, r);
      } else {
        var d :| RunNext(w, s, d, s');
        var r :| StepOk(w, s.walked, Succ(Edges(w), d), r) &&
          s' == After(s, Succ(Edges(w), d), r).(expanded := s.expanded + {d});
        RunInv(w, s, d, r);
      }
    }
  }

  /** When all thunks have been run, the lists hold exactly what can be reached by paths avoiding `skipped`. */
  lemma CompleteIsReached(w: World, s: WalkState)
    requires Inv(w, s) && Complete(s)
    ensures forall d :: d in w.packages ==> (d in s.yielded <==> ReachedAvoiding(w, s.entered, d))
    ensures forall d :: d !in w.packages ==> (d in s.links || d in s.missing <==> ReachedAvoiding(w, s.entered, d))
  {
    var g, roots := Avoiding(w), s.entered - w.skipped;
    var seen := s.walked - w.skipped;
    assert Closed(g, seen) by {
      forall d | d in seen ensures Succ(g, d) <= seen {
        if d in g {
          assert d in Elems(s.yielded) by {
            assert forall e :: e in s.links <==> e in Elems(s.links);
            assert forall e :: e in s.missing <==> e in Elems(s.missing);
          }
          assert d in s.expanded;
        }
      }
    }
    forall d: DepPath ensures d in seen <==> Reaches(g, roots, d) {
      if Reaches(g, roots, d) {
        ReachesInClosed(g, roots, seen, d);
      }
      assert d in seen ==> ReachedAvoiding(w, s.entered, d);
    }
    forall d: DepPath ensures d in seen <==> d in s.yielded || d in s.links || d in s.missing {
      assert d in s.yielded <==> d in Elems(s.yielded);
      assert d in s.links <==> d in Elems(s.links);
      assert d in s.missing <==> d in Elems(s.missing);
    }
  }

  /** In whatever order the thunks are run, a complete run has yielded every reached package exactly once. */
  lemma AnyOrderYieldsOnce(w: World, trace: seq<WalkState>)
    requires Run(w, trace) && Complete(trace[|trace| - 1])
    ensures var s := trace[|trace| - 1];
            && NoDup(s.yielded)
            && (forall d :: d in s.yielded <==> d in w.packages && ReachedAvoiding(w, s.entered, d))
            && (forall d :: d in s.missing <==> d !in w.packages && !w.rd.isLink(d) && ReachedAvoiding(w, s.entered, d))
  {
    RunsKeepInv(w, trace);
    CompleteIsReached(w, trace[|trace| - 1]);
  }

  // ----- The code -----

  class LockfileWalker {
    const rd: Reading
    const packages: PackageSnapshots
    const includeOptional: bool
    ghost const world: World
    var walked: set<DepPath>
    ghost var state: WalkState

    ghost predicate Valid()
      reads this
    {
      && world.rd == rd && world.packages == packages && world.includeOptional == includeOptional
      && walked == state.walked
      && Inv(world, state)
    }

    constructor (rd: Reading, packages: PackageSnapshots, includeOptional: bool, skipped: set<DepPath>)
      ensures Valid() && world == World(rd, packages, includeOptional, skipped) && state == Initial(skipped)
      ensures this.packages == packages
    {
      this.rd, this.packages, this.includeOptional := rd, packages, includeOptional;
      world := World(rd, packages, includeOptional, skipped);
      walked, state := skipped, Initial(skipped);
      new;
      InitialInv(world);
    }

    method StepOver(nextDepPaths: seq<DepPath>) returns (result: WalkerStep)
      requires world.rd == rd && world.packages == packages
      modifies this`walked
      ensures StepOk(world, old(walked), Elems(nextDepPaths), result)
      ensures walked == old(walked) + Elems(nextDepPaths)
    {
      var dependencies, links, missing: seq<DepPath> := [], [], [];
      var i := 0;
      while i < |nextDepPaths|
        invariant 0 <= i <= |nextDepPaths|
        invariant walked == old(walked) + Elems(nextDepPaths[..i])
        invariant StepOk(world, old(walked), Elems(nextDepPaths[..i]), WalkerStep(dependencies, links, missing))
      {
        var depPath := nextDepPaths[i];
        assert Elems(nextDepPaths[..i + 1]) == Elems(nextDepPaths[..i]) + {depPath} by {
          assert nextDepPaths[..i + 1] == nextDepPaths[..i] + [depPath];
          ElemsAppend(nextDepPaths[..i], [depPath]);
        }
        i := i + 1;
        if depPath in walked {
          continue;
        }
        walked := walked + {depPath};
        if depPath !in packages {
          if rd.isLink(depPath) {
            links := links + [depPath];
            continue;
          }
          missing := missing + [depPath];
          continue;
        }
        dependencies := dependencies + [depPath];
      }
      assert nextDepPaths[..i] == nextDepPaths;
      result := WalkerStep(dependencies, links, missing);
    }

    method EnterAt(entryNodes: seq<DepPath>) returns (result: WalkerStep)
      requires Valid()
      modifies this
      ensures Valid() && StepOk(world, old(walked), Elems(entryNodes), result)
      ensures state == After(old(state), Elems(entryNodes), result).(entered := old(state).entered + Elems(entryNodes))
    {
      hide StepOk, Inv;
      result := StepOver(entryNodes);
      EnterInv(world, state, Elems(entryNodes), result);
      state := After(state, Elems(entryNodes), result).(entered := state.entered + Elems(entryNodes));
    }

    /** The thunk of a yielded package. */
    method Next(depPath: DepPath) returns (result: WalkerStep)
      requires Valid() && depPath in state.yielded && depPath in packages
      modifies this
      ensures Valid() && StepOk(world, old(walked), Succ(Edges(world), depPath), result)
      ensures state ==
              After(old(state), Succ(Edges(world), depPath), result).(expanded := old(state).expanded + {depPath})
    {
      hide StepOk, Inv, DepPathsOf;
      var nextDepPaths := ResolvedDepsToDepPaths(rd, MergedDeps(packages[depPath], includeOptional));
      result := StepOver(nextDepPaths);
      RunInv(world, state, depPath, result);
      state := After(state, Elems(nextDepPaths), result).(expanded := state.expanded + {depPath});
    }
  }
}
