/**
 What is found for certain.  A path that comes to no node twice is stopped by no cycle check; so without similar
 path detection everything that candidates can be stitched to without a repeat is found, and in the end every walk
 that resolves a reference and comes to no node but jumps twice.
 */
module SimpleWalks {
  import opened Wrappers
  import opened Graphs
  import opened Unification
  import opened PartialPaths
  import opened Exactness
  import opened AppendExactness
  import opened Settling
  import opened Stitching
  import opened CycleDetection
  import opened ChosenBlocks
  import opened ChosenCycles
  import Complete = CompletePaths
  import opened Worklists
  import opened Stitcher
  import opened SearchCoverage
  import opened MinimalPathSet
  import opened SegmentSearch
  import opened SegmentCoverage
  import opened PathFinding
  import opened DatabaseSearch
  import opened EndToEnd
  import opened WalkCutting

  // ---------------------------------------------------------------------------------------------
  // Paths without repeats are never stopped

  /** The `k`th fragment leads back to the start of the path, or of one of the fragments up to it. */
  predicate ComesBack(n: NodeHandle, fragments: seq<Fragment>, k: nat)
    requires k < |fragments|
  {
    n == fragments[k].EndNode() || exists i :: 0 <= i <= k && fragments[i].StartNode() == fragments[k].EndNode()
  }

  /** None of the first `m` fragments leads back. */
  predicate Simple(n: NodeHandle, fragments: seq<Fragment>, m: nat)
    requires m <= |fragments|
  {
    forall k :: 0 <= k < m ==> !ComesBack(n, fragments, k)
  }

  lemma SimpleNotStopped(c: Search, item: Item, p: PartialPath, fragments: seq<Fragment>)
    requires c.g.AttachedScopesExist() && IsInitial(c, p) && item.fragments == [PathFragment(p)] + fragments
    requires Simple(p.startNode, fragments, |fragments|)
    ensures !Discontinued(c, item)
  {
    hide FromNode, BlockPath;
    if fragments == [] {
      InitialNotCyclic(c.g, p.startNode, c.origin, c.depth);
      assert item.fragments == [PathFragment(p)];
    } else {
      var all, k := item.fragments, |fragments| - 1;
      assert !ComesBack(p.startNode, fragments, k) && all[k + 1] == fragments[k];
      forall i | 0 <= i < |all|
        ensures all[i].StartNode() != all[k + 1].EndNode()
      {
        assert all[i] == if i == 0 then PathFragment(p) else fragments[i - 1];
      }
      assert LastStart(all, all[k + 1].EndNode()).None?;
    }
  }

  /** Without similar path detection, nothing on the way to a path without repeats is cut off. */
  lemma SimpleNotCutOff(c: Search, f: Fifo<Seen, Item>, n: nat, p: PartialPath, fragments: seq<Fragment>)
    requires c.g.AttachedScopesExist() && IsInitial(c, p) && f.state == None
    requires fragments != [] ==> Simple(p.startNode, fragments, |fragments| - 1)
    ensures !CutOff(c, f, n, [PathFragment(p)] + fragments)
  {
    hide CycleCut, IsInitial, ComesBack;
    var all := [PathFragment(p)] + fragments;
    OnlyCyclesCut(c, f, n, all);
    if i :| 0 < i < |all| && CycleCut(c, f, n, all[..i]) {
      assert all[..i] == [PathFragment(p)] + fragments[..i - 1];
      FrontSimple(p.startNode, fragments, i - 1);
      NotCut(c, f, n, p, fragments[..i - 1]);
    }
  }

  lemma FrontSimple(n: NodeHandle, fragments: seq<Fragment>, m: nat)
    requires m <= |fragments| && Simple(n, fragments, m)
    ensures Simple(n, fragments[..m], m)
  {
    forall k | 0 <= k < m
      ensures !ComesBack(n, fragments[..m], k)
    {
      assert !ComesBack(n, fragments, k);
    }
  }

  lemma NotCut(c: Search, f: Fifo<Seen, Item>, n: nat, p: PartialPath, fragments: seq<Fragment>)
    requires c.g.AttachedScopesExist() && IsInitial(c, p) && Simple(p.startNode, fragments, |fragments|)
    ensures !CycleCut(c, f, n, [PathFragment(p)] + fragments)
  {
    hide Discontinued, IsInitial, Simple, All;
    if CycleCut(c, f, n, [PathFragment(p)] + fragments) {
      var i :| 0 <= i < |All(c, f, n)| && All(c, f, n)[i].fragments == [PathFragment(p)] + fragments &&
        Discontinued(c, All(c, f, n)[i]);
      SimpleNotStopped(c, All(c, f, n)[i], p, fragments);
    }
  }

  /** So whatever candidates can be stitched to an initial path without a repeat is found. */
  lemma SimpleFound(c: Search, f: Fifo<Seen, Item>, n: nat, p: PartialPath, fragments: seq<Fragment>)
    requires c.g.AttachedScopesExist() && WholeRun(c, f, n) && f.state == None
    requires IsInitial(c, p) && Found(c, f, n, [PathFragment(p)])
    requires CandidateChain(c, p, fragments) && Stitch(c.g, p, fragments, c.depth).Ok?
    requires fragments != [] ==> Simple(p.startNode, fragments, |fragments| - 1)
    ensures Found(c, f, n, [PathFragment(p)] + fragments)
  {
    hide WholeRun, IsInitial, CandidateChain, Stitch, Found, CutOff, Simple;
    StitchFound(c, f, n, p, fragments);
    SimpleNotCutOff(c, f, n, p, fragments);
  }

  // ---------------------------------------------------------------------------------------------
  // Walks without repeats

  /** The walk comes to no node twice, other than jumps. */
  predicate NoNodeTwice(g: Graph, w: seq<NodeHandle>) {
    forall i, j :: 0 <= i < j < |w| && w[i] == w[j] ==> g.Kind(w[i]).JumpTo?
  }

  /** The `i`th walk of a journey lies on it, from where the journey has come to before. */
  lemma PartOfWay(g: Graph, us: seq<Walk>, o: Origin, i: nat)
    requires us != [] && i < |us| && Consecutive(g, [us[0][0]], us, o)
    ensures var w, at := Journey(g, [us[0][0]], us, o), |Way(g, us, o, i)| - 1;
            && at + |us[i]| <= |w|
            && (forall k :: 0 <= k < |us[i]| ==> w[at + k] == us[i][k])
            && at + |us[i]| <= |Way(g, us, o, i + 1)|
  {
    hide Journey, Settle, Consecutive, Way;
    WayStep(g, us, o, i);
    WayGrows(g, us, o, i + 1, |us|);
    WayOfAll(g, us, o);
    var before, after := Way(g, us, o, i), Way(g, us, o, i + 1);
    var longer := Splice(before, us[i]);
    assert longer <= after;
    forall k | 0 <= k < |us[i]|
      ensures longer[|before| - 1 + k] == us[i][k]
    {
    }
  }

  /** Where parts of a journey without repeats start, no part from there on ends. */
  lemma PartsNeverReturn(g: Graph, us: seq<Walk>, o: Origin, i: nat, k: nat)
    requires us != [] && i <= k < |us| && Consecutive(g, [us[0][0]], us, o)
    requires NoNodeTwice(g, Journey(g, [us[0][0]], us, o))
    requires !g.Kind(us[i][0]).JumpTo? && |us[k]| > 1
    ensures us[i][0] != Last(us[k])
  {
    hide Journey, Consecutive, Way;
    PartOfWay(g, us, o, i);
    PartOfWay(g, us, o, k);
    WayGrows(g, us, o, i, k);
    var w := Journey(g, [us[0][0]], us, o);
    var a, b := |Way(g, us, o, i)| - 1, |Way(g, us, o, k)| - 1 + |us[k]| - 1;
    assert w[a] == us[i][0] && w[b] == Last(us[k]) && a < b;
  }

  // ---------------------------------------------------------------------------------------------
  // Nothing of a walk without repeats is cut off

  /** A segment without repeats is not cut off. */
  lemma SegmentNotCutOff(file: File, f: Fifo<Seen, Item>, steps: nat, n: NodeHandle, edges: seq<Edge>)
    requires file.Valid() && f.state == None && Uninterrupted(file, n, edges) && NoNodeTwice(file.g, Nodes(n, edges))
    ensures !CutOff(SearchOf(file), f, steps, FragmentsOf(file.g, n, edges))
  {
    hide CutOff, Uninterrupted, IsInitial, NodePath;
    StartsAtEndpoint(file, n, edges);
    EndpointInitial(file, n);
    var fragments := EdgeFragments(edges);
    forall k | 0 <= k < |fragments| - 1
      ensures !ComesBack(n, fragments, k)
    {
      EdgesNeverReturn(file, n, edges, k);
    }
    SimpleNotCutOff(SearchOf(file), f, steps, NodePath(file.g, n), fragments);
  }

  lemma EdgesNeverReturn(file: File, n: NodeHandle, edges: seq<Edge>, k: nat)
    requires file.Valid() && Uninterrupted(file, n, edges) && NoNodeTwice(file.g, Nodes(n, edges))
    requires k < |edges| - 1
    ensures !ComesBack(n, EdgeFragments(edges), k)
  {
    hide Uninterrupted, Nodes;
    UninterruptedIsChain(file, n, edges);
    InnerSinks(file, n, edges, k);
    var w := Nodes(n, edges);
    assert w[k + 1] == edges[k].sink && w[0] == n;
    forall i | 0 <= i <= k
      ensures edges[i].source != edges[k].sink
    {
      SourceOnWalk(n, edges, i);
    }
  }

  lemma {:induction false} SourceOnWalk(n: NodeHandle, edges: seq<Edge>, i: nat)
    requires Chain(n, edges) && i < |edges|
    ensures edges[i].source == Nodes(n, edges)[i]
  {
    var front := edges[..|edges| - 1];
    NodesSnoc(n, front, edges[|edges| - 1]);
    assert edges == front + [edges[|edges| - 1]];
    if i < |front| {
      SourceOnWalk(n, front, i);
    }
  }

  lemma PartSimple(g: Graph, us: seq<Walk>, o: Origin, i: nat)
    requires us != [] && i < |us| && Consecutive(g, [us[0][0]], us, o)
    requires NoNodeTwice(g, Journey(g, [us[0][0]], us, o))
    ensures NoNodeTwice(g, us[i])
  {
    hide Journey, Consecutive, Way;
    PartOfWay(g, us, o, i);
    var w, at := Journey(g, [us[0][0]], us, o), |Way(g, us, o, i)| - 1;
    forall a, b | 0 <= a < b < |us[i]| && us[i][a] == us[i][b]
      ensures g.Kind(us[i][a]).JumpTo?
    {
      assert w[at + a] == us[i][a] && w[at + b] == us[i][b];
    }
  }

  /** The legs of a walk without repeats are not cut off ... */
  lemma LegNotCutOff(store: Store, files: seq<IndexedFile>, legs: seq<Leg>, w: Walk, i: nat)
    requires AllIndexed(store, files) && (forall a :: 0 <= a < |files| ==> files[a].f.state == None)
    requires IsJourney(store.g, files, legs, w) && NoNodeTwice(store.g, w) && i < |legs|
    ensures !LegCutOff(files, legs[i])
  {
    hide Journey, Consecutive, CutOff, Uninterrupted, FinishedRun, NoNodeTwice, Settle, Nodes;
    var us, leg := LegWalks(store.g, legs), legs[i];
    JourneyStarts(store.g, files, legs, w);
    PartSimple(store.g, us, Nowhere, i);
    IndexedValid(store, files, leg.file);
    SettledSimple(store.g, leg);
    SegmentNotCutOff(files[leg.file].file, files[leg.file].f, files[leg.file].steps, leg.node, leg.edges);
  }

  lemma JourneyStarts(g: Graph, files: seq<IndexedFile>, legs: seq<Leg>, w: Walk)
    requires IsJourney(g, files, legs, w) && legs != []
    ensures LegWalks(g, legs)[0][0] == w[0]
  {
    var us := LegWalks(g, legs);
    FirstMeets(g, [w[0]], us, 0, Nowhere);
  }

  lemma SettledSimple(g: Graph, leg: Leg)
    requires NoNodeTwice(g, LegWalk(g, leg))
    ensures NoNodeTwice(g, Nodes(leg.node, leg.edges))
  {
    hide Decided;
    var w, v := Nodes(leg.node, leg.edges), LegWalk(g, leg);
    assert forall k :: 0 <= k < |w| ==> w[k] == v[k];
  }

  /** ... and neither is what their stored paths stitch to. */
  lemma StitchNotCutOff(store: Store, f: Fifo<Seen, Item>, steps: nat, us: seq<Walk>)
    requires store.Valid() && f.state == None && us != []
    requires Consecutive(store.g, [us[0][0]], us, Nowhere) && store.g.Kind(us[0][0]).IsReference()
    requires NoNodeTwice(store.g, Journey(store.g, [us[0][0]], us, Nowhere))
    requires forall k :: 0 <= k < |us| ==> |us[k]| > 1
    ensures !StitchCutOff(store, f, steps, us[0][0], us)
  {
    hide CutOff, Journey, Consecutive, Complete.Resolves, NoNodeTwice, Store.Valid, IsInitial;
    var n := us[0][0];
    StoreStarts(store, n);
    if StitchCutOff(store, f, steps, n, us) {
      var ps :| ResolvesOver(store, n, ps, us) &&
        CutOff(SearchIn(store), f, steps, [PathFragment(ReferenceStart(store.g, n))] + PathFragments(ps));
      var fragments := PathFragments(ps);
      forall k | 0 <= k < |fragments|
        ensures !ComesBack(n, fragments, k)
      {
        StoredNeverReturn(store, ps, us, k);
      }
      SimpleNotCutOff(SearchIn(store), f, steps, ReferenceStart(store.g, n), fragments);
    }
  }

  lemma StoreStarts(store: Store, n: NodeHandle)
    requires store.Valid() && store.g.Kind(n).IsReference()
    ensures SearchIn(store).g.AttachedScopesExist() && IsInitial(SearchIn(store), ReferenceStart(store.g, n))
    ensures ReferenceStart(store.g, n).startNode == n
  {
    StoreSensible(store);
    ReferenceInitial(SearchIn(store), n);
  }

  lemma StoredNeverReturn(store: Store, ps: seq<PartialPath>, us: seq<Walk>, k: nat)
    requires us != [] && Consecutive(store.g, [us[0][0]], us, Nowhere)
    requires DescribeAll(store.g, PathFragments(ps), us)
    requires NoNodeTwice(store.g, Journey(store.g, [us[0][0]], us, Nowhere))
    requires k < |us| && |us[k]| > 1
    ensures !ComesBack(us[0][0], PathFragments(ps), k)
  {
    hide Journey, Consecutive, NoNodeTwice, Summary, Open;
    var fragments := PathFragments(ps);
    DescribedStart(store.g, fragments[k], us[k]);
    DescribedStart(store.g, fragments[0], us[0]);
    DescribedEnd(store.g, ps[k], us[k]);
    PartsNeverReturn(store.g, us, Nowhere, 0, k);
    forall i | 0 <= i <= k
      ensures fragments[i].StartNode() != fragments[k].EndNode()
    {
      DescribedStart(store.g, fragments[i], us[i]);
      PartsNeverReturn(store.g, us, Nowhere, i, k);
    }
  }

  lemma DescribedEnd(g: Graph, p: PartialPath, u: Walk)
    requires Describes(g, PathFragment(p), u)
    ensures p.endNode == Last(u)
  {
  }

  // ---------------------------------------------------------------------------------------------
  // Walks without repeats are found

  lemma LegsMove(g: Graph, files: seq<IndexedFile>, legs: seq<Leg>, k: nat)
    requires k < |legs| && IsLeg(files, legs[k])
    ensures |LegWalks(g, legs)[k]| > 1
  {
    hide Uninterrupted, Decided;
  }

  lemma SimpleNotLost(store: Store, files: seq<IndexedFile>, f: Fifo<Seen, Item>, steps: nat, legs: seq<Leg>, w: Walk)
    requires store.Valid() && AllIndexed(store, files) && f.state == None && Complete.Resolves(store.g, w)
    requires (forall a :: 0 <= a < |files| ==> files[a].f.state == None) && NoNodeTwice(store.g, w)
    requires IsJourney(store.g, files, legs, w) && Lost(store, files, f, steps, w[0], legs)
    ensures exists i :: 0 <= i < |legs| && Hidden(store.g, legs[i])
  {
    hide Store.Valid, AllIndexed, IsLeg, Journey, Consecutive, LegCutOff, Hidden, StitchCutOff, NoNodeTwice,
      LegWalk, Run;
    if i :| 0 <= i < |legs| && LegCutOff(files, legs[i]) {
      LegNotCutOff(store, files, legs, w, i);
    } else if forall i :: 0 <= i < |legs| ==> !Hidden(store.g, legs[i]) {
      var us := LegWalks(store.g, legs);
      if legs != [] {
        JourneyStarts(store.g, files, legs, w);
        forall k | 0 <= k < |us|
          ensures |us[k]| > 1
        {
          LegsMove(store.g, files, legs, k);
        }
        StitchNotCutOff(store, f, steps, us);
      } else {
        NothingResolved(store, f, steps, w, us);
      }
    }
  }

  lemma NothingResolved(store: Store, f: Fifo<Seen, Item>, steps: nat, w: Walk, us: seq<Walk>)
    requires us == []
    ensures !StitchCutOff(store, f, steps, w[0], us)
  {
  }

  /**
   Without similar path detection: every walk along the indexed files that resolves a reference, and comes to no node
   but jumps twice, is found.  The one exception is a segment that leaves the root on an empty symbol stack.
   */
  lemma SimpleWalksFound(store: Store, files: seq<IndexedFile>, f: Fifo<Seen, Item>, steps: nat,
                         nodes: seq<NodeHandle>, visited: seq<PartialPath>, w: Walk)
    requires store.Valid() && AllIndexed(store, files) && FilesOf(store.g, files)
    requires AllResolutions(SearchIn(store), f, steps, nodes, visited)
    requires f.state == None && forall a :: 0 <= a < |files| ==> files[a].f.state == None
    requires w[0] in nodes && AlongFiles(store.g, files, w) && Complete.Resolves(store.g, w)
    requires NoNodeTwice(store.g, w)
    ensures || (exists p :: p in visited && Denotes(store.g, p, w, Nowhere))
            || (exists legs, i :: IsJourney(store.g, files, legs, w) && 0 <= i < |legs| && Hidden(store.g, legs[i]))
  {
    hide Store.Valid, AllIndexed, FilesOf, AllResolutions, AlongFiles, Complete.Resolves, NoNodeTwice, IsJourney, Lost,
      Hidden, Denotes;
    WalksCovered(store, files, f, steps, nodes, visited, w);
    if legs :| IsJourney(store.g, files, legs, w) && Lost(store, files, f, steps, w[0], legs) {
      SimpleNotLost(store, files, f, steps, legs, w);
    }
  }
}
