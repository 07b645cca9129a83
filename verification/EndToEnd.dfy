/**
 Files indexed one by one, and references resolved over the stored paths alone: every journey over segments
 of files that resolves a reference is found.  It is lost only if one of the checks cuts off one of its
 segments or their stitch, or if one of its segments leaves the root on an empty symbol stack.
 */
module EndToEnd {
  import opened Wrappers
  import opened Graphs
  import opened Patterns
  import opened PartialPaths
  import opened Exactness
  import opened AppendExactness
  import opened Settling
  import opened Stitching
  import opened CycleDetection
  import Complete = CompletePaths
  import opened Worklists
  import opened Stitcher
  import opened SearchCoverage
  import opened MinimalPathSet
  import opened SegmentSearch
  import opened SegmentCoverage
  import opened PathFinding
  import opened DatabaseSearch

  /** A file, the run of the search for its segments, and the paths that it has visited. */
  datatype IndexedFile = IndexedFile(
    file: File,
    f: Fifo<Seen, Item>,
    steps: nat,
    nodes: seq<NodeHandle>,
    visited: seq<PartialPath>)
  {
    ghost predicate Done(g: Graph) {
      && file.g == g && FinishedRun(file, f, steps) && f.pending == InitialItems(EndpointStarts(g, nodes))
      && OnlySegments(file, nodes, visited) && AllSegments(file, f, steps, nodes, visited)
    }
  }

  /** One segment of a journey, and the file that it is in. */
  datatype Leg = Leg(file: nat, node: NodeHandle, edges: seq<Edge>)

  /** All files have been searched, and the paths visited are in the database. */
  ghost predicate AllIndexed(store: Store, files: seq<IndexedFile>) {
    forall i :: 0 <= i < |files| ==>
      files[i].Done(store.g) && forall p :: p in files[i].visited ==> p in store.paths
  }

  /** What searches of files have visited can be stored. */
  lemma VisitedStorable(g: Graph, at: IndexedFile, p: PartialPath)
    requires at.Done(g) && p in at.visited
    ensures Storable(g, p)
  {
    hide FinishedRun, AllSegments, Segment, Nodes, Settle, EndpointStarts, Describes;
    assert IsSegment(at.file, at.nodes, p);
    var n, edges :| n in at.nodes && Segment(at.file, n, edges) && SummarisesSegment(at.file, p, n, edges);
    assert Describes(g, PathFragment(p), Settle(g, Nodes(n, edges), Anywhere));
  }

  ghost predicate IsLeg(files: seq<IndexedFile>, leg: Leg) {
    && leg.file < |files| && leg.node in files[leg.file].nodes
    && Segment(files[leg.file].file, leg.node, leg.edges)
  }

  ghost function LegWalk(g: Graph, leg: Leg): Walk {
    Settle(g, Nodes(leg.node, leg.edges), Anywhere)
  }

  ghost function LegWalks(g: Graph, legs: seq<Leg>): (us: seq<Walk>)
    ensures |us| == |legs|
  {
    seq(|legs|, i requires 0 <= i < |legs| => LegWalk(g, legs[i]))
  }

  /** A check has cut off the segment, in the search of its file. */
  ghost predicate LegCutOff(files: seq<IndexedFile>, leg: Leg) {
    leg.file < |files| &&
    var at := files[leg.file];
    CutOff(SearchOf(at.file), at.f, at.steps, FragmentsOf(at.file.g, leg.node, leg.edges))
  }

  /** The segment leaves the root, and can be run on an empty symbol stack: its path is stored but not indexed. */
  ghost predicate Hidden(g: Graph, leg: Leg) {
    g.Kind(leg.node).Root? && exists c :: Run(g, LegWalk(g, leg), Stacks([], c)).Some?
  }

  /** The segments of a journey that can be run can be run themselves. */
  lemma LegPassable(g: Graph, n: NodeHandle, legs: seq<Leg>, i: nat)
    requires Consecutive(g, [n], LegWalks(g, legs), Nowhere) &&
             Passable(g, Journey(g, [n], LegWalks(g, legs), Nowhere), Nowhere)
    requires forall k :: 0 <= k < |legs| ==> !g.Kind(legs[k].node).JumpTo?
    requires i < |legs|
    ensures Passable(g, Nodes(legs[i].node, legs[i].edges), Anywhere)
  {
    hide Passable, Settle, Nodes, Journey, Consecutive;
    var us := LegWalks(g, legs);
    forall k | 0 <= k < |us|
      ensures !g.Kind(us[k][0]).JumpTo?
    {
      SettleStart(g, legs[k]);
    }
    PassableRun(g, [n], us, i, i + 1, Nowhere);
    assert us[i..i + 1] == [us[i]];
    var none: seq<Walk> := [];
    assert [us[i]][..0] == none && SpliceAll([us[i][0]], none) == [us[i][0]];
    assert SpliceAll([us[i][0]], [us[i]]) == us[i];
    LegSettled(g, legs[i]);
  }

  lemma SettleStart(g: Graph, leg: Leg)
    ensures LegWalk(g, leg)[0] == leg.node
  {
  }

  lemma LegSettled(g: Graph, leg: Leg)
    requires Passable(g, LegWalk(g, leg), Anywhere)
    ensures Passable(g, Nodes(leg.node, leg.edges), Anywhere)
  {
    SettledPassable(g, Nodes(leg.node, leg.edges), Anywhere);
  }

  /** The stored path of a segment. */
  lemma LegPath(store: Store, files: seq<IndexedFile>, leg: Leg) returns (p: PartialPath)
    requires AllIndexed(store, files) && IsLeg(files, leg)
    requires Passable(store.g, Nodes(leg.node, leg.edges), Anywhere)
    requires !LegCutOff(files, leg) && !Hidden(store.g, leg)
    ensures p in store.paths && Indexed(store.g, p) && Describes(store.g, PathFragment(p), LegWalk(store.g, leg))
  {
    hide FinishedRun, Segment, CutOff, Passable, Nodes, Settle;
    var at := files[leg.file];
    assert at.Done(store.g);
    assert PassableSegment(at.file, leg.node, leg.edges);
    assert CoversSegment(at.file, at.f, at.steps, at.visited, leg.node, leg.edges);
    p :| p in at.visited && SummarisesSegment(at.file, p, leg.node, leg.edges);
    SettleStart(store.g, leg);
    if !Indexed(store.g, p) {
      EmptyStackRuns(store.g, p, LegWalk(store.g, leg));
    }
  }

  lemma EmptyStackRuns(g: Graph, p: PartialPath, w: Walk)
    requires Summary(g, p, w, Anywhere) && p.symbolPre.symbols == []
    ensures exists c :: Run(g, w, Stacks([], c)).Some?
  {
    var s := Before(p, NOTHING);
    assert Run(g, w, s) == Some(After(p, NOTHING));
    assert s == Stacks([], s.scopes);
  }

  lemma {:induction false} LegPaths(store: Store, files: seq<IndexedFile>, legs: seq<Leg>)
    returns (ps: seq<PartialPath>)
    requires AllIndexed(store, files)
    requires forall i :: 0 <= i < |legs| ==>
      && IsLeg(files, legs[i]) && Passable(store.g, Nodes(legs[i].node, legs[i].edges), Anywhere)
      && !LegCutOff(files, legs[i]) && !Hidden(store.g, legs[i])
    ensures |ps| == |legs| && AllStored(store, ps) && DescribeAll(store.g, PathFragments(ps), LegWalks(store.g, legs))
  {
    hide AllIndexed, IsLeg, Passable, LegCutOff, Hidden, Nodes, LegWalk, Describes, Indexed;
    if legs == [] {
      ps := [];
    } else {
      var front, last := legs[..|legs| - 1], legs[|legs| - 1];
      var before := LegPaths(store, files, front);
      var p := LegPath(store, files, last);
      ps := before + [p];
      assert forall i :: 0 <= i < |front| ==> PathFragments(ps)[i] == PathFragments(before)[i];
      assert forall i :: 0 <= i < |front| ==> LegWalks(store.g, legs)[i] == LegWalks(store.g, front)[i];
    }
  }

  /** The legs' journey resolves the reference. */
  ghost predicate ResolvesAlong(g: Graph, n: NodeHandle, legs: seq<Leg>) {
    && legs != [] && Consecutive(g, [n], LegWalks(g, legs), Nowhere)
    && Complete.Resolves(g, Journey(g, [n], LegWalks(g, legs), Nowhere))
  }

  /** Some check has cut off what the reference and stored paths of these walks stitch to. */
  ghost predicate StitchCutOff(store: Store, f: Fifo<Seen, Item>, steps: nat, n: NodeHandle, us: seq<Walk>) {
    exists ps :: ResolvesOver(store, n, ps, us) &&
      CutOff(SearchIn(store), f, steps, [PathFragment(ReferenceStart(store.g, n))] + PathFragments(ps))
  }

  /**
   `visited` are the paths that a search of the database from `nodes` has visited, in the `steps` steps of
   worklist `f`.  Every journey over segments of the files that resolves one of the references is found.
   */
  lemma ResolutionsCovered(store: Store, files: seq<IndexedFile>, f: Fifo<Seen, Item>, steps: nat,
                           nodes: seq<NodeHandle>, visited: seq<PartialPath>, n: NodeHandle, legs: seq<Leg>)
    requires store.Valid() && AllIndexed(store, files)
    requires AllResolutions(SearchIn(store), f, steps, nodes, visited)
    requires n in nodes && (forall i :: 0 <= i < |legs| ==> IsLeg(files, legs[i])) && ResolvesAlong(store.g, n, legs)
    ensures || (exists p :: p in visited && Denotes(store.g, p, Journey(store.g, [n], LegWalks(store.g, legs), Nowhere),
                                                    Nowhere))
            || (exists i :: 0 <= i < |legs| && LegCutOff(files, legs[i]))
            || (exists i :: 0 <= i < |legs| && Hidden(store.g, legs[i]))
            || StitchCutOff(store, f, steps, n, LegWalks(store.g, legs))
  {
    hide Store.Valid, AllIndexed, IsLeg, AllResolutions, LegCutOff, Hidden, StitchCutOff, ResolvesAlong, Denotes,
      LegWalks;
    if (forall i :: 0 <= i < |legs| ==> !LegCutOff(files, legs[i])) &&
      (forall i :: 0 <= i < |legs| ==> !Hidden(store.g, legs[i])) {
      var ps := ResolvingPaths(store, files, n, legs);
      StoredPathsFound(store, f, steps, nodes, visited, n, ps, LegWalks(store.g, legs));
    }
  }

  /** Stored paths for all legs. */
  lemma ResolvingPaths(store: Store, files: seq<IndexedFile>, n: NodeHandle, legs: seq<Leg>)
    returns (ps: seq<PartialPath>)
    requires store.Valid() && AllIndexed(store, files)
    requires (forall i :: 0 <= i < |legs| ==> IsLeg(files, legs[i])) && ResolvesAlong(store.g, n, legs)
    requires forall i :: 0 <= i < |legs| ==> !LegCutOff(files, legs[i]) && !Hidden(store.g, legs[i])
    ensures |ps| == |legs| && ResolvesOver(store, n, ps, LegWalks(store.g, legs))
  {
    hide Store.Valid, AllIndexed, IsLeg, LegCutOff, Hidden, Journey, Consecutive, Complete.Resolves, Passable, LegWalk,
      Nodes, Describes, Indexed;
    var us := LegWalks(store.g, legs);
    ResolvedPassable(store, n, us);
    LegsStart(store, files, legs);
    forall i | 0 <= i < |legs|
      ensures Passable(store.g, Nodes(legs[i].node, legs[i].edges), Anywhere)
    {
      LegPassable(store.g, n, legs, i);
    }
    ps := LegPaths(store, files, legs);
  }

  lemma StoredPathsFound(store: Store, f: Fifo<Seen, Item>, steps: nat, nodes: seq<NodeHandle>,
                         visited: seq<PartialPath>, n: NodeHandle, ps: seq<PartialPath>, us: seq<Walk>)
    requires store.Valid() && AllResolutions(SearchIn(store), f, steps, nodes, visited)
    requires n in nodes && ResolvesOver(store, n, ps, us)
    ensures || (exists p :: p in visited && Denotes(store.g, p, Journey(store.g, [n], us, Nowhere), Nowhere))
            || StitchCutOff(store, f, steps, n, us)
  {
    hide Store.Valid, AllResolutions, CutOff, Journey, Consecutive, Complete.Resolves, Denotes, Describes, Indexed;
    JourneyFound(store, f, steps, nodes, visited, n, ps, us);
  }

  lemma LegsStart(store: Store, files: seq<IndexedFile>, legs: seq<Leg>)
    requires AllIndexed(store, files) && forall i :: 0 <= i < |legs| ==> IsLeg(files, legs[i])
    ensures forall i :: 0 <= i < |legs| ==> !store.g.Kind(legs[i].node).JumpTo?
  {
    hide Uninterrupted, FinishedRun, AllSegments;
    forall i | 0 <= i < |legs|
      ensures !store.g.Kind(legs[i].node).JumpTo?
    {
      assert files[legs[i].file].Done(store.g);
      StartsAtEndpoint(files[legs[i].file].file, legs[i].node, legs[i].edges);
    }
  }
}
