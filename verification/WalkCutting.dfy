/**
 Walks over the edges of files that have been indexed, cut into segments.  Every walk that resolves a
 reference and moves along edges within a file, from one file into another at the root, and over jumps, is
 the journey of some segments.  So the paths stored for the files cover it.
 */
module WalkCutting {
  import opened Wrappers
  import opened Graphs
  import opened PartialPaths
  import opened Exactness
  import opened AppendExactness
  import opened Settling
  import opened Stitching
  import Complete = CompletePaths
  import opened Worklists
  import opened Stitcher
  import opened MinimalPathSet
  import opened SegmentCoverage
  import opened PathFinding
  import opened DatabaseSearch
  import opened EndToEnd

  /**
   The files are those of one graph: a node is in one file only, other than the root and jumps, and the
   endpoints in a file are where the search of the file has started.
   */
  ghost predicate FilesOf(g: Graph, files: seq<IndexedFile>) {
    && (forall a, x :: 0 <= a < |files| && files[a].file.contains(x) && g.Kind(x).IsEndpoint() ==> x in files[a].nodes)
    && (forall a, b, x :: 0 <= a < b < |files| && files[a].file.contains(x) && files[b].file.contains(x) ==>
          g.Kind(x).Root? || g.Kind(x).JumpTo?)
  }

  /** An edge of the file, with both of its nodes in the file. */
  predicate Inside(file: File, e: Edge) {
    IsFileEdge(file, e) && file.contains(e.source)
  }

  ghost predicate FileMove(files: seq<IndexedFile>, x: NodeHandle, y: NodeHandle) {
    exists a, e :: 0 <= a < |files| && Inside(files[a].file, e) && e.source == x && e.sink == y
  }

  /** The moves of the walk are edges inside files, or jumps. */
  ghost predicate AlongFiles(g: Graph, files: seq<IndexedFile>, w: Walk) {
    forall i :: 0 <= i < |w| - 1 ==> g.Kind(w[i]).JumpTo? || FileMove(files, w[i], w[i + 1])
  }

  /** The walk is the journey of the legs. */
  ghost predicate IsJourney(g: Graph, files: seq<IndexedFile>, legs: seq<Leg>, w: Walk) {
    && (forall i :: 0 <= i < |legs| ==> IsLeg(files, legs[i]))
    && Consecutive(g, [w[0]], LegWalks(g, legs), Nowhere)
    && Journey(g, [w[0]], LegWalks(g, legs), Nowhere) == w
  }

  /** The walk is the journey of the legs, and has gone on along the beginning of one more segment. */
  ghost predicate CutSoFar(g: Graph, files: seq<IndexedFile>, legs: seq<Leg>, j: Walk, part: Leg, w: Walk) {
    && IsJourney(g, files, legs, j)
    && part.node == Last(j) && g.Kind(part.node).IsEndpoint()
    && w == Splice(j, Nodes(part.node, part.edges))
    && (part.edges != [] ==> Going(files, part) && !EndsSegment(g.Kind(Last(w))))
  }

  ghost predicate Going(files: seq<IndexedFile>, part: Leg) {
    && part.file < |files| && part.node in files[part.file].nodes
    && Uninterrupted(files[part.file].file, part.node, part.edges)
  }

  // ---------------------------------------------------------------------------------------------
  // Closing a leg

  /** One more leg on a journey. */
  lemma JourneySnoc(g: Graph, files: seq<IndexedFile>, legs: seq<Leg>, j: Walk, leg: Leg)
    requires IsJourney(g, files, legs, j) && IsLeg(files, leg) && leg.node == Last(j)
    ensures IsJourney(g, files, legs + [leg], Settle(g, Splice(j, LegWalk(g, leg)), Nowhere))
  {
    hide IsLeg, LegWalk, Settle;
    var us, all := LegWalks(g, legs), LegWalks(g, legs + [leg]);
    assert all[..|us|] == us;
    assert all[|us|] == LegWalk(g, leg);
    SettleStart(g, leg);
    assert (legs + [leg])[..|legs|] == legs;
  }

  /** A walk that goes on from a jump settles there. */
  lemma SettlesAtJump(g: Graph, j: Walk, u: Walk, t: NodeHandle)
    requires Last(j) == u[0] && g.Kind(Last(u)).JumpTo?
    requires Run(g, Splice(j, u) + [t], Stacks([], [])).Some?
    ensures Settle(g, Splice(j, Settle(g, u, Anywhere)), Nowhere) == Splice(j, u) + [t]
  {
    hide Settle;
    var long, s := Splice(j, u), Stacks([], []);
    RunExtend(g, long, t, s);
    var c := Run(g, long, s).value.scopes;
    assert Nowhere.Admits(s) && EndsWith(g, long, Nowhere, c);
    SplicedEnds(g, j, u, Nowhere, c);
    SettlesFeasibly(g, u, c, t);
    SettledPart(g, j, u, Nowhere);
    NowhereUndecided(g, long);
  }

  lemma SettlesFeasibly(g: Graph, u: Walk, c: ScopeStack, t: NodeHandle)
    requires EndsWith(g, u, Anywhere, c) && c != [] && c[0] == t && g.Kind(t).IsExportedScope()
    ensures Feasible(g, Settle(g, u, Anywhere), Anywhere)
  {
    hide Run;
    var s :| Anywhere.Admits(s) && Run(g, u, s).Some? && Run(g, u, s).value.scopes == c;
    if Decided(g, u, Anywhere) {
      var v := Settle(g, u, Anywhere);
      assert v == u + [t];
      RunExtend(g, u, t, s);
      assert Anywhere.Admits(s) && Run(g, v, s).Some?;
    }
  }

  // ---------------------------------------------------------------------------------------------
  // One move

  /** The edge that the walk has moved along, in the file of the segment begun. */
  lemma NextEdge(g: Graph, files: seq<IndexedFile>, legs: seq<Leg>, j: Walk, part: Leg, w: Walk, y: NodeHandle)
    returns (next: Leg)
    requires FilesOf(g, files) && CutSoFar(g, files, legs, j, part, w) && FileMove(files, Last(w), y)
    requires forall a :: 0 <= a < |files| ==> files[a].file.g == g
    ensures Going(files, next) && next.node == part.node && next.edges != []
    ensures w + [y] == Splice(j, Nodes(next.node, next.edges)) && EndOf(next.node, next.edges) == y
  {
    hide FilesOf, IsJourney, EndsSegment, Uninterrupted, IsFileEdge, Node.IsEndpoint, Nodes;
    var a, e :| 0 <= a < |files| && Inside(files[a].file, e) && e.source == Last(w) && e.sink == y;
    next := Leg(a, part.node, part.edges + [e]);
    assert IsFileEdge(files[a].file, e);
    NodesSnoc(part.node, part.edges, e);
    if part.edges == [] {
      assert Nodes(part.node, part.edges) == [part.node];
      EndpointInside(g, files, a, part.node);
    } else {
      SameFile(g, files, part, a, Last(w));
    }
    GoesOn(files[a].file, part.node, part.edges, e);
  }

  lemma EndpointInside(g: Graph, files: seq<IndexedFile>, a: nat, x: NodeHandle)
    requires FilesOf(g, files) && a < |files| && files[a].file.contains(x) && g.Kind(x).IsEndpoint()
    ensures x in files[a].nodes
  {
  }

  lemma GoesOn(file: File, n: NodeHandle, edges: seq<Edge>, e: Edge)
    requires if edges == [] then file.g.Kind(n).IsEndpoint() else Uninterrupted(file, n, edges)
    requires IsFileEdge(file, e) && e.source == EndOf(n, edges)
    requires edges != [] ==> !EndsSegment(file.g.Kind(EndOf(n, edges)))
    ensures Uninterrupted(file, n, edges + [e])
  {
    assert (edges + [e])[..|edges|] == edges;
  }

  lemma SameFile(g: Graph, files: seq<IndexedFile>, part: Leg, a: nat, x: NodeHandle)
    requires FilesOf(g, files) && Going(files, part) && part.edges != [] && x == EndOf(part.node, part.edges)
    requires a < |files| && files[a].file.contains(x) && !EndsSegment(g.Kind(x))
    ensures a == part.file
  {
    assert files[part.file].file.contains(x);
  }

  /** Moving along an edge to an endpoint closes the leg; moving on to another node that is no jump does not. */
  lemma CutEdge(g: Graph, files: seq<IndexedFile>, legs: seq<Leg>, j: Walk, part: Leg, w: Walk, y: NodeHandle)
    returns (legs': seq<Leg>, j': Walk, part': Leg)
    requires FilesOf(g, files) && CutSoFar(g, files, legs, j, part, w) && FileMove(files, Last(w), y)
    requires (forall a :: 0 <= a < |files| ==> files[a].file.g == g) && !g.Kind(y).JumpTo?
    ensures CutSoFar(g, files, legs', j', part', w + [y]) && j'[0] == j[0]
  {
    hide FilesOf, IsJourney, Uninterrupted;
    var next := NextEdge(g, files, legs, j, part, w, y);
    if g.Kind(y).IsEndpoint() {
      JourneySnoc(g, files, legs, j, next);
      legs', j', part' := legs + [next], w + [y], Leg(0, y, []);
      assert Nodes(y, []) == [y];
    } else {
      legs', j', part' := legs, j, next;
    }
  }

  /** Moving along an edge into a jump and on from there closes the leg. */
  lemma CutJump(g: Graph, files: seq<IndexedFile>, legs: seq<Leg>, j: Walk, part: Leg, w: Walk, y: NodeHandle,
                t: NodeHandle)
    returns (legs': seq<Leg>, j': Walk, part': Leg)
    requires FilesOf(g, files) && CutSoFar(g, files, legs, j, part, w) && FileMove(files, Last(w), y)
    requires (forall a :: 0 <= a < |files| ==> files[a].file.g == g) && g.Kind(y).JumpTo?
    requires Run(g, w + [y] + [t], Stacks([], [])).Some?
    ensures CutSoFar(g, files, legs', j', part', w + [y] + [t]) && j'[0] == j[0]
  {
    hide FilesOf, IsJourney, Uninterrupted, Settle, Run, Nodes, FileMove;
    var next := NextEdge(g, files, legs, j, part, w, y);
    JourneySnoc(g, files, legs, j, next);
    SettlesAtJump(g, j, Nodes(next.node, next.edges), t);
    RunExtend(g, w + [y], t, Stacks([], []));
    legs', j', part' := legs + [next], w + [y] + [t], Leg(0, t, []);
    assert Nodes(t, []) == [t];
  }

  // ---------------------------------------------------------------------------------------------
  // Cutting

  lemma AlongFront(g: Graph, files: seq<IndexedFile>, w: Walk, k: nat)
    requires AlongFiles(g, files, w) && 0 < k <= |w|
    ensures AlongFiles(g, files, w[..k])
  {
    hide FileMove;
    forall i | 0 <= i < k - 1
      ensures g.Kind(w[..k][i]).JumpTo? || FileMove(files, w[..k][i], w[..k][i + 1])
    {
      assert g.Kind(w[i]).JumpTo? || FileMove(files, w[i], w[i + 1]);
    }
  }

  /** Every walk from an endpoint that is not at a jump is cut so far. */
  lemma {:induction false} CutWalk(g: Graph, files: seq<IndexedFile>, w: Walk)
    returns (legs: seq<Leg>, j: Walk, part: Leg)
    requires FilesOf(g, files) && forall a :: 0 <= a < |files| ==> files[a].file.g == g && files[a].file.Valid()
    requires AlongFiles(g, files, w) && Run(g, w, Stacks([], [])).Some?
    requires g.Kind(w[0]).IsEndpoint() && !g.Kind(Last(w)).JumpTo?
    ensures CutSoFar(g, files, legs, j, part, w) && j[0] == w[0]
    decreases |w|
  {
    hide FilesOf, CutSoFar, FileMove, Run;
    if |w| == 1 {
      legs, j, part := [], w, Leg(0, w[0], []);
      CutNone(g, files, w);
    } else {
      var front := w[..|w| - 1];
      assert w == front + [Last(w)];
      RunExtend(g, front, Last(w), Stacks([], []));
      AlongFront(g, files, w, |w| - 1);
      if g.Kind(Last(front)).JumpTo? {
        var before := front[..|front| - 1];
        assert front == before + [Last(front)];
        RunExtend(g, before, Last(front), Stacks([], []));
        AlongFront(g, files, w, |w| - 2);
        assert before == w[..|w| - 2];
        NoneToJump(g, before, Last(front));
        assert FileMove(files, w[|w| - 3], w[|w| - 2]);
        legs, j, part := CutWalk(g, files, before);
        legs, j, part := CutJump(g, files, legs, j, part, before, Last(front), Last(w));
      } else {
        assert FileMove(files, w[|w| - 2], w[|w| - 1]);
        legs, j, part := CutWalk(g, files, front);
        legs, j, part := CutEdge(g, files, legs, j, part, front, Last(w));
      }
    }
  }

  /** No jump leads to a jump. */
  lemma NoneToJump(g: Graph, w: Walk, y: NodeHandle)
    requires Run(g, w + [y], Stacks([], [])).Some? && g.Kind(y).JumpTo?
    ensures !g.Kind(Last(w)).JumpTo?
  {
    RunExtend(g, w, y, Stacks([], []));
  }

  lemma CutNone(g: Graph, files: seq<IndexedFile>, w: Walk)
    requires |w| == 1 && g.Kind(w[0]).IsEndpoint()
    ensures CutSoFar(g, files, [], w, Leg(0, w[0], []), w)
  {
    assert Nodes(w[0], []) == [w[0]];
    assert w == [w[0]];
  }

  /** Every walk along files that resolves a reference is the journey of some of their segments. */
  lemma ResolutionIsJourney(g: Graph, files: seq<IndexedFile>, w: Walk) returns (legs: seq<Leg>)
    requires FilesOf(g, files) && forall a :: 0 <= a < |files| ==> files[a].file.g == g && files[a].file.Valid()
    requires AlongFiles(g, files, w) && Complete.Resolves(g, w)
    ensures legs != [] && IsJourney(g, files, legs, w)
  {
    hide FilesOf, AlongFiles, Run;
    var j, part;
    legs, j, part := CutWalk(g, files, w);
    assert part.edges == [];
    assert Nodes(part.node, part.edges) == [part.node];
    assert w == j;
  }

  /** One of the segments or the stitch of their paths is cut off, or a segment is stored but not indexed. */
  ghost predicate Lost(store: Store, files: seq<IndexedFile>, f: Fifo<Seen, Item>, steps: nat, n: NodeHandle,
                       legs: seq<Leg>)
  {
    || (exists i :: 0 <= i < |legs| && LegCutOff(files, legs[i]))
    || (exists i :: 0 <= i < |legs| && Hidden(store.g, legs[i]))
    || StitchCutOff(store, f, steps, n, LegWalks(store.g, legs))
  }

  /**
   `visited` are the paths that a search of the database from `nodes` has visited, in the `steps` steps of
   worklist `f`.  Every walk along the indexed files that resolves one of the references is found, unless a
   check cuts off one of its segments or their stitch, or one of them leaves the root on an empty symbol stack.
   */
  lemma WalksCovered(store: Store, files: seq<IndexedFile>, f: Fifo<Seen, Item>, steps: nat,
                     nodes: seq<NodeHandle>, visited: seq<PartialPath>, w: Walk)
    requires store.Valid() && AllIndexed(store, files) && FilesOf(store.g, files)
    requires AllResolutions(SearchIn(store), f, steps, nodes, visited)
    requires w[0] in nodes && AlongFiles(store.g, files, w) && Complete.Resolves(store.g, w)
    ensures || (exists p :: p in visited && Denotes(store.g, p, w, Nowhere))
            || (exists legs :: IsJourney(store.g, files, legs, w) && Lost(store, files, f, steps, w[0], legs))
  {
    hide Store.Valid, FilesOf, AllResolutions, LegCutOff, Hidden, StitchCutOff, Denotes, LegWalks, IsLeg,
      AlongFiles, Complete.Resolves, Consecutive, Journey, FinishedRun;
    forall a | 0 <= a < |files|
      ensures files[a].file.g == store.g && files[a].file.Valid()
    {
      IndexedValid(store, files, a);
    }
    var legs := ResolutionIsJourney(store.g, files, w);
    ResolutionsCovered(store, files, f, steps, nodes, visited, w[0], legs);
  }

  lemma IndexedValid(store: Store, files: seq<IndexedFile>, a: nat)
    requires AllIndexed(store, files) && a < |files|
    ensures files[a].file.g == store.g && files[a].file.Valid()
  {
    assert files[a].Done(store.g);
  }
}
