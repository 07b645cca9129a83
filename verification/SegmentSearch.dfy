/** The search for the segments of a file: whatever it finds has been led along an uninterrupted chain. */
module SegmentSearch {
  import opened Wrappers
  import opened Graphs
  import opened Unification
  import opened PartialPaths
  import opened Exactness
  import opened AppendExactness
  import opened Settling
  import opened Stitching
  import opened CycleDetection
  import opened Worklists
  import opened Stitcher
  import opened SearchCoverage
  import opened MinimalPathSet

  /** The path of a node alone. */
  function NodePath(g: Graph, n: NodeHandle): PartialPath {
    var p := FromNode(g, n);
    if p.Ok? then p.value else Blank(n)
  }

  function EdgeFragments(edges: seq<Edge>): (r: seq<Fragment>)
    ensures |r| == |edges|
  {
    seq(|edges|, i requires 0 <= i < |edges| => EdgeFragment(edges[i]))
  }

  /** What an item is stitched from when it has been led along the edges from node `n`. */
  function FragmentsOf(g: Graph, n: NodeHandle, edges: seq<Edge>): (r: seq<Fragment>)
    ensures |r| == |edges| + 1
  {
    [PathFragment(NodePath(g, n))] + EdgeFragments(edges)
  }

  lemma FragmentsOfSnoc(g: Graph, n: NodeHandle, edges: seq<Edge>, e: Edge)
    ensures FragmentsOf(g, n, edges + [e]) == FragmentsOf(g, n, edges) + [EdgeFragment(e)]
  {
  }

  ghost predicate Follows(file: File, item: Item, n: NodeHandle, edges: seq<Edge>) {
    item.fragments == FragmentsOf(file.g, n, edges) && item.path.startNode == n && Uninterrupted(file, n, edges)
  }

  /** The item has been led along an uninterrupted chain. */
  ghost predicate OnTrack(file: File, item: Item) {
    exists n, edges :: Follows(file, item, n, edges)
  }

  lemma NodePathOf(g: Graph, n: NodeHandle)
    requires g.AttachedScopesExist()
    ensures FromNode(g, n) == Ok(NodePath(g, n)) && NodePath(g, n).startNode == n && NodePath(g, n).endNode == n
  {
    FromNodeSummary(g, n);
  }

  // ---------------------------------------------------------------------------------------------
  // The search is sensible

  lemma SearchSensible(file: File)
    requires file.Valid()
    ensures Sensible(SearchOf(file))
  {
    var c := SearchOf(file);
    forall p, f | IsCandidate(c, p, f)
      ensures Fits(c, p, f)
    {
      CandidateEdges(file, p, f);
      EdgeDescribed(c.g, f.edge);
    }
  }

  lemma EdgeDescribed(g: Graph, e: Edge)
    requires !g.Kind(e.source).JumpTo?
    ensures exists u :: Describes(g, EdgeFragment(e), u)
  {
    var u: Walk := [e.source, e.sink];
    assert Describes(g, EdgeFragment(e), u);
  }

  // ---------------------------------------------------------------------------------------------
  // What a tracked item's path relates

  /** Edges that follow one another make up their own walk, settled if it ends in a jump. */
  lemma {:induction false} EdgeJourney(g: Graph, n: NodeHandle, edges: seq<Edge>, us: seq<Walk>)
    requires |us| == |edges| + 1 && us[0] == [n] && !g.Kind(n).JumpTo? && Consecutive(g, [n], us, Anywhere)
    requires forall k :: 0 <= k < |edges| ==> us[k + 1] == [edges[k].source, edges[k].sink]
    requires forall k :: 0 <= k < |edges| - 1 ==> !g.Kind(edges[k].sink).JumpTo?
    ensures Journey(g, [n], us, Anywhere) == Settle(g, Nodes(n, edges), Anywhere)
  {
    hide Settle;
    var front := us[..|us| - 1];
    if edges == [] {
      assert front == [] && Journey(g, [n], front, Anywhere) == [n];
      assert Splice([n], us[0]) == [n] == Nodes(n, edges);
    } else {
      var k := |edges| - 1;
      EdgeJourney(g, n, edges[..k], front);
      assert edges == edges[..k] + [edges[k]];
      NodesSnoc(n, edges[..k], edges[k]);
      assert !g.Kind(EndOf(n, edges[..k])).JumpTo?;
      assert Journey(g, [n], front, Anywhere) == Nodes(n, edges[..k]);
      assert us[k + 1] == us[|us| - 1];
    }
  }

  lemma {:induction false} InnerSinks(file: File, n: NodeHandle, edges: seq<Edge>, k: nat)
    requires Uninterrupted(file, n, edges) && k < |edges| - 1
    ensures !file.g.Kind(edges[k].sink).JumpTo?
  {
    UninterruptedInside(file, n, edges, k + 1);
  }

  /** The path of an item that has been led along edges summarises their walk, and can be stored. */
  lemma ItemWalk(file: File, item: Item, n: NodeHandle, edges: seq<Edge>)
    requires file.Valid() && Tracked(SearchOf(file), item) && Follows(file, item, n, edges)
    ensures Summary(file.g, item.path, Settle(file.g, Nodes(n, edges), Anywhere), Anywhere) && Open(item.path)
    ensures Passable(file.g, Settle(file.g, Nodes(n, edges), Anywhere), Anywhere)
  {
    hide Summary, InitialPath, Passable, Journey, Consecutive, Describes, Open, Uninterrupted, Settle, NodePath;
    var us :| TracksWalks(SearchOf(file), item, us);
    NodePathOf(file.g, n);
    InitialNode(file.g, us[0][0]);
    forall k | 0 <= k < |edges|
      ensures us[k + 1] == [edges[k].source, edges[k].sink]
    {
      AppendedAt(file.g, item.fragments, us, Anywhere, k + 1);
      EdgeOnly(file.g, edges[k], us[k + 1]);
    }
    forall k | 0 <= k < |edges| - 1
      ensures !file.g.Kind(edges[k].sink).JumpTo?
    {
      InnerSinks(file, n, edges, k);
    }
    EdgeJourney(file.g, n, edges, us);
  }

  lemma ItemStart(file: File, item: Item, n: NodeHandle, edges: seq<Edge>)
    requires file.Valid() && Tracked(SearchOf(file), item) && item.fragments == FragmentsOf(file.g, n, edges)
    ensures item.path.startNode == n
  {
    hide Summary, InitialPath, Passable, Consecutive, Describes, Open, NodePath;
    var us :| TracksWalks(SearchOf(file), item, us);
    NodePathOf(file.g, n);
    InitialNode(file.g, us[0][0]);
    SummaryOf(file.g, item.path, Journey(file.g, [us[0][0]], us, Anywhere), Anywhere);
  }

  lemma EdgeOnly(g: Graph, e: Edge, u: Walk)
    requires Describes(g, EdgeFragment(e), u)
    ensures u == [e.source, e.sink]
  {
  }

  lemma InitialNode(g: Graph, n: NodeHandle)
    requires InitialPath(g, n, Anywhere).Ok? && g.AttachedScopesExist()
    ensures InitialPath(g, n, Anywhere).value.startNode == n
  {
    FromNodeSummary(g, n);
  }

  /** Where such a path ends: with the edges, or beyond the jump that they end in. */
  lemma EndOfItem(file: File, item: Item, n: NodeHandle, edges: seq<Edge>)
    requires file.Valid() && Tracked(SearchOf(file), item) && Follows(file, item, n, edges)
    ensures if file.g.Kind(EndOf(n, edges)).JumpTo? then AsCompleteAsNecessary(file.g, item.path)
            else item.path.endNode == EndOf(n, edges)
  {
    hide Tracked, Uninterrupted;
    var w := Nodes(n, edges);
    assert Last(w) == EndOf(n, edges);
    ItemWalk(file, item, n, edges);
    StartsAtEndpoint(file, n, edges);
    var v := Settle(file.g, w, Anywhere);
    if v != w {
      var s :| Run(file.g, v, s).Some?;
      RunExtend(file.g, w, Last(v), s);
    }
  }

  // ---------------------------------------------------------------------------------------------
  // Everything found is on track

  /** An item that may be extended: it is the path of a node, or ends neither in an endpoint nor in a jump. */
  lemma LedOn(file: File, item: Item, j: Item, f: Fragment)
    requires file.Valid() && Tracked(SearchOf(file), item) && OnTrack(file, item)
    requires MayExtend(SearchOf(file), item) && f in SearchOf(file).forward(item.path)
    requires AppendFragment(file.g, item.path, f, file.depth) == Ok(j.path) && j.fragments == item.fragments + [f]
    ensures OnTrack(file, j)
  {
    hide Tracked, AppendEdge;
    var n, edges :| Follows(file, item, n, edges);
    CandidateEdges(file, item.path, f);
    FragmentsOfSnoc(file.g, n, edges, f.edge);
    AppendEdgeStart(file.g, item.path, f.edge);
    EndOfItem(file, item, n, edges);
    StartsAtEndpoint(file, n, edges);
    assert (edges + [f.edge])[..|edges|] == edges;
    assert Follows(file, j, n, edges + [f.edge]);
  }

  lemma AppendEdgeStart(g: Graph, p: PartialPath, e: Edge)
    requires AppendEdge(g, p, e).Ok?
    ensures AppendEdge(g, p, e).value.startNode == p.startNode
  {
  }

  lemma {:induction false} TrackedOnTrack(file: File, item: Item)
    requires file.Valid() && Tracked(SearchOf(file), item)
    ensures OnTrack(file, item)
    decreases |item.fragments|
  {
    hide Tracked, OnTrack, AppendFragment, InFile, AsCompleteAsNecessary;
    if |item.fragments| > 1 {
      var parent, f := TrackedFront(SearchOf(file), item);
      TrackedOnTrack(file, parent);
      LedOn(file, parent, item, f);
    } else {
      FirstOnTrack(file, item);
    }
  }

  lemma FirstOnTrack(file: File, item: Item)
    requires file.Valid() && Tracked(SearchOf(file), item) && |item.fragments| <= 1
    ensures OnTrack(file, item)
  {
    hide Journey, Consecutive, Describes, Arrived, FromNode;
    var us :| TracksWalks(SearchOf(file), item, us);
    var n := us[0][0];
    NodePathOf(file.g, n);
    assert item.fragments[1..] == [];
    assert item.fragments == FragmentsOf(file.g, n, []);
    assert Follows(file, item, n, []);
  }

  /** No cycle of an item passes a jump ... */
  lemma ItemAvoidsJumps(file: File, item: Item)
    requires file.Valid() && Tracked(SearchOf(file), item)
    ensures CyclesAvoidJumps(file.g, item.fragments)
  {
    hide Tracked, NodePath;
    TrackedOnTrack(file, item);
    var n, edges :| Follows(file, item, n, edges);
    NodePathOf(file.g, n);
    StartsAtEndpoint(file, n, edges);
    var fragments := item.fragments;
    var end := fragments[|fragments| - 1].EndNode();
    forall i, k | 0 <= i <= k < |fragments| && fragments[i].StartNode() == end
      ensures !file.g.Kind(fragments[k].EndNode()).JumpTo?
    {
      StartNoJump(file, n, edges, i);
      if 0 < k < |edges| {
        InnerSinks(file, n, edges, k - 1);
      }
    }
  }

  /** ... so the cycle check never panics. */
  lemma NeverPanics(file: File, item: Item)
    requires file.Valid() && Tracked(SearchOf(file), item)
    ensures !CheckFails(SearchOf(file), item)
  {
    hide Tracked, CheckFails, CyclesAvoidJumps;
    ItemAvoidsJumps(file, item);
    if CheckFails(SearchOf(file), item) {
      CheckFailsAtJumps(SearchOf(file), item);
    }
  }

  lemma {:induction false} StartNoJump(file: File, n: NodeHandle, edges: seq<Edge>, i: nat)
    requires file.Valid() && Uninterrupted(file, n, edges) && i <= |edges|
    ensures !file.g.Kind(FragmentsOf(file.g, n, edges)[i].StartNode()).JumpTo?
  {
    hide NodePath;
    if i == 0 {
      NodePathOf(file.g, n);
      StartsAtEndpoint(file, n, edges);
    } else {
      UninterruptedInside(file, n, edges, i);
      assert edges[..i][i - 1] == edges[i - 1];
      assert IsFileEdge(file, edges[i - 1]);
    }
  }

  // ---------------------------------------------------------------------------------------------
  // What is visited

  /** The path relates exactly what the segment's walk relates, jump included, and can be stored. */
  ghost predicate SummarisesSegment(file: File, p: PartialPath, n: NodeHandle, edges: seq<Edge>) {
    var w := Settle(file.g, Nodes(n, edges), Anywhere);
    Describes(file.g, PathFragment(p), w) && Denotes(file.g, p, w, Anywhere)
  }

  /** The visited paths are the segments' summaries. */
  lemma VisitedIsSegment(file: File, item: Item) returns (n: NodeHandle, edges: seq<Edge>)
    requires file.Valid() && Tracked(SearchOf(file), item) && |item.fragments| > 1
    requires AsCompleteAsNecessary(file.g, item.path)
    ensures Segment(file, n, edges) && item.fragments == FragmentsOf(file.g, n, edges)
    ensures SummarisesSegment(file, item.path, n, edges)
  {
    hide Tracked, Summary, Denotes, Uninterrupted;
    TrackedOnTrack(file, item);
    n, edges :| Follows(file, item, n, edges);
    EndOfItem(file, item, n, edges);
    PathSummarises(file, item, n, edges);
  }

  lemma PathSummarises(file: File, item: Item, n: NodeHandle, edges: seq<Edge>)
    requires file.Valid() && Tracked(SearchOf(file), item) && Follows(file, item, n, edges)
    ensures SummarisesSegment(file, item.path, n, edges)
  {
    hide Tracked, Uninterrupted;
    ItemWalk(file, item, n, edges);
    StartsAtEndpoint(file, n, edges);
    ExactDenotes(file.g, item.path, Settle(file.g, Nodes(n, edges), Anywhere), Anywhere);
  }

  /** Segments are not extended: no item on track has been led on along one. */
  lemma SegmentNotExtended(file: File, n: NodeHandle, edges: seq<Edge>, item: Item)
    requires Segment(file, n, edges) && OnTrack(file, item) && |item.fragments| > |edges| + 1
    ensures item.fragments[..|edges| + 1] != FragmentsOf(file.g, n, edges)
  {
    hide Uninterrupted, NodePath;
    var m, more :| Follows(file, item, m, more);
    if item.fragments[..|edges| + 1] == FragmentsOf(file.g, n, edges) {
      FragmentsPrefix(file.g, n, edges, m, more);
      UninterruptedInside(file, m, more, |edges|);
    }
  }

  lemma FragmentsPrefix(g: Graph, n: NodeHandle, edges: seq<Edge>, m: NodeHandle, more: seq<Edge>)
    requires |edges| <= |more| && FragmentsOf(g, m, more)[..|edges| + 1] == FragmentsOf(g, n, edges)
    ensures more[..|edges|] == edges
    ensures edges != [] ==> EndOf(m, more[..|edges|]) == EndOf(n, edges)
  {
    forall k | 0 <= k < |edges|
      ensures more[k] == edges[k]
    {
      assert FragmentsOf(g, m, more)[..|edges| + 1][k + 1] == EdgeFragment(more[k]);
    }
  }
}
