/** The search finds nothing twice, and finds every segment that neither of its checks has cut off. */
module SegmentCoverage {
  import opened Wrappers
  import opened Graphs
  import opened Unification
  import opened PartialPaths
  import opened Exactness
  import opened AppendExactness
  import opened Settling
  import opened Stitching
  import opened CycleDetection
  import opened Worklists
  import opened Stitcher
  import opened SearchCoverage
  import opened MinimalPathSet
  import opened SegmentSearch

  // ---------------------------------------------------------------------------------------------
  // Nothing is found twice

  lemma {:induction false} InFileDistinct(file: File, edges: seq<Edge>)
    requires forall i, j :: 0 <= i < j < |edges| ==> edges[i] != edges[j]
    ensures DistinctFragments(InFile(file, edges))
  {
    if edges != [] {
      var front, e := edges[..|edges| - 1], edges[|edges| - 1];
      InFileDistinct(file, front);
      forall i | 0 <= i < |InFile(file, front)|
        ensures InFile(file, front)[i] != EdgeFragment(e)
      {
        InFileEdges(file, front, InFile(file, front)[i]);
        assert InFile(file, front)[i] in InFile(file, front);
      }
    }
  }

  lemma FileCandidatesDistinct(file: File)
    requires file.Valid()
    ensures DistinctCandidates(SearchOf(file))
  {
    forall p
      ensures DistinctFragments(SearchOf(file).forward(p))
    {
      InFileDistinct(file, file.outgoing(p.endNode));
    }
  }

  // ---------------------------------------------------------------------------------------------
  // Coverage

  /** A run of the search of a file, from distinct paths of nodes, that has come to its end. */
  ghost predicate FinishedRun(file: File, f: Fifo<Seen, Item>, n: nat) {
    file.Valid() && Orderly(SearchOf(file), f) && Distinct(f.pending) && WholeRun(SearchOf(file), f, n)
  }

  lemma FinishedItems(file: File, f: Fifo<Seen, Item>, n: nat, m: nat)
    requires FinishedRun(file, f, n) && m < |All(SearchOf(file), f, n)|
    ensures Tracked(SearchOf(file), All(SearchOf(file), f, n)[m])
  {
    hide Tracked, RulesOf, Sensible, Added, Worklists.Step, Discovered, Stitched;
    SearchSensible(file);
    RunsOrderly(SearchOf(file), f, n);
  }

  /** Along an uninterrupted chain that stacks can run, every edge is a candidate that can be appended. */
  lemma {:induction false} ChainOfCandidates(file: File, n: NodeHandle, edges: seq<Edge>)
    requires file.Valid() && Uninterrupted(file, n, edges)
    requires Passable(file.g, Nodes(n, edges), Anywhere)
    ensures CandidateChain(SearchOf(file), NodePath(file.g, n), EdgeFragments(edges))
    ensures var q := Stitch(file.g, NodePath(file.g, n), EdgeFragments(edges), file.depth);
            q.Ok? && Summary(file.g, q.value, Settle(file.g, Nodes(n, edges), Anywhere), Anywhere)
  {
    hide Passable, Summary, AppendFragment, NodePath, Nodes, InFile, IsFileEdge, Settle, Describes;
    NodesEnds(n, edges);
    if edges == [] {
      NodeSummary(file.g, n);
      StartsAtEndpoint(file, n, edges);
    } else {
      var front, e := edges[..|edges| - 1], edges[|edges| - 1];
      assert edges == front + [e];
      assert EdgeFragments(edges)[..|edges| - 1] == EdgeFragments(front);
      NodesSnoc(n, front, e);
      SourceNoJump(file, e);
      FrontPassable(file.g, n, front, e);
      ChainOfCandidates(file, n, front);
      NodesEnds(n, front);
      var q := Stitch(file.g, NodePath(file.g, n), EdgeFragments(front), file.depth).value;
      SummaryOf(file.g, q, Nodes(n, front), Anywhere);
      CandidateEdges(file, q, EdgeFragment(e));
      EdgeStitched(file.g, q, Nodes(n, front), e, file.depth);
    }
  }

  lemma NodesEnds(n: NodeHandle, edges: seq<Edge>)
    ensures Nodes(n, edges)[0] == n && Last(Nodes(n, edges)) == EndOf(n, edges)
  {
  }

  lemma SourceNoJump(file: File, e: Edge)
    requires file.Valid() && IsFileEdge(file, e)
    ensures !file.g.Kind(e.source).JumpTo?
  {
  }

  lemma FrontPassable(g: Graph, n: NodeHandle, front: seq<Edge>, e: Edge)
    requires Passable(g, Nodes(n, front + [e]), Anywhere) && !g.Kind(EndOf(n, front)).JumpTo?
    ensures Passable(g, Nodes(n, front), Anywhere)
  {
    NodesSnoc(n, front, e);
    if !Feasible(g, Nodes(n, front), Anywhere) {
      InfeasibleExtend(g, Nodes(n, front), e.sink, Anywhere);
    }
  }

  lemma EdgeStitched(g: Graph, path: PartialPath, w: Walk, e: Edge, depth: nat)
    requires g.AttachedScopesExist() && Summary(g, path, w, Anywhere)
    requires e.source == path.endNode && !g.Kind(e.source).JumpTo?
    requires Passable(g, w + [e.sink], Anywhere)
    ensures var q := AppendFragment(g, path, EdgeFragment(e), depth);
            q.Ok? && Summary(g, q.value, Settle(g, w + [e.sink], Anywhere), Anywhere)
  {
    var u: Walk := [e.source, e.sink];
    assert Splice(w, u) == w + [e.sink];
    AppendFragmentSummary(g, path, w, EdgeFragment(e), u, depth, Anywhere);
  }

  lemma NodeSummary(g: Graph, n: NodeHandle)
    requires g.AttachedScopesExist()
    ensures Summary(g, NodePath(g, n), Nodes(n, []), Anywhere)
  {
    FromNodeSummary(g, n);
    assert Nodes(n, []) == [n];
  }

  /** The item is stitched from the edges, is visited, and relates exactly what their walk relates. */
  ghost predicate Visited(file: File, item: Item, n: NodeHandle, edges: seq<Edge>) {
    && item.fragments == FragmentsOf(file.g, n, edges)
    && AsCompleteAsNecessary(file.g, item.path)
    && SummarisesSegment(file, item.path, n, edges)
  }

  /**
   Every segment that stacks can run and neither check cuts off is visited, and visited exactly once.
   `i` is the position of its path among all that the search finds.
   */
  lemma SegmentVisitedOnce(file: File, f: Fifo<Seen, Item>, n: nat, node: NodeHandle, edges: seq<Edge>) returns (i: nat)
    requires FinishedRun(file, f, n) && Found(SearchOf(file), f, n, FragmentsOf(file.g, node, []))
    requires Segment(file, node, edges) && Passable(file.g, Nodes(node, edges), Anywhere)
    requires !CutOff(SearchOf(file), f, n, FragmentsOf(file.g, node, edges))
    ensures i < |All(SearchOf(file), f, n)| && Visited(file, All(SearchOf(file), f, n)[i], node, edges)
    ensures forall j :: 0 <= j < |All(SearchOf(file), f, n)| && j != i ==>
              All(SearchOf(file), f, n)[j].fragments != FragmentsOf(file.g, node, edges)
  {
    hide Passable, Uninterrupted, All, Tracked, Nodes, CutOff, WholeRun, NodePath, SummarisesSegment, Orderly, Distinct,
      AsCompleteAsNecessary;
    var c := SearchOf(file);
    ChainOfCandidates(file, node, edges);
    assert FragmentsOf(file.g, node, []) == [PathFragment(NodePath(file.g, node))];
    StitchFound(c, f, n, NodePath(file.g, node), EdgeFragments(edges));
    i :| 0 <= i < |All(c, f, n)| && All(c, f, n)[i].fragments == FragmentsOf(file.g, node, edges);
    FinishedItems(file, f, n, i);
    SegmentItem(file, All(c, f, n)[i], node, edges);
    AllDistinct(file, f, n);
    OnlyAt(All(c, f, n), i);
  }

  lemma AllDistinct(file: File, f: Fifo<Seen, Item>, n: nat)
    requires FinishedRun(file, f, n)
    ensures Distinct(All(SearchOf(file), f, n))
  {
    hide Orderly, AllStitched, IsComplete, All, Distinct, DistinctFragments;
    FileCandidatesDistinct(file);
    RunGenealogy(SearchOf(file), f, n);
  }

  lemma SegmentItem(file: File, item: Item, node: NodeHandle, edges: seq<Edge>)
    requires file.Valid() && Tracked(SearchOf(file), item) && Segment(file, node, edges)
    requires item.fragments == FragmentsOf(file.g, node, edges)
    ensures Visited(file, item, node, edges)
  {
    hide Tracked, Uninterrupted, NodePath, SummarisesSegment, AsCompleteAsNecessary;
    ItemStart(file, item, node, edges);
    PathSummarises(file, item, node, edges);
    EndOfItem(file, item, node, edges);
    StartsAtEndpoint(file, node, edges);
    if !file.g.Kind(EndOf(node, edges)).JumpTo? {
      BothEnds(file.g, item.path);
    }
  }

  lemma BothEnds(g: Graph, p: PartialPath)
    requires g.Kind(p.startNode).IsEndpoint() && EndsSegment(g.Kind(p.endNode))
    ensures AsCompleteAsNecessary(g, p)
  {
  }

  // ---------------------------------------------------------------------------------------------
  // Coverage of whole walks

  lemma {:induction false} NodesConcat(n: NodeHandle, a: seq<Edge>, b: seq<Edge>)
    ensures Last(Nodes(n, a)) == EndOf(n, a)
    ensures Nodes(n, a + b) == Splice(Nodes(n, a), Nodes(EndOf(n, a), b))
    decreases |b|
  {
    hide Splice, EndOf;
    if b == [] {
      NodesConcatNone(n, a);
      assert a + b == a;
    } else {
      var front, e := b[..|b| - 1], b[|b| - 1];
      NodesConcat(n, a, front);
      assert a + b == (a + front) + [e] && b == front + [e];
      NodesSnoc(n, a + front, e);
      NodesSnoc(EndOf(n, a), front, e);
      SpliceSnoc(Nodes(n, a), Nodes(EndOf(n, a), front), e.sink);
    }
  }

  lemma NodesConcatNone(n: NodeHandle, a: seq<Edge>)
    ensures Last(Nodes(n, a)) == EndOf(n, a)
    ensures Nodes(n, a) == Splice(Nodes(n, a), Nodes(EndOf(n, a), []))
  {
    assert Nodes(EndOf(n, a), []) == [EndOf(n, a)];
    assert Nodes(n, a) + [] == Nodes(n, a);
  }

  lemma SpliceSnoc(w: Walk, u: Walk, n: NodeHandle)
    requires Last(w) == u[0]
    ensures Splice(w, u) + [n] == Splice(w, u + [n])
  {
    assert (u + [n])[1..] == u[1..] + [n];
  }

  /** If stacks can run a chain and go on from its end, they can run each of the segments that it splits into. */
  lemma {:induction false} SegmentsPassable(file: File, n: NodeHandle, parts: seq<seq<Edge>>, i: nat)
    requires file.Valid() && Segments(file, n, parts) && i < |parts|
    requires Passable(file.g, Nodes(n, Concat(parts)), Anywhere)
    ensures Segment(file, EndOf(n, Concat(parts[..i])), parts[i])
    ensures Passable(file.g, Nodes(EndOf(n, Concat(parts[..i])), parts[i]), Anywhere)
  {
    hide Feasible, Segment, Nodes, Concat, EndOf, EndsWith;
    var front, last := parts[..|parts| - 1], parts[|parts| - 1];
    assert Concat(parts) == Concat(front) + last by { ConcatSnoc(front, last); assert parts == front + [last]; }
    NodesConcat(n, Concat(front), last);
    PassableParts(file.g, Nodes(n, Concat(front)), Nodes(EndOf(n, Concat(front)), last), Anywhere);
    if i < |front| {
      SegmentStart(file, EndOf(n, Concat(front)), last);
      SegmentsPassable(file, n, front, i);
      assert front[..i] == parts[..i];
    }
  }

  lemma ConcatSnoc(parts: seq<seq<Edge>>, last: seq<Edge>)
    ensures Concat(parts + [last]) == Concat(parts) + last
  {
    assert (parts + [last])[..|parts|] == parts;
  }

  lemma SegmentStart(file: File, n: NodeHandle, edges: seq<Edge>)
    requires Segment(file, n, edges)
    ensures !file.g.Kind(n).JumpTo?
  {
    StartsAtEndpoint(file, n, edges);
  }
}
