/**
 The partial paths that are computed for a file: the segments from an endpoint to an endpoint or into a jump
 that have no endpoint strictly inside.  Every chain of edges from an endpoint to an endpoint or into a jump
 splits into such segments in exactly one way; the search finds each of them at most once, extends none of
 them, and misses one only if the cycle or the similarity check has cut it off.
 */
module MinimalPathSet {
  import opened Wrappers
  import opened Graphs
  import opened Unification
  import opened PartialPaths
  import opened Exactness
  import opened AppendExactness
  import opened Stitching
  import opened CycleDetection
  import opened SimilarPaths
  import opened Worklists
  import opened Stitcher

  /** What the search sees of a file: the edges that leave a node, the nodes in the file, and the join nodes. */
  datatype File = File(
    g: Graph,
    outgoing: NodeHandle -> seq<Edge>,
    contains: NodeHandle -> bool,
    isJoin: NodeHandle -> bool,
    depth: nat)
  {
    ghost predicate Valid() {
      && g.AttachedScopesExist()
      && (forall n, i :: 0 <= i < |outgoing(n)| ==> outgoing(n)[i].source == n && !g.Kind(n).JumpTo?)
      && (forall n, i, j :: 0 <= i < j < |outgoing(n)| ==> outgoing(n)[i] != outgoing(n)[j])
    }
  }

  predicate AsCompleteAsNecessary(g: Graph, p: PartialPath) {
    g.Kind(p.startNode).IsEndpoint() && EndsSegment(g.Kind(p.endNode))
  }

  /** The edges whose sinks are in the file. */
  function InFile(file: File, edges: seq<Edge>): seq<Fragment> {
    if edges == [] then []
    else
      InFile(file, edges[..|edges| - 1]) +
      if file.contains(edges[|edges| - 1].sink) then [EdgeFragment(edges[|edges| - 1])] else []
  }

  function SearchOf(file: File): Search {
    Search(
      file.g,
      (p: PartialPath) => InFile(file, file.outgoing(p.endNode)),
      file.isJoin,
      (p: PartialPath) => !AsCompleteAsNecessary(file.g, p),
      (n: NodeHandle) => file.g.Kind(n).IsEndpoint(),
      Anywhere,
      true,
      file.depth)
  }

  predicate IsFileEdge(file: File, e: Edge) {
    e in file.outgoing(e.source) && file.contains(e.sink)
  }

  lemma {:induction false} InFileEdges(file: File, edges: seq<Edge>, f: Fragment)
    ensures f in InFile(file, edges) <==> f.EdgeFragment? && f.edge in edges && file.contains(f.edge.sink)
  {
    if edges != [] {
      InFileEdges(file, edges[..|edges| - 1], f);
      assert edges == edges[..|edges| - 1] + [edges[|edges| - 1]];
    }
  }

  lemma CandidateEdges(file: File, p: PartialPath, f: Fragment)
    requires file.Valid()
    ensures f in SearchOf(file).forward(p) <==>
            f.EdgeFragment? && f.edge.source == p.endNode && IsFileEdge(file, f.edge)
  {
    InFileEdges(file, file.outgoing(p.endNode), f);
  }

  // ---------------------------------------------------------------------------------------------
  // Segments

  /** A chain of file edges that passes no endpoint and no jump strictly inside. */
  predicate Uninterrupted(file: File, n: NodeHandle, edges: seq<Edge>) {
    if edges == [] then file.g.Kind(n).IsEndpoint()
    else
      var front, e := edges[..|edges| - 1], edges[|edges| - 1];
      var m := EndOf(n, front);
      && Uninterrupted(file, n, front) && IsFileEdge(file, e) && e.source == m
      && (front != [] ==> !EndsSegment(file.g.Kind(m)))
  }

  /** Segments end in endpoints and in jumps. */
  predicate EndsSegment(node: Node) {
    node.IsEndpoint() || node.JumpTo?
  }

  predicate Segment(file: File, n: NodeHandle, edges: seq<Edge>) {
    edges != [] && Uninterrupted(file, n, edges) && EndsSegment(file.g.Kind(EndOf(n, edges)))
  }

  lemma {:induction false} UninterruptedInside(file: File, n: NodeHandle, edges: seq<Edge>, i: nat)
    requires Uninterrupted(file, n, edges) && i <= |edges|
    ensures Uninterrupted(file, n, edges[..i])
    ensures 0 < i < |edges| ==> !EndsSegment(file.g.Kind(EndOf(n, edges[..i])))
  {
    if i == |edges| {
      assert edges[..i] == edges;
    } else {
      UninterruptedInside(file, n, edges[..|edges| - 1], i);
      assert edges[..|edges| - 1][..i] == edges[..i];
    }
  }

  lemma {:induction false} StartsAtEndpoint(file: File, n: NodeHandle, edges: seq<Edge>)
    requires Uninterrupted(file, n, edges)
    ensures file.g.Kind(n).IsEndpoint()
  {
    if edges != [] {
      StartsAtEndpoint(file, n, edges[..|edges| - 1]);
    }
  }

  /** An uninterrupted chain passes no jump before its end. */
  lemma {:induction false} UninterruptedIsChain(file: File, n: NodeHandle, edges: seq<Edge>)
    requires Uninterrupted(file, n, edges)
    ensures Chain(n, edges)
    ensures !file.g.Kind(EndOf(n, edges)).JumpTo? ==> JumpFreeChain(file.g, n, edges)
  {
    if edges != [] {
      UninterruptedIsChain(file, n, edges[..|edges| - 1]);
    }
  }

  /** The nodes where segments begin and end along a list of segments. */
  predicate Segments(file: File, n: NodeHandle, parts: seq<seq<Edge>>) {
    parts != [] ==>
      && Segments(file, n, parts[..|parts| - 1])
      && Segment(file, EndOf(n, Concat(parts[..|parts| - 1])), parts[|parts| - 1])
  }

  function Concat(parts: seq<seq<Edge>>): seq<Edge> {
    if parts == [] then [] else Concat(parts[..|parts| - 1]) + parts[|parts| - 1]
  }

  /** The edges follow one another from `n`. */
  predicate Chain(n: NodeHandle, edges: seq<Edge>) {
    edges != [] ==>
      var front := edges[..|edges| - 1];
      Chain(n, front) && edges[|edges| - 1].source == EndOf(n, front)
  }

  /** A chain of file edges from an endpoint. */
  predicate FileChain(file: File, n: NodeHandle, edges: seq<Edge>) {
    && file.g.Kind(n).IsEndpoint()
    && Chain(n, edges)
    && forall e :: e in edges ==> IsFileEdge(file, e)
  }

  /** The length of the last part of a chain: back to the endpoint before. */
  function LastLength(file: File, n: NodeHandle, edges: seq<Edge>): (r: nat)
    requires edges != []
    ensures 0 < r <= |edges|
  {
    if |edges| == 1 || file.g.Kind(EndOf(n, edges[..|edges| - 1])).IsEndpoint() then 1
    else LastLength(file, n, edges[..|edges| - 1]) + 1
  }

  /** The chain cut at every endpoint that it passes. */
  function Cut(file: File, n: NodeHandle, edges: seq<Edge>): seq<seq<Edge>> {
    if edges == [] then []
    else
      var k := |edges| - LastLength(file, n, edges);
      Cut(file, n, edges[..k]) + [edges[k..]]
  }

  lemma EndOfConcat(n: NodeHandle, a: seq<Edge>, b: seq<Edge>)
    ensures EndOf(n, a + b) == EndOf(EndOf(n, a), b)
  {
  }

  lemma {:induction false} FileChainFront(file: File, n: NodeHandle, edges: seq<Edge>, k: nat)
    requires FileChain(file, n, edges) && k <= |edges|
    ensures FileChain(file, n, edges[..k])
  {
    if k < |edges| {
      assert edges == edges[..|edges| - 1] + [edges[|edges| - 1]];
      assert FileChain(file, n, edges[..|edges| - 1]);
      FileChainFront(file, n, edges[..|edges| - 1], k);
      assert edges[..|edges| - 1][..k] == edges[..k];
    } else {
      assert edges[..k] == edges;
    }
  }

  /** From the last endpoint passed, the rest of a chain is uninterrupted. */
  lemma {:induction false} LastPart(file: File, n: NodeHandle, edges: seq<Edge>)
    requires file.Valid() && FileChain(file, n, edges) && edges != []
    ensures var k := |edges| - LastLength(file, n, edges);
            && file.g.Kind(EndOf(n, edges[..k])).IsEndpoint()
            && Uninterrupted(file, EndOf(n, edges[..k]), edges[k..])
  {
    var front, e := edges[..|edges| - 1], edges[|edges| - 1];
    var k := |edges| - LastLength(file, n, edges);
    var m := EndOf(n, edges[..k]);
    assert edges[k..][..|edges| - k - 1] == edges[k..|edges| - 1];
    assert e in edges;
    if |edges| == 1 || file.g.Kind(EndOf(n, front)).IsEndpoint() {
      assert edges[..k] == front && edges[k..] == [e];
      assert Uninterrupted(file, m, edges[k..|edges| - 1]) by {
        assert edges[k..|edges| - 1] == [];
      }
    } else {
      FileChainFront(file, n, edges, |edges| - 1);
      LastPart(file, n, front);
      assert front[..k] == edges[..k] && front[k..] == edges[k..|edges| - 1];
      assert front == front[..k] + front[k..];
      EndOfConcat(n, front[..k], front[k..]);
      assert IsFileEdge(file, e);
    }
  }

  lemma SegmentsSnoc(file: File, n: NodeHandle, parts: seq<seq<Edge>>, last: seq<Edge>)
    requires Segments(file, n, parts) && Segment(file, EndOf(n, Concat(parts)), last)
    ensures Segments(file, n, parts + [last]) && Concat(parts + [last]) == Concat(parts) + last
  {
    assert (parts + [last])[..|parts|] == parts;
  }

  /** Every chain in the file from an endpoint to an endpoint or into a jump splits into segments ... */
  lemma {:induction false} CutIntoSegments(file: File, n: NodeHandle, edges: seq<Edge>)
    requires file.Valid() && FileChain(file, n, edges) && EndsSegment(file.g.Kind(EndOf(n, edges)))
    ensures Segments(file, n, Cut(file, n, edges)) && Concat(Cut(file, n, edges)) == edges
    decreases |edges|
  {
    hide Uninterrupted, FileChain, LastLength, IsFileEdge, File.Valid;
    if edges != [] {
      var k := |edges| - LastLength(file, n, edges);
      LastPart(file, n, edges);
      FileChainFront(file, n, edges, k);
      CutIntoSegments(file, n, edges[..k]);
      assert edges == edges[..k] + edges[k..];
      EndOfConcat(n, edges[..k], edges[k..]);
      SegmentsSnoc(file, n, Cut(file, n, edges[..k]), edges[k..]);
    }
  }

  /** ... in exactly one way. */
  lemma {:induction false} SplitUnique(file: File, n: NodeHandle, parts: seq<seq<Edge>>, others: seq<seq<Edge>>)
    requires file.g.Kind(n).IsEndpoint()
    requires Segments(file, n, parts) && Segments(file, n, others) && Concat(parts) == Concat(others)
    ensures parts == others
    decreases |parts|
  {
    if parts == [] {
      assert others == [];
    } else {
      assert others != [];
      var a, b := Concat(parts[..|parts| - 1]), Concat(others[..|others| - 1]);
      var x, y := parts[|parts| - 1], others[|others| - 1];
      StartsAtEndpoint(file, EndOf(n, a), x);
      StartsAtEndpoint(file, EndOf(n, b), y);
      if |a| != |b| {
        if |a| < |b| {
          EndsInside(file, n, a, x, b, y);
        } else {
          EndsInside(file, n, b, y, a, x);
        }
      }
      assert a == (a + x)[..|a|] && b == (b + y)[..|b|];
      assert x == (a + x)[|a|..] && y == (b + y)[|b|..];
      SplitUnique(file, n, parts[..|parts| - 1], others[..|others| - 1]);
      assert parts == parts[..|parts| - 1] + [x] && others == others[..|others| - 1] + [y];
    }
  }

  /** So the set of segments is minimal: one of them is never made up of others. */
  lemma SegmentsMinimal(file: File, n: NodeHandle, parts: seq<seq<Edge>>)
    requires file.g.Kind(n).IsEndpoint() && Segments(file, n, parts) && Segment(file, n, Concat(parts))
    ensures parts == [Concat(parts)]
  {
    var none: seq<seq<Edge>> := [];
    var whole := Concat(parts);
    assert Segments(file, n, none) && Concat(none) == [];
    SegmentsSnoc(file, n, none, whole);
    SplitUnique(file, n, parts, [whole]);
  }

  /** A segment cannot begin strictly inside another one. */
  lemma EndsInside(file: File, n: NodeHandle, a: seq<Edge>, x: seq<Edge>, b: seq<Edge>, y: seq<Edge>)
    requires a + x == b + y && |a| < |b| && y != []
    requires Segment(file, EndOf(n, a), x)
    ensures !file.g.Kind(EndOf(n, b)).IsEndpoint()
  {
    var k := |b| - |a|;
    assert x[..k] == (a + x)[|a|..|b|] && b == (b + y)[..|b|];
    assert b == a + x[..k];
    EndOfConcat(n, a, x[..k]);
    UninterruptedInside(file, EndOf(n, a), x, k);
  }
}
