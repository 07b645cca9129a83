/**
 Shadowing of paths by precedence.  On the edge lists of real walks it is a strict partial order, since
 a graph has at most one edge between two nodes; so choosing the paths that nothing shadows keeps some
 path of every non-empty list, and whatever is dropped is shadowed by something kept.
 */
module Shadowing {
  import opened Wrappers
  import opened Graphs
  import opened PartialPaths
  import opened Exactness
  import opened AppendExactness

  type EdgeList = seq<PartialPathEdge>

  predicate EdgeShadows(a: PartialPathEdge, b: PartialPathEdge) {
    a.source == b.source && a.precedence > b.precedence
  }

  /** Up to and including the `i`th edge, both lists have the same sources; there `a` has precedence. */
  predicate ShadowsAt(a: EdgeList, b: EdgeList, i: nat) {
    && i < |a| && i < |b|
    && (forall j :: 0 <= j < i ==> a[j].source == b[j].source)
    && EdgeShadows(a[i], b[i])
  }

  ghost predicate Shadows(a: EdgeList, b: EdgeList) {
    exists i: nat :: ShadowsAt(a, b, i)
  }

  // ---------------------------------------------------------------------------------------------
  // Real walks

  datatype NodePair = NodePair(source: NodeHandle, sink: NodeHandle)

  /** The precedence of the edge between any two nodes, if there is one.  Jumps are recorded with 0. */
  type Precedences = map<NodePair, int>

  function Precedence(links: Precedences, source: NodeHandle, sink: NodeHandle): int {
    if NodePair(source, sink) in links then links[NodePair(source, sink)] else 0
  }

  /** The list records the moves of walk `w`. */
  predicate Records(links: Precedences, w: Walk, list: EdgeList) {
    && |list| == |w| - 1
    && forall i :: 0 <= i < |list| ==> list[i] == PartialPathEdge(w[i], Precedence(links, w[i], w[i + 1]))
  }

  ghost predicate Real(links: Precedences, list: EdgeList) {
    exists w: Walk :: Records(links, w, list)
  }

  lemma RecordedAt(links: Precedences, w: Walk, list: EdgeList, i: nat)
    requires Records(links, w, list) && i + 1 < |list|
    ensures list[i] == PartialPathEdge(list[i].source, Precedence(links, list[i].source, list[i + 1].source))
  {
    assert list[i + 1] == PartialPathEdge(w[i + 1], Precedence(links, w[i + 1], w[i + 2]));
  }

  /** As long as the sources agree, so do the edges before them. */
  lemma SameSourcesSameEdges(links: Precedences, a: EdgeList, b: EdgeList, i: nat)
    requires Real(links, a) && Real(links, b)
    requires i < |a| && i < |b| && forall j :: 0 <= j <= i ==> a[j].source == b[j].source
    ensures a[..i] == b[..i]
    ensures forall j :: 0 <= j < i ==> a[j] == b[j]
  {
    var w: Walk :| Records(links, w, a);
    var u: Walk :| Records(links, u, b);
    forall j | 0 <= j < i
      ensures a[j] == b[j]
    {
      RecordedAt(links, w, a, j);
      RecordedAt(links, u, b, j);
    }
  }

  /**
   Of two real walks, one shadows the other exactly when the first edges in which they differ leave the
   same node, the first walk's with the higher precedence.
   */
  lemma ShadowsAtFirstDifference(links: Precedences, a: EdgeList, b: EdgeList)
    requires Real(links, a) && Real(links, b)
    ensures Shadows(a, b) <==>
            exists i :: 0 <= i < |a| && i < |b| && a[..i] == b[..i] && EdgeShadows(a[i], b[i])
  {
    if Shadows(a, b) {
      var i: nat :| ShadowsAt(a, b, i);
      SameSourcesSameEdges(links, a, b, i);
    }
    if i :| 0 <= i < |a| && i < |b| && a[..i] == b[..i] && EdgeShadows(a[i], b[i]) {
      forall j | 0 <= j < i
        ensures a[j].source == b[j].source
      {
        assert a[..i][j] == b[..i][j];
      }
      assert ShadowsAt(a, b, i);
    }
  }

  /**
   At its `i`th move walk `w` parts from walk `u`, up to where they are the same, along an edge of higher
   precedence.
   */
  predicate PrefersAt(links: Precedences, w: Walk, u: Walk, i: nat) {
    && i + 1 < |w| && i + 1 < |u|
    && w[..i + 1] == u[..i + 1]
    && Precedence(links, w[i], w[i + 1]) > Precedence(links, u[i], u[i + 1])
  }

  ghost predicate Preferred(links: Precedences, w: Walk, u: Walk) {
    exists i: nat :: PrefersAt(links, w, u, i)
  }

  lemma MoveRecorded(links: Precedences, w: Walk, list: EdgeList, i: nat)
    requires Records(links, w, list) && i < |list|
    ensures i + 1 < |w| && list[i] == PartialPathEdge(w[i], Precedence(links, w[i], w[i + 1]))
  {
  }

  /** Of two recorded walks, one shadows the other exactly if it is preferred where they part. */
  lemma ShadowsByPrecedence(links: Precedences, w: Walk, a: EdgeList, u: Walk, b: EdgeList)
    requires Records(links, w, a) && Records(links, u, b)
    ensures Shadows(a, b) <==> Preferred(links, w, u)
  {
    if Shadows(a, b) {
      var i: nat :| ShadowsAt(a, b, i);
      var front, other := w[..i + 1], u[..i + 1];
      forall j | 0 <= j <= i
        ensures front[j] == other[j]
      {
        MoveRecorded(links, w, a, j);
        MoveRecorded(links, u, b, j);
      }
      MoveRecorded(links, w, a, i);
      MoveRecorded(links, u, b, i);
      assert PrefersAt(links, w, u, i);
    }
    if i: nat :| PrefersAt(links, w, u, i) {
      forall j | 0 <= j <= i
        ensures a[j].source == b[j].source
      {
        assert w[..i + 1][j] == u[..i + 1][j];
        MoveRecorded(links, w, a, j);
        MoveRecorded(links, u, b, j);
      }
      MoveRecorded(links, w, a, i);
      MoveRecorded(links, u, b, i);
      assert ShadowsAt(a, b, i);
    }
  }

  method EdgeListShadows(self: EdgeList, other: EdgeList) returns (r: bool)
    ensures r <==> Shadows(self, other)
    ensures forall links, w, u :: Records(links, w, self) && Records(links, u, other) ==>
              (r <==> Preferred(links, w, u))
  {
    forall links, w, u | Records(links, w, self) && Records(links, u, other)
      ensures Shadows(self, other) <==> Preferred(links, w, u)
    {
      ShadowsByPrecedence(links, w, self, u, other);
    }
    var a, b := self, other;
    ghost var i := 0;
    while a != []
      invariant i <= |self| && a == self[i..]
      invariant i <= |other| && b == other[i..]
      invariant forall j :: 0 <= j < i ==> self[j].source == other[j].source && !EdgeShadows(self[j], other[j])
      decreases |a|
    {
      var selfEdge := a[0];
      a := a[1..];
      if b == [] {
        return false;
      }
      var otherEdge := b[0];
      b := b[1..];
      if selfEdge.source != otherEdge.source {
        return false;
      } else if EdgeShadows(selfEdge, otherEdge) {
        assert ShadowsAt(self, other, i);
        return true;
      }
      i := i + 1;
    }
    return false;
  }

  lemma ShadowsIrreflexive(a: EdgeList)
    ensures !Shadows(a, a)
  {
  }

  lemma ShadowsAsymmetric(links: Precedences, a: EdgeList, b: EdgeList)
    requires Real(links, a) && Real(links, b) && Shadows(a, b)
    ensures !Shadows(b, a)
  {
    var i: nat :| ShadowsAt(a, b, i);
    if Shadows(b, a) {
      var j: nat :| ShadowsAt(b, a, j);
      SameSourcesSameEdges(links, a, b, i);
      SameSourcesSameEdges(links, b, a, j);
    }
  }

  lemma ShadowsTransitive(links: Precedences, a: EdgeList, b: EdgeList, c: EdgeList)
    requires Real(links, a) && Real(links, b) && Real(links, c)
    requires Shadows(a, b) && Shadows(b, c)
    ensures Shadows(a, c)
  {
    var i: nat :| ShadowsAt(a, b, i);
    var j: nat :| ShadowsAt(b, c, j);
    SameSourcesSameEdges(links, a, b, i);
    SameSourcesSameEdges(links, b, c, j);
    assert ShadowsAt(a, c, if i < j then i else j);
  }

  /** On lists that do not come from walks in one graph, shadowing need not be an order at all. */
  lemma ShadowsMutual(n: NodeHandle, m: NodeHandle)
    ensures exists a: EdgeList, b: EdgeList :: Shadows(a, b) && Shadows(b, a)
  {
    var a := [PartialPathEdge(n, 1), PartialPathEdge(m, 0)];
    var b := [PartialPathEdge(n, 0), PartialPathEdge(m, 1)];
    assert ShadowsAt(a, b, 0) && ShadowsAt(b, a, 1);
    assert Shadows(a, b) && Shadows(b, a);
  }

  // ---------------------------------------------------------------------------------------------
  // The paths that path finding records are real

  /** All edges are edges of the graph. */
  predicate InGraph(links: Precedences, edges: seq<Edge>) {
    forall e :: e in edges ==> NodePair(e.source, e.sink) in links && links[NodePair(e.source, e.sink)] == e.precedence
  }

  lemma {:induction false} ChainSources(g: Graph, n: NodeHandle, edges: seq<Edge>)
    requires JumpFreeChain(g, n, edges)
    ensures forall i :: 0 <= i < |edges| ==> edges[i].source == Nodes(n, edges)[i]
  {
    if edges == [] {
    } else {
      var front := edges[..|edges| - 1];
      ChainSources(g, n, front);
      NodesSnoc(n, front, edges[|edges| - 1]);
      assert edges == front + [edges[|edges| - 1]];
      assert Nodes(n, edges) == Nodes(n, front) + [edges[|edges| - 1].sink];
    }
  }

  /** A path built edge by edge from the graph's edges records its walk ... */
  lemma TraceIsReal(links: Precedences, g: Graph, n: NodeHandle, edges: seq<Edge>)
    requires g.AttachedScopesExist() && JumpFreeChain(g, n, edges) && InGraph(links, edges)
    requires Trace(g, n, edges).Ok?
    ensures Records(links, Nodes(n, edges), Trace(g, n, edges).value.edges)
  {
    hide Trace, Denotes, Canonical, ScopesOfPre, ScopesOfPost, JumpFreeChain, Nodes;
    EdgeByEdge(g, n, edges);
    ChainSources(g, n, edges);
    var w, list := Nodes(n, edges), EdgeRecords(edges);
    forall i | 0 <= i < |edges|
      ensures list[i] == PartialPathEdge(w[i], Precedence(links, w[i], w[i + 1]))
    {
      assert edges[i] in edges;
    }
  }

  /** ... and so does the concatenation of paths that do. */
  lemma ConcatenationIsReal(links: Precedences, w: Walk, a: EdgeList, u: Walk, b: EdgeList)
    requires Records(links, w, a) && Records(links, u, b) && Last(w) == u[0]
    ensures Records(links, Splice(w, u), a + b)
  {
    var v, list := Splice(w, u), a + b;
    forall i | 0 <= i < |list|
      ensures list[i] == PartialPathEdge(v[i], Precedence(links, v[i], v[i + 1]))
    {
      if i >= |a| {
        assert list[i] == b[i - |a|] && v[i + 1] == u[i - |a| + 1];
      }
    }
  }

  // ---------------------------------------------------------------------------------------------
  // Choosing the paths that nothing shadows

  ghost predicate Unshadowed(paths: seq<PartialPath>, p: PartialPath) {
    forall q :: q in paths ==> !Shadows(q.edges, p.edges)
  }

  ghost function UnshadowedPaths(paths: seq<PartialPath>, all: seq<PartialPath>): seq<PartialPath> {
    if paths == [] then []
    else
      var p := paths[|paths| - 1];
      UnshadowedPaths(paths[..|paths| - 1], all) + if Unshadowed(all, p) then [p] else []
  }

  lemma {:induction false} KeptPaths(paths: seq<PartialPath>, all: seq<PartialPath>, p: PartialPath)
    ensures p in UnshadowedPaths(paths, all) <==> p in paths && Unshadowed(all, p)
  {
    if paths == [] {
    } else {
      KeptPaths(paths[..|paths| - 1], all, p);
      assert paths == paths[..|paths| - 1] + [paths[|paths| - 1]];
    }
  }

  /** The paths record these walks, one by one. */
  ghost predicate RecordAll(links: Precedences, ws: seq<Walk>, paths: seq<PartialPath>) {
    |ws| == |paths| && forall i :: 0 <= i < |paths| ==> Records(links, ws[i], paths[i].edges)
  }

  ghost predicate Outdone(links: Precedences, ws: seq<Walk>, w: Walk) {
    exists k :: 0 <= k < |ws| && Preferred(links, ws[k], w)
  }

  /** A path is kept exactly if nowhere on its walk another one parts from it along an edge of higher precedence. */
  lemma KeptByPrecedence(links: Precedences, ws: seq<Walk>, paths: seq<PartialPath>, i: nat)
    requires RecordAll(links, ws, paths) && i < |paths|
    ensures paths[i] in UnshadowedPaths(paths, paths) <==> !Outdone(links, ws, ws[i])
  {
    hide Records, Shadows, Preferred;
    KeptPaths(paths, paths, paths[i]);
    forall k | 0 <= k < |paths|
      ensures Shadows(paths[k].edges, paths[i].edges) <==> Preferred(links, ws[k], ws[i])
    {
      ShadowsByPrecedence(links, ws[k], paths[k].edges, ws[i], paths[i].edges);
    }
    if !Unshadowed(paths, paths[i]) {
      var q :| q in paths && Shadows(q.edges, paths[i].edges);
      var k :| 0 <= k < |paths| && paths[k] == q;
    }
    if Outdone(links, ws, ws[i]) {
      var k :| 0 <= k < |ws| && Preferred(links, ws[k], ws[i]);
      assert paths[k] in paths;
    }
  }

  /** The paths that none of the others shadows, in their order. */
  method KeepUnshadowed(paths: seq<PartialPath>) returns (kept: seq<PartialPath>)
    ensures kept == UnshadowedPaths(paths, paths)
    ensures forall links, ws, i :: RecordAll(links, ws, paths) && 0 <= i < |paths| ==>
              (paths[i] in kept <==> !Outdone(links, ws, ws[i]))
  {
    forall links, ws, i | RecordAll(links, ws, paths) && 0 <= i < |paths|
      ensures paths[i] in UnshadowedPaths(paths, paths) <==> !Outdone(links, ws, ws[i])
    {
      KeptByPrecedence(links, ws, paths, i);
    }
    kept := [];
    for i := 0 to |paths|
      invariant kept == UnshadowedPaths(paths[..i], paths)
    {
      var keep := true;
      for k := 0 to |paths|
        invariant keep <==> forall m :: 0 <= m < k ==> !Shadows(paths[m].edges, paths[i].edges)
      {
        var shadowed := EdgeListShadows(paths[k].edges, paths[i].edges);
        if shadowed {
          keep := false;
          break;
        }
      }
      assert paths[..i + 1][..i] == paths[..i];
      if keep {
        kept := kept + [paths[i]];
      }
    }
    assert paths[..|paths|] == paths;
  }

  ghost predicate AllReal(links: Precedences, paths: seq<PartialPath>) {
    forall p :: p in paths ==> Real(links, p.edges)
  }

  /** The positions of the paths that shadow `p`. */
  ghost function ShadowersOf(paths: seq<PartialPath>, p: PartialPath): set<nat> {
    set i: nat | i < |paths| && Shadows(paths[i].edges, p.edges)
  }

  /** Every path is kept, or shadowed by a path that is. */
  lemma {:induction false} DroppedIsShadowedByKept(links: Precedences, paths: seq<PartialPath>, p: PartialPath)
    returns (q: PartialPath)
    requires AllReal(links, paths) && p in paths
    ensures q in UnshadowedPaths(paths, paths)
    ensures q == p || Shadows(q.edges, p.edges)
    decreases |ShadowersOf(paths, p)|
  {
    if Unshadowed(paths, p) {
      q := p;
    } else {
      var r :| r in paths && Shadows(r.edges, p.edges);
      ShadowersShrink(links, paths, r, p);
      q := DroppedIsShadowedByKept(links, paths, r);
      KeptPaths(paths, paths, q);
      if q != r {
        ShadowsTransitive(links, q.edges, r.edges, p.edges);
      }
    }
    KeptPaths(paths, paths, q);
  }

  lemma ShadowersShrink(links: Precedences, paths: seq<PartialPath>, r: PartialPath, p: PartialPath)
    requires AllReal(links, paths) && r in paths && p in paths && Shadows(r.edges, p.edges)
    ensures |ShadowersOf(paths, r)| < |ShadowersOf(paths, p)|
  {
    var i :| 0 <= i < |paths| && paths[i] == r;
    ShadowsIrreflexive(r.edges);
    forall k | k in ShadowersOf(paths, r)
      ensures k in ShadowersOf(paths, p)
    {
      ShadowsTransitive(links, paths[k].edges, r.edges, p.edges);
    }
    assert i in ShadowersOf(paths, p) && i !in ShadowersOf(paths, r);
    SubsetSize(ShadowersOf(paths, r), ShadowersOf(paths, p) - {i});
  }

  lemma {:induction false} SubsetSize(a: set<nat>, b: set<nat>)
    requires a <= b
    ensures |a| <= |b|
  {
    if a == {} {
    } else {
      var x :| x in a;
      SubsetSize(a - {x}, b - {x});
    }
  }

  /** So something is kept of every non-empty list of real paths. */
  lemma SomethingIsKept(links: Precedences, paths: seq<PartialPath>)
    requires AllReal(links, paths) && paths != []
    ensures UnshadowedPaths(paths, paths) != []
  {
    var q := DroppedIsShadowedByKept(links, paths, paths[0]);
  }
}
