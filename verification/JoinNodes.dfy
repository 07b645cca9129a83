/**
 Why it is enough to look for cycles at join nodes: on any walk over stored edges or stored partial paths,
 the first node to be visited again is the start of the walk, or a node that many of them lead to.
 */
module JoinNodes {
  import opened Wrappers
  import opened Graphs
  import opened PartialPaths
  import opened SupplementalArenas
  import opened Shadowing
  import opened GraphEdges
  import opened RootIndex

  /** Position `j` is the first one whose node has been visited before, at position `i`. */
  predicate FirstRepeat(w: seq<NodeHandle>, i: nat, j: nat) {
    && i < j < |w| && w[i] == w[j]
    && forall a, b :: 0 <= a < b < j ==> w[a] != w[b]
  }

  /** The walk follows edges of the graph. */
  predicate FollowsEdges(links: Precedences, w: seq<NodeHandle>) {
    forall k :: 0 <= k < |w| - 1 ==> NodePair(w[k], w[k + 1]) in links
  }

  lemma FirstRepeatOverEdges(outgoing: seq<seq<OutgoingEdge>>, incoming: seq<Degree>, links: Precedences,
                             w: seq<NodeHandle>, i: nat, j: nat)
    requires Represents(outgoing, incoming, links) && FollowsEdges(links, w) && FirstRepeat(w, i, j)
    ensures i == 0 || Lookup(incoming, w[j], Zero) == Multiple
  {
    hide EdgesInto, HasSink;
    if i > 0 {
      var a, b := w[i - 1], w[j - 1];
      assert NodePair(w[i - 1], w[i - 1 + 1]) in links && NodePair(w[j - 1], w[j - 1 + 1]) in links;
      SourceHasSink(outgoing, links, a, w[j]);
      SourceHasSink(outgoing, links, b, w[j]);
      if a < b {
        TwoEdgesInto(outgoing, a, b, w[j]);
      } else {
        TwoEdgesInto(outgoing, b, a, w[j]);
      }
    }
  }

  lemma SourceHasSink(outgoing: seq<seq<OutgoingEdge>>, links: Precedences, source: NodeHandle, sink: NodeHandle)
    requires VectorsHold(outgoing, links) && NodePair(source, sink) in links
    ensures source < |outgoing| && HasSink(outgoing[source], sink)
  {
    assert HoldsEdges(Lookup(outgoing, source, []), links, source);
    assert HasSink(Lookup(outgoing, source, []), sink);
  }

  /** The walk passes the ends of stored paths, one after the other. */
  predicate FollowsPaths(paths: seq<PartialPath>, handles: seq<nat>, w: seq<NodeHandle>) {
    && |w| == |handles| + 1
    && forall k :: 0 <= k < |handles| ==>
         handles[k] < |paths| && paths[handles[k]].startNode == w[k] && paths[handles[k]].endNode == w[k + 1]
  }

  lemma FirstRepeatOverPaths(incoming: seq<Degree>, paths: seq<PartialPath>, handles: seq<nat>, w: seq<NodeHandle>,
                             i: nat, j: nat)
    requires forall n :: Lookup(incoming, n, Zero) == Saturated(EndingAt(paths, n))
    requires FollowsPaths(paths, handles, w) && FirstRepeat(w, i, j)
    ensures i == 0 || Lookup(incoming, w[j], Zero) == Multiple
  {
    if i > 0 {
      var a, b := handles[i - 1], handles[j - 1];
      assert w[i - 1] != w[j - 1] && paths[a].startNode == w[i - 1] && paths[b].startNode == w[j - 1];
      assert paths[a].endNode == w[i - 1 + 1] && paths[b].endNode == w[j - 1 + 1];
      if a < b {
        TwoPathsEnd(paths, a, b, w[j]);
      } else {
        TwoPathsEnd(paths, b, a, w[j]);
      }
    }
  }

  lemma {:induction false} TwoPathsEnd(paths: seq<PartialPath>, a: nat, b: nat, n: NodeHandle)
    requires a < b < |paths| && paths[a].endNode == n && paths[b].endNode == n
    ensures EndingAt(paths, n) >= 2
  {
    var k := |paths| - 1;
    if b < k {
      TwoPathsEnd(paths[..k], a, b, n);
    } else {
      OnePathEnds(paths[..k], a, n);
    }
  }

  lemma {:induction false} OnePathEnds(paths: seq<PartialPath>, a: nat, n: NodeHandle)
    requires a < |paths| && paths[a].endNode == n
    ensures EndingAt(paths, n) >= 1
  {
    var k := |paths| - 1;
    if a < k {
      OnePathEnds(paths[..k], a, n);
    }
  }

  // ---------------------------------------------------------------------------------------------
  // While paths are being loaded

  lemma {:induction false} MoreEnd(paths: seq<PartialPath>, loaded: nat, n: NodeHandle)
    requires loaded <= |paths|
    ensures EndingAt(paths[..loaded], n) <= EndingAt(paths, n)
  {
    var k := |paths| - 1;
    if loaded == |paths| {
      assert paths[..loaded] == paths;
    } else {
      MoreEnd(paths[..k], loaded, n);
      assert paths[..k][..loaded] == paths[..loaded];
    }
  }

  /**
   Degrees grow while a search goes on and more paths are loaded.  Still, a walk that repeats a node for the first
   time does so over paths that are loaded by then: the node is the start of the walk, or a join already, as it
   will remain.  So the cycle is checked as soon as it is closed.
   */
  lemma FirstRepeatWhileLoading(paths: seq<PartialPath>, loaded: nat, incoming: seq<Degree>, handles: seq<nat>,
                                w: seq<NodeHandle>, i: nat, j: nat)
    requires loaded <= |paths|
    requires forall n :: Lookup(incoming, n, Zero) == Saturated(EndingAt(paths[..loaded], n))
    requires FollowsPaths(paths, handles, w) && (forall k :: 0 <= k < |handles| ==> handles[k] < loaded)
    requires FirstRepeat(w, i, j)
    ensures i == 0 || Lookup(incoming, w[j], Zero) == Multiple
    ensures i == 0 || Saturated(EndingAt(paths, w[j])) == Multiple
  {
    var before := paths[..loaded];
    forall k | 0 <= k < |handles|
      ensures before[handles[k]] == paths[handles[k]]
    {
    }
    FirstRepeatOverPaths(incoming, before, handles, w, i, j);
    MoreEnd(paths, loaded, w[j]);
  }
}
