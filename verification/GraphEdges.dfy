/**
 The edges of a stack graph: sorted vectors of outgoing edges with at most one edge between two nodes, and
 saturating counts of incoming ones.
 */
module GraphEdges {
  import opened Wrappers
  import opened Graphs
  import opened PartialPaths
  import opened SupplementalArenas
  import opened Shadowing

  datatype OutgoingEdge = OutgoingEdge(sink: NodeHandle, precedence: int)

  /** Sorted by sink, each sink once. */
  predicate Sorted(edges: seq<OutgoingEdge>) {
    forall i, j :: 0 <= i < j < |edges| ==> edges[i].sink < edges[j].sink
  }

  ghost predicate HasSink(edges: seq<OutgoingEdge>, sink: NodeHandle) {
    exists i :: 0 <= i < |edges| && edges[i].sink == sink
  }

  /** The number of edges that end at a node: one for every source with an edge to it. */
  ghost function EdgesInto(outgoing: seq<seq<OutgoingEdge>>, sink: NodeHandle): nat {
    if outgoing == [] then 0
    else EdgesInto(outgoing[..|outgoing| - 1], sink) + if HasSink(outgoing[|outgoing| - 1], sink) then 1 else 0
  }

  lemma {:induction false} EdgesIntoUpdate(outgoing: seq<seq<OutgoingEdge>>, s: nat, edges: seq<OutgoingEdge>,
                                           sink: NodeHandle)
    requires s < |outgoing|
    ensures EdgesInto(outgoing[s := edges], sink) ==
            EdgesInto(outgoing, sink) - (if HasSink(outgoing[s], sink) then 1 else 0) +
              (if HasSink(edges, sink) then 1 else 0)
  {
    hide HasSink;
    var k := |outgoing| - 1;
    if s == k {
      assert outgoing[s := edges][..k] == outgoing[..k];
    } else {
      EdgesIntoUpdate(outgoing[..k], s, edges, sink);
      assert outgoing[s := edges][..k] == outgoing[..k][s := edges];
    }
  }

  lemma {:induction false} EdgesIntoGrown(outgoing: seq<seq<OutgoingEdge>>, more: seq<seq<OutgoingEdge>>,
                                          sink: NodeHandle)
    requires forall i :: 0 <= i < |more| ==> more[i] == []
    ensures EdgesInto(outgoing + more, sink) == EdgesInto(outgoing, sink)
    decreases |more|
  {
    if more == [] {
      assert outgoing + more == outgoing;
    } else {
      EdgesIntoGrown(outgoing, more[..|more| - 1], sink);
      assert (outgoing + more)[..|outgoing + more| - 1] == outgoing + more[..|more| - 1];
    }
  }

  lemma EdgesIntoUpdated(outgoing: seq<seq<OutgoingEdge>>, s: nat, edges: seq<OutgoingEdge>, sink: NodeHandle)
    ensures EdgesInto(Updated(outgoing, s, edges, []), sink) ==
            EdgesInto(outgoing, sink) - (if HasSink(Lookup(outgoing, s, []), sink) then 1 else 0)
                                      + (if HasSink(edges, sink) then 1 else 0)
  {
    var more := if |outgoing| <= s then seq(s + 1 - |outgoing|, _ => []) else [];
    EdgesIntoGrown(outgoing, more, sink);
    assert outgoing + [] == outgoing;
    EdgesIntoUpdate(outgoing + more, s, edges, sink);
    assert (outgoing + more)[s] == Lookup(outgoing, s, []);
  }

  /** Two sources with an edge to a node make it a join node. */
  lemma {:induction false} TwoEdgesInto(outgoing: seq<seq<OutgoingEdge>>, a: nat, b: nat, sink: NodeHandle)
    requires a < b < |outgoing| && HasSink(outgoing[a], sink) && HasSink(outgoing[b], sink)
    ensures EdgesInto(outgoing, sink) >= 2
  {
    var k := |outgoing| - 1;
    if b < k {
      TwoEdgesInto(outgoing[..k], a, b, sink);
    } else {
      OneEdgeInto(outgoing[..k], a, sink);
    }
  }

  lemma {:induction false} OneEdgeInto(outgoing: seq<seq<OutgoingEdge>>, a: nat, sink: NodeHandle)
    requires a < |outgoing| && HasSink(outgoing[a], sink)
    ensures EdgesInto(outgoing, sink) >= 1
  {
    var k := |outgoing| - 1;
    if a < k {
      OneEdgeInto(outgoing[..k], a, sink);
    }
  }

  /** Where the sink is among the edges, or where an edge to it belongs. */
  datatype Place = Present(index: nat) | Absent(index: nat)

  method BinarySearchBySink(edges: seq<OutgoingEdge>, sink: NodeHandle) returns (r: Place)
    requires Sorted(edges)
    ensures r.Present? ==> r.index < |edges| && edges[r.index].sink == sink
    ensures r.Absent? ==> r.index <= |edges| && !HasSink(edges, sink)
    ensures r.Absent? ==> forall i :: 0 <= i < |edges| ==>
            if i < r.index then edges[i].sink < sink else sink < edges[i].sink
  {
    var low, high := 0, |edges|;
    while low < high
      invariant 0 <= low <= high <= |edges|
      invariant forall i :: 0 <= i < low ==> edges[i].sink < sink
      invariant forall i :: high <= i < |edges| ==> sink < edges[i].sink
    {
      var mid := (low + high) / 2;
      if edges[mid].sink < sink {
        low := mid + 1;
      } else if sink < edges[mid].sink {
        high := mid;
      } else {
        return Present(mid);
      }
    }
    return Absent(low);
  }

  function Inserted(edges: seq<OutgoingEdge>, index: nat, e: OutgoingEdge): seq<OutgoingEdge>
    requires index <= |edges|
  {
    edges[..index] + [e] + edges[index..]
  }

  /** The vector holds an edge to a sink exactly if the graph has one, with its precedence. */
  ghost predicate HoldsEdges(edges: seq<OutgoingEdge>, links: Precedences, source: NodeHandle) {
    && (forall i :: 0 <= i < |edges| ==>
          NodePair(source, edges[i].sink) in links && links[NodePair(source, edges[i].sink)] == edges[i].precedence)
    && (forall t :: NodePair(source, t) in links ==> HasSink(edges, t))
  }

  lemma InsertedAt(edges: seq<OutgoingEdge>, index: nat, e: OutgoingEdge, i: nat)
    requires index <= |edges| && i <= |edges|
    ensures Inserted(edges, index, e)[i] == if i < index then edges[i] else if i == index then e else edges[i - 1]
  {
  }

  lemma InsertedSorted(edges: seq<OutgoingEdge>, index: nat, e: OutgoingEdge)
    requires index <= |edges| && Sorted(edges)
    requires forall i :: 0 <= i < |edges| ==> if i < index then edges[i].sink < e.sink else e.sink < edges[i].sink
    ensures Sorted(Inserted(edges, index, e))
  {
    hide Inserted;
    var after := Inserted(edges, index, e);
    assert |after| == |edges| + 1 by { InsertedLength(edges, index, e); }
    forall i, j | 0 <= i < j < |after|
      ensures after[i].sink < after[j].sink
    {
      InsertedAt(edges, index, e, i);
      InsertedAt(edges, index, e, j);
    }
  }

  lemma InsertedLength(edges: seq<OutgoingEdge>, index: nat, e: OutgoingEdge)
    requires index <= |edges|
    ensures |Inserted(edges, index, e)| == |edges| + 1
  {
  }

  lemma InsertedSinks(edges: seq<OutgoingEdge>, index: nat, e: OutgoingEdge, t: NodeHandle)
    requires index <= |edges|
    ensures HasSink(Inserted(edges, index, e), t) <==> t == e.sink || HasSink(edges, t)
  {
    var after := Inserted(edges, index, e);
    assert after[index] == e;
    if HasSink(edges, t) {
      var i :| 0 <= i < |edges| && edges[i].sink == t;
      InsertedAt(edges, index, e, if i < index then i else i + 1);
    }
    if HasSink(after, t) {
      var i :| 0 <= i < |after| && after[i].sink == t;
      InsertedAt(edges, index, e, i);
    }
  }

  lemma InsertedHolds(edges: seq<OutgoingEdge>, index: nat, e: OutgoingEdge, links: Precedences, source: NodeHandle)
    requires index <= |edges| && HoldsEdges(edges, links, source) && !HasSink(edges, e.sink)
    ensures HoldsEdges(Inserted(edges, index, e), links[NodePair(source, e.sink) := e.precedence], source)
  {
    hide Inserted;
    var after := Inserted(edges, index, e);
    InsertedLength(edges, index, e);
    forall i | 0 <= i < |after|
      ensures after[i] == e || (after[i] in edges && after[i].sink != e.sink)
    {
      InsertedAt(edges, index, e, i);
    }
    forall t {
      InsertedSinks(edges, index, e, t);
    }
  }

  ghost predicate VectorsHold(outgoing: seq<seq<OutgoingEdge>>, links: Precedences) {
    forall s: nat :: HoldsEdges(Lookup(outgoing, s, []), links, s)
  }

  /** The whole representation: sorted vectors that hold the edges, and counts that agree with them. */
  ghost predicate Represents(outgoing: seq<seq<OutgoingEdge>>, incoming: seq<Degree>, links: Precedences) {
    && (forall s :: 0 <= s < |outgoing| ==> Sorted(outgoing[s]))
    && VectorsHold(outgoing, links)
    && (forall t: nat :: Lookup(incoming, t, Zero) == Saturated(EdgesInto(outgoing, t)))
  }

  lemma RepresentsGrown(outgoing: seq<seq<OutgoingEdge>>, incoming: seq<Degree>, links: Precedences, source: NodeHandle)
    requires Represents(outgoing, incoming, links)
    ensures Represents(Updated(outgoing, source, Lookup(outgoing, source, []), []), incoming, links)
  {
    hide EdgesInto, HasSink, HoldsEdges;
    var edges := Lookup(outgoing, source, []);
    var grown := Updated(outgoing, source, edges, []);
    forall s | 0 <= s < |grown|
      ensures Sorted(grown[s])
    {
      assert grown[s] == Lookup(grown, s, []);
    }
    forall t: nat {
      EdgesIntoUpdated(outgoing, source, edges, t);
    }
  }

  lemma RepresentsMore(outgoing: seq<seq<OutgoingEdge>>, incoming: seq<Degree>, links: Precedences, source: NodeHandle,
                       index: nat, e: OutgoingEdge)
    requires Represents(outgoing, incoming, links) && source < |outgoing|
    requires index <= |outgoing[source]| && !HasSink(outgoing[source], e.sink)
    requires forall i :: 0 <= i < |outgoing[source]| ==>
      if i < index then outgoing[source][i].sink < e.sink else e.sink < outgoing[source][i].sink
    ensures Represents(outgoing[source := Inserted(outgoing[source], index, e)],
                       Updated(incoming, e.sink, Lookup(incoming, e.sink, Zero).Plus(One), Zero),
                       links[NodePair(source, e.sink) := e.precedence])
  {
    hide EdgesInto, HasSink, Inserted;
    var edges := outgoing[source];
    var after := Inserted(edges, index, e);
    var more := links[NodePair(source, e.sink) := e.precedence];
    assert HoldsEdges(Lookup(outgoing, source, []), links, source);
    InsertedSorted(edges, index, e);
    InsertedHolds(edges, index, e, links, source);
    var vectors := outgoing[source := after];
    var degrees := Updated(incoming, e.sink, Lookup(incoming, e.sink, Zero).Plus(One), Zero);
    OtherVectorsHold(outgoing, links, source, after, e.sink, e.precedence);
    forall t: nat
      ensures Lookup(degrees, t, Zero) == Saturated(EdgesInto(vectors, t))
    {
      EdgesIntoUpdate(outgoing, source, after, t);
      InsertedSinks(edges, index, e, t);
      SaturatedPlus(EdgesInto(outgoing, t), 1);
    }
  }

  /** Changing one vector along with the edges of its source leaves the others right. */
  lemma OtherVectorsHold(outgoing: seq<seq<OutgoingEdge>>, links: Precedences, source: NodeHandle,
                         after: seq<OutgoingEdge>, sink: NodeHandle, precedence: int)
    requires source < |outgoing| && VectorsHold(outgoing, links)
    requires HoldsEdges(after, links[NodePair(source, sink) := precedence], source)
    ensures VectorsHold(outgoing[source := after], links[NodePair(source, sink) := precedence])
  {
    hide HasSink;
    var vectors, more := outgoing[source := after], links[NodePair(source, sink) := precedence];
    forall s: nat
      ensures HoldsEdges(Lookup(vectors, s, []), more, s)
    {
      assert HoldsEdges(Lookup(outgoing, s, []), links, s);
    }
  }

  class StackGraph {
    var outgoing: seq<seq<OutgoingEdge>>
    var incoming: seq<Degree>
    /** The edges of the graph: at most one between two nodes, with its precedence. */
    ghost var links: Precedences

    ghost predicate Valid()
      reads this
    {
      Represents(outgoing, incoming, links)
    }

    constructor ()
      ensures Valid() && links == map[]
    {
      outgoing, incoming, links := [], [], map[];
    }

    /** Adds an edge, unless there is one between the two nodes already. */
    method AddEdge(source: NodeHandle, sink: NodeHandle, precedence: int)
      requires Valid()
      modifies this
      ensures Valid()
      ensures links == if NodePair(source, sink) in old(links) then old(links)
                       else old(links)[NodePair(source, sink) := precedence]
    {
      hide Represents, HoldsEdges, HasSink, Inserted;
      RepresentsGrown(outgoing, incoming, links, source);
      outgoing := Updated(outgoing, source, Lookup(outgoing, source, []), []);
      VectorHolds(outgoing, incoming, links, source);
      var place := BinarySearchBySink(outgoing[source], sink);
      LinkOrNot(outgoing[source], links, source, sink);
      if place.Absent? {
        var edge := OutgoingEdge(sink, precedence);
        RepresentsMore(outgoing, incoming, links, source, place.index, edge);
        outgoing := outgoing[source := Inserted(outgoing[source], place.index, edge)];
        incoming := Updated(incoming, sink, Lookup(incoming, sink, Zero).Plus(One), Zero);
        links := links[NodePair(source, sink) := precedence];
      } else {
        SinkAt(outgoing[source], place.index);
      }
    }

    /** Changes the precedence of an edge, if there is one. */
    method SetEdgePrecedence(source: NodeHandle, sink: NodeHandle, precedence: int)
      requires Valid()
      modifies this
      ensures Valid()
      ensures links == if NodePair(source, sink) in old(links) then old(links)[NodePair(source, sink) := precedence]
                       else old(links)
    {
      hide Represents, HoldsEdges, HasSink;
      RepresentsGrown(outgoing, incoming, links, source);
      outgoing := Updated(outgoing, source, Lookup(outgoing, source, []), []);
      VectorHolds(outgoing, incoming, links, source);
      var place := BinarySearchBySink(outgoing[source], sink);
      LinkOrNot(outgoing[source], links, source, sink);
      if place.Present? {
        SinkAt(outgoing[source], place.index);
        RepresentsChanged(outgoing, incoming, links, source, place.index, precedence);
        outgoing := outgoing[source := outgoing[source][place.index := OutgoingEdge(sink, precedence)]];
        links := links[NodePair(source, sink) := precedence];
      }
    }

    /** All edges that leave a node, sorted by sink. */
    method OutgoingEdges(source: NodeHandle) returns (r: seq<Edge>)
      requires Valid()
      ensures forall t, p :: Edge(source, t, p) in r <==>
              NodePair(source, t) in links && links[NodePair(source, t)] == p
      ensures forall i :: 0 <= i < |r| ==> r[i].source == source
      ensures forall i, j :: 0 <= i < j < |r| ==> r[i].sink < r[j].sink
    {
      var edges := Lookup(outgoing, source, []);
      assert HoldsEdges(edges, links, source);
      r := seq(|edges|, i requires 0 <= i < |edges| => Edge(source, edges[i].sink, edges[i].precedence));
      forall t, p
        ensures Edge(source, t, p) in r <==> NodePair(source, t) in links && links[NodePair(source, t)] == p
      {
        if NodePair(source, t) in links {
          var i :| 0 <= i < |edges| && edges[i].sink == t;
          assert r[i] == Edge(source, t, links[NodePair(source, t)]);
        }
      }
    }

    /** How many edges end at a node, if not many. */
    function IncomingEdgeDegree(sink: NodeHandle): (r: Degree)
      requires Valid()
      reads this
      ensures r == Saturated(EdgesInto(outgoing, sink))
    {
      var degree := Get(incoming, sink);
      assert Lookup(incoming, sink, Zero) == Saturated(EdgesInto(outgoing, sink));
      if degree.Some? then degree.value else Zero
    }
  }

  lemma VectorHolds(outgoing: seq<seq<OutgoingEdge>>, incoming: seq<Degree>, links: Precedences, source: NodeHandle)
    requires Represents(outgoing, incoming, links) && source < |outgoing|
    ensures Sorted(outgoing[source]) && HoldsEdges(outgoing[source], links, source)
  {
    assert HoldsEdges(Lookup(outgoing, source, []), links, source);
  }

  lemma LinkOrNot(edges: seq<OutgoingEdge>, links: Precedences, source: NodeHandle, sink: NodeHandle)
    requires HoldsEdges(edges, links, source)
    ensures NodePair(source, sink) in links <==> HasSink(edges, sink)
  {
  }

  lemma SinkAt(edges: seq<OutgoingEdge>, i: nat)
    requires i < |edges|
    ensures HasSink(edges, edges[i].sink)
  {
  }

  lemma RepresentsChanged(outgoing: seq<seq<OutgoingEdge>>, incoming: seq<Degree>, links: Precedences,
                          source: NodeHandle, index: nat, precedence: int)
    requires Represents(outgoing, incoming, links) && source < |outgoing| && index < |outgoing[source]|
    ensures var sink := outgoing[source][index].sink;
            Represents(outgoing[source := outgoing[source][index := OutgoingEdge(sink, precedence)]], incoming,
                       links[NodePair(source, sink) := precedence])
  {
    hide EdgesInto;
    var edges := outgoing[source];
    var sink := edges[index].sink;
    var after := edges[index := OutgoingEdge(sink, precedence)];
    var more := links[NodePair(source, sink) := precedence];
    assert HoldsEdges(Lookup(outgoing, source, []), links, source);
    forall t
      ensures HasSink(after, t) <==> HasSink(edges, t)
    {
      ChangedSinks(edges, index, precedence, t);
    }
    assert HoldsEdges(after, more, source);
    OtherVectorsHold(outgoing, links, source, after, sink, precedence);
    var vectors := outgoing[source := after];
    forall t: nat
      ensures Lookup(incoming, t, Zero) == Saturated(EdgesInto(vectors, t))
    {
      EdgesIntoUpdate(outgoing, source, after, t);
    }
  }

  lemma ChangedSinks(edges: seq<OutgoingEdge>, index: nat, precedence: int, t: NodeHandle)
    requires index < |edges|
    ensures HasSink(edges[index := OutgoingEdge(edges[index].sink, precedence)], t) <==> HasSink(edges, t)
  {
    var after := edges[index := OutgoingEdge(edges[index].sink, precedence)];
    if i :| 0 <= i < |edges| && edges[i].sink == t {
      assert after[i].sink == t;
    }
    if i :| 0 <= i < |after| && after[i].sink == t {
      assert edges[i].sink == t;
    }
  }
}
