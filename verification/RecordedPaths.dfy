/**
 The edge lists of the paths of a search record real walks, jumps included: whatever is stitched from recorded
 fragments records its journey, every edge with its precedence and every jump with none.  So what is offered to
 the similar path detector is real, and its buckets represent it.
 */
module RecordedPaths {
  import opened Wrappers
  import opened Graphs
  import opened Unification
  import opened PartialPaths
  import opened Exactness
  import opened AppendExactness
  import opened Settling
  import opened Stitching
  import opened CycleDetection
  import opened Shadowing
  import opened SimilarPaths
  import opened Worklists
  import opened Stitcher
  import opened SearchCoverage

  /** No edges leave jumps, so a jump has no precedence. */
  ghost predicate JumpsUnlinked(g: Graph, links: Precedences) {
    forall n, m :: g.Kind(n).JumpTo? ==> NodePair(n, m) !in links
  }

  ghost predicate RecordsWalk(links: Precedences, p: PartialPath, w: Walk) {
    w[0] == p.startNode && Last(w) == p.endNode && Records(links, w, p.edges)
  }

  /** The path's edges record a walk between its ends. */
  ghost predicate Recorded(links: Precedences, p: PartialPath) {
    exists w :: RecordsWalk(links, p, w)
  }

  /** The fragment is an edge of the graph, or a path that records a walk. */
  ghost predicate RecordedFragment(links: Precedences, f: Fragment) {
    match f
    case EdgeFragment(e) => InGraph(links, [e])
    case PathFragment(p) => Recorded(links, p)
  }

  lemma RecordedIsReal(links: Precedences, p: PartialPath)
    requires Recorded(links, p)
    ensures Real(links, p.edges)
  {
    var w :| RecordsWalk(links, p, w);
    assert Records(links, w, p.edges);
  }

  lemma NodeRecorded(links: Precedences, p: PartialPath)
    requires p.startNode == p.endNode && p.edges == []
    ensures Recorded(links, p)
  {
    assert RecordsWalk(links, p, [p.startNode]);
  }

  /** Following a jump whose target is known records the jump. */
  lemma ResolvedRecorded(g: Graph, links: Precedences, p: PartialPath)
    requires JumpsUnlinked(g, links) && Recorded(links, p) && ResolveFromPostcondition(g, p).Ok?
    ensures Recorded(links, ResolveFromPostcondition(g, p).value)
  {
    var w :| RecordsWalk(links, p, w);
    if JumpKnown(g, p) {
      var q := ResolveFromPostcondition(g, p).value;
      var jump: Walk := [p.endNode, q.endNode];
      assert Records(links, jump, [PartialPathEdge(p.endNode, 0)]);
      ConcatenationIsReal(links, w, p.edges, jump, [PartialPathEdge(p.endNode, 0)]);
      assert RecordsWalk(links, q, Splice(w, jump));
    }
  }

  lemma EnteredRecorded(g: Graph, links: Precedences, p: PartialPath, e: Edge)
    requires Recorded(links, p) && InGraph(links, [e]) && Entered(g, p, e).Ok?
    ensures Recorded(links, Entered(g, p, e).value)
  {
    hide AppendNode;
    AppendNodeShape(g.Kind(e.sink), p);
    var w :| RecordsWalk(links, p, w);
    var u: Walk := [e.source, e.sink];
    assert [e][0] == e && e in [e];
    assert Records(links, u, [PartialPathEdge(e.source, e.precedence)]);
    ConcatenationIsReal(links, w, p.edges, u, [PartialPathEdge(e.source, e.precedence)]);
    assert RecordsWalk(links, Entered(g, p, e).value, Splice(w, u));
  }

  lemma JoinedRecorded(g: Graph, links: Precedences, p: PartialPath, next: PartialPath, depth: nat)
    requires Recorded(links, p) && Recorded(links, next) && Joined(g, p.RenamedApartFrom(next), next, depth).Ok?
    ensures Recorded(links, Joined(g, p.RenamedApartFrom(next), next, depth).value)
  {
    var w :| RecordsWalk(links, p, w);
    var u :| RecordsWalk(links, next, u);
    ConcatenationIsReal(links, w, p.edges, u, next.edges);
    assert RecordsWalk(links, Joined(g, p.RenamedApartFrom(next), next, depth).value, Splice(w, u));
  }

  /** Appending a recorded fragment to a recorded path that does not wait at a jump gives a recorded path. */
  lemma AppendedRecorded(g: Graph, links: Precedences, p: PartialPath, f: Fragment, depth: nat)
    requires JumpsUnlinked(g, links) && Recorded(links, p) && RecordedFragment(links, f)
    requires !g.Kind(p.endNode).JumpTo? && AppendFragment(g, p, f, depth).Ok?
    ensures Recorded(links, AppendFragment(g, p, f, depth).value)
  {
    hide Recorded, Entered, Joined, ResolveFromPostcondition;
    match f
    case EdgeFragment(e) =>
      EnteredRecorded(g, links, p, e);
      ResolvedRecorded(g, links, Entered(g, p, e).value);
    case PathFragment(next) =>
      JoinedRecorded(g, links, p, next, depth);
      ResolvedRecorded(g, links, Joined(g, p.RenamedApartFrom(next), next, depth).value);
  }

  // ---------------------------------------------------------------------------------------------
  // What is stitched records its journey

  /** The fragment's edges record the walk that it stands for. */
  ghost predicate RecordsFragment(links: Precedences, f: Fragment, u: Walk) {
    match f
    case EdgeFragment(e) => InGraph(links, [e])
    case PathFragment(p) => Records(links, u, p.edges)
  }

  function FragmentEdges(f: Fragment): EdgeList {
    match f
    case EdgeFragment(e) => [PartialPathEdge(e.source, e.precedence)]
    case PathFragment(p) => p.edges
  }

  /** Appending adds the fragment's edges, and one more for a jump that is followed at once. */
  lemma AppendedEdges(g: Graph, p: PartialPath, f: Fragment, depth: nat)
    requires !g.Kind(p.endNode).JumpTo? && AppendFragment(g, p, f, depth).Ok?
    ensures var r := AppendFragment(g, p, f, depth).value;
            r.edges == p.edges + FragmentEdges(f) ||
            r.edges == p.edges + FragmentEdges(f) + [PartialPathEdge(f.EndNode(), 0)]
  {
    match f
    case EdgeFragment(e) =>
      if AppendNode(g.Kind(e.sink), p).Ok? {
        AppendNodeShape(g.Kind(e.sink), p);
      }
    case PathFragment(next) =>
  }

  lemma FragmentRecords(g: Graph, links: Precedences, f: Fragment, u: Walk)
    requires Describes(g, f, u) && RecordsFragment(links, f, u)
    ensures Records(links, u, FragmentEdges(f)) && |FragmentEdges(f)| == EdgeCount(f)
  {
    match f
    case EdgeFragment(e) =>
      assert [e][0] == e && e in [e];
    case PathFragment(p) =>
  }

  lemma AppendRecords(g: Graph, links: Precedences, path: PartialPath, w: Walk, f: Fragment, u: Walk, depth: nat,
                      o: Origin)
    requires g.AttachedScopesExist() && JumpsUnlinked(g, links)
    requires Summary(g, path, w, o) && Describes(g, f, u) && Last(w) == u[0] && AppendFragment(g, path, f, depth).Ok?
    requires Records(links, w, path.edges) && RecordsFragment(links, f, u)
    ensures Records(links, Settle(g, Splice(w, u), o), AppendFragment(g, path, f, depth).value.edges)
  {
    hide Summary, AppendFragment, Describes, Records, Decided;
    SummaryOf(g, path, w, o);
    DescribedStart(g, f, u);
    AppendFragmentSummary(g, path, w, f, u, depth, o);
    AppendedEdges(g, path, f, depth);
    FragmentRecords(g, links, f, u);
    ConcatenationIsReal(links, w, path.edges, u, FragmentEdges(f));
    var v := Splice(w, u);
    if Settle(g, v, o) != v {
      var jump: Walk := [Last(v), Last(Settle(g, v, o))];
      JumpRecords(g, links, jump);
      ConcatenationIsReal(links, v, path.edges + FragmentEdges(f), jump, [PartialPathEdge(Last(v), 0)]);
      assert Splice(v, jump) == Settle(g, v, o);
    }
  }

  lemma JumpRecords(g: Graph, links: Precedences, jump: Walk)
    requires JumpsUnlinked(g, links) && |jump| == 2 && g.Kind(jump[0]).JumpTo?
    ensures Records(links, jump, [PartialPathEdge(jump[0], 0)])
  {
  }

  /** Whatever is stitched from fragments that record their walks records the journey, jumps included. */
  lemma {:induction false} StitchRecords(g: Graph, links: Precedences, path: PartialPath, w: Walk,
                                         fragments: seq<Fragment>, us: seq<Walk>, depth: nat, o: Origin)
    requires g.AttachedScopesExist() && JumpsUnlinked(g, links)
    requires Summary(g, path, w, o) && !g.Kind(Last(w)).JumpTo? && Records(links, w, path.edges)
    requires DescribeAll(g, fragments, us) && Consecutive(g, w, us, o)
    requires forall k :: 0 <= k < |us| ==> RecordsFragment(links, fragments[k], us[k])
    requires Stitch(g, path, fragments, depth).Ok?
    ensures Records(links, Journey(g, w, us, o), Stitch(g, path, fragments, depth).value.edges)
    decreases |us|
  {
    hide Summary, Records, Settle, Describes, AppendFragment, RecordsFragment, Passable, Open;
    if us != [] {
      var k := |us| - 1;
      StitchRecords(g, links, path, w, fragments[..k], us[..k], depth, o);
      StitchSummary(g, path, w, fragments[..k], us[..k], depth, o);
      AppendRecords(g, links, Stitch(g, path, fragments[..k], depth).value, Journey(g, w, us[..k], o), fragments[k],
                    us[k], depth, o);
    }
  }

  // ---------------------------------------------------------------------------------------------
  // The paths of a search

  /** All candidates of the search are recorded. */
  ghost predicate RecordedSearch(c: Search, links: Precedences) {
    && JumpsUnlinked(c.g, links)
    && forall p, f :: IsCandidate(c, p, f) ==> RecordedFragment(links, f)
  }

  ghost predicate AllRecorded(links: Precedences, items: seq<Item>) {
    forall i :: 0 <= i < |items| ==> Recorded(links, items[i].path)
  }

  lemma InitialRecorded(c: Search, links: Precedences, p: PartialPath)
    requires c.g.AttachedScopesExist() && IsInitial(c, p)
    ensures Recorded(links, p)
  {
    InitialSummary(c.g, p.startNode, c.origin);
    NodeRecorded(links, p);
  }

  lemma StartRecorded(c: Search, links: Precedences, paths: seq<PartialPath>, detectSimilar: bool)
    requires c.g.AttachedScopesExist() && forall p :: p in paths ==> IsInitial(c, p)
    ensures AllRecorded(links, Start(paths, detectSimilar).pending)
  {
    hide IsInitial, Recorded;
    forall i | 0 <= i < |paths|
      ensures Recorded(links, InitialItems(paths)[i].path)
    {
      assert paths[i] in paths;
      InitialRecorded(c, links, paths[i]);
    }
  }

  lemma ExtensionRecorded(c: Search, links: Precedences, item: Item, f: Fragment, p: PartialPath)
    requires Sensible(c) && RecordedSearch(c, links) && Recorded(links, item.path) && f in c.forward(item.path)
    requires AppendFragment(c.g, item.path, f, c.depth) == Ok(p)
    ensures Recorded(links, p)
  {
    hide Recorded, AppendFragment, Describes;
    assert IsCandidate(c, item.path, f);
    var u :| Describes(c.g, f, u);
    DescribedStart(c.g, f, u);
    AppendedRecorded(c.g, links, item.path, f, c.depth);
  }

  lemma {:induction false} ExtensionsRecorded(c: Search, links: Precedences, item: Item, candidates: seq<Fragment>)
    requires Sensible(c) && RecordedSearch(c, links) && Recorded(links, item.path)
    requires forall f :: f in candidates ==> f in c.forward(item.path)
    ensures AllRecorded(links, Extensions(c, item, candidates))
  {
    hide Sensible, RecordedSearch, Recorded, AppendFragment;
    if candidates != [] {
      var k := |candidates| - 1;
      ExtensionsRecorded(c, links, item, candidates[..k]);
      var r := AppendFragment(c.g, item.path, candidates[k], c.depth);
      if r.Ok? {
        ExtensionRecorded(c, links, item, candidates[k], r.value);
      }
    }
  }

  lemma AddedRecorded(c: Search, links: Precedences, f: Fifo<Seen, Item>)
    requires Sensible(c) && RecordedSearch(c, links) && AllRecorded(links, f.pending)
    ensures AllRecorded(links, Added(RulesOf(c), f))
  {
    hide Sensible, RecordedSearch, Recorded, ExtendItem;
    var added := Added(RulesOf(c), f);
    forall i | 0 <= i < |added|
      ensures Recorded(links, added[i].path)
    {
      var next := ExtendedBy(c, f.state, f.pending[0], added[i]);
      ExtensionRecorded(c, links, f.pending[0], next, added[i].path);
    }
  }

  lemma NoneRecorded(links: Precedences)
    ensures AllRecorded(links, [])
  {
  }

  lemma RecordedConcat(links: Precedences, items: seq<Item>, more: seq<Item>)
    requires AllRecorded(links, items) && AllRecorded(links, more)
    ensures AllRecorded(links, items + more) && forall i :: 0 <= i <= |items| ==> AllRecorded(links, items[i..])
  {
    hide Recorded;
  }

  /** Over any run, every pending and every discovered path records a walk. */
  lemma {:induction false} RunRecorded(c: Search, links: Precedences, f: Fifo<Seen, Item>, n: nat)
    requires Sensible(c) && RecordedSearch(c, links) && AllRecorded(links, f.pending)
    ensures AllRecorded(links, Steps(RulesOf(c), f, n).pending)
    ensures AllRecorded(links, Discovered(RulesOf(c), f, n))
  {
    hide Sensible, RecordedSearch, AllRecorded, Added, RulesOf, StateAfter;
    NoneRecorded(links);
    if n > 0 {
      var before := Steps(RulesOf(c), f, n - 1);
      RunRecorded(c, links, f, n - 1);
      AddedRecorded(c, links, before);
      RecordedConcat(links, Discovered(RulesOf(c), f, n - 1), Added(RulesOf(c), before));
      RecordedConcat(links, before.pending, []);
      if before.pending != [] {
        RecordedConcat(links, before.pending[1..], Added(RulesOf(c), before));
      }
    }
  }
}
