/**
 A search for complete paths whose cycle check panics: the graph is that of `JumpingCycles`, with these links as
 its only edges.  It meets everything that the search requires, and a run of it comes to the path on which the
 detector fails.  So it never ends with success.
 */
module PanickingSearch {
  import opened Wrappers
  import opened Graphs
  import opened Patterns
  import opened Unification
  import opened PartialPaths
  import opened Exactness
  import opened Stitching
  import opened Cyclicity
  import opened CycleDetection
  import opened Worklists
  import opened Stitcher
  import opened SearchCoverage
  import opened SegmentSearch
  import opened PathFinding
  import opened JumpingCycles

  const LINKS := [
    Edge(2, 8, 0), Edge(8, 9, 0), Edge(9, 10, 0), Edge(10, 3, 0), Edge(3, 4, 0), Edge(4, 0, 0), Edge(5, 3, 0),
    Edge(3, 0, 0), Edge(6, 7, 0), Edge(7, 0, 0), Edge(5, 0, 0)]

  /** The links among the first `k` that leave the node. */
  function LinksFrom(n: NodeHandle, k: nat): seq<Fragment>
    requires k <= |LINKS|
  {
    if k == 0 then []
    else LinksFrom(n, k - 1) + if LINKS[k - 1].source == n then [EdgeFragment(LINKS[k - 1])] else []
  }

  lemma {:induction false} LinksAre(n: NodeHandle, k: nat, f: Fragment)
    requires k <= |LINKS|
    ensures f in LinksFrom(n, k) <==>
            exists i :: 0 <= i < k && LINKS[i].source == n && f == EdgeFragment(LINKS[i])
  {
    if k > 0 {
      LinksAre(n, k - 1, f);
    }
  }

  /** Many links lead to the node. */
  predicate ManyLeadTo(n: NodeHandle) {
    exists i, j :: 0 <= i < j < |LINKS| && LINKS[i].sink == LINKS[j].sink == n
  }

  function JumpingSearch(depth: nat): Search {
    Search(
      JUMPING,
      (p: PartialPath) => LinksFrom(p.endNode, |LINKS|),
      (n: NodeHandle) => ManyLeadTo(n),
      (p: PartialPath) => true,
      (n: NodeHandle) => JUMPING.Kind(n).IsReference(),
      Nowhere,
      true,
      depth)
  }

  lemma JumpingSensible(depth: nat)
    ensures Sensible(JumpingSearch(depth)) && SeeksCompletePaths(JumpingSearch(depth))
  {
    var c := JumpingSearch(depth);
    Lifted();
    forall p, f | IsCandidate(c, p, f)
      ensures Fits(c, p, f)
    {
      LinksAre(p.endNode, |LINKS|, f);
      var i :| 0 <= i < |LINKS| && LINKS[i].source == p.endNode && f == EdgeFragment(LINKS[i]);
      assert JUMPING.Kind(LINKS[i].source) != JumpTo;
      EdgeDescribed(JUMPING, f.edge);
    }
  }

  /** Many links lead to nodes 0 and 3 only. */
  lemma Joins(n: NodeHandle)
    ensures ManyLeadTo(n) <==> n == 0 || n == 3
  {
    assert LINKS[3].sink == LINKS[6].sink == 3 && LINKS[5].sink == LINKS[7].sink == 0;
    assert forall i :: 0 <= i < |LINKS| && LINKS[i].sink == 4 ==> i == 4;
    assert forall i :: 0 <= i < |LINKS| && LINKS[i].sink == 7 ==> i == 8;
    assert forall i :: 0 <= i < |LINKS| && LINKS[i].sink == 8 ==> i == 0;
    assert forall i :: 0 <= i < |LINKS| && LINKS[i].sink == 9 ==> i == 1;
    assert forall i :: 0 <= i < |LINKS| && LINKS[i].sink == 10 ==> i == 2;
    assert forall i :: 0 <= i < |LINKS| ==> LINKS[i].sink in {0, 3, 4, 7, 8, 9, 10};
  }

  // ---------------------------------------------------------------------------------------------
  // The paths on the way

  /** What the path looks like after each fragment. */
  function WayPaths(): (r: seq<PartialPath>)
    ensures |r| == 13
  {
    ApproachPaths()[..4] + PushingPaths()[..3] + PoppingPaths()
  }

  lemma WayRoute(depth: nat)
    ensures Route(STITCHED, WayPaths(), depth)
  {
    hide Leads;
    Approach(depth);
    Pushing(depth);
    Popping(depth);
    var onward := ApproachPaths()[..4] + PushingPaths();
    RouteJoined(APPROACH, ApproachPaths(), PUSHING, PushingPaths(), depth);
    assert onward[7] == PoppingPaths()[0];
    RouteJoined(APPROACH + PUSHING, onward, POPPING, PoppingPaths(), depth);
    assert WayPaths() == onward[..7] + PoppingPaths();
  }

  lemma WayStitched(p: PartialPath, k: nat, depth: nat)
    requires Is(Ok(p), ApproachPaths()[0]) && k <= |STITCHED|
    ensures Is(Stitch(JUMPING, p, STITCHED[..k], depth), WayPaths()[k])
  {
    hide Leads, Stitch;
    WayRoute(depth);
    var front, ps := STITCHED[..k], WayPaths()[..k + 1];
    assert Route(front, ps, depth);
    RouteStitched(p, front, ps, depth);
  }

  /** The node that the path has come to before each fragment, and the link that the fragment is. */
  const PASSED: seq<NodeHandle> := [2, 8, 9, 10, 3, 4, 5, 3, 6, 7, 5, 5]
  const TAKEN: seq<nat> := [0, 1, 2, 3, 4, 5, 6, 7, 8, 9, 10, 6]

  lemma WayPasses(k: nat)
    requires k < |STITCHED|
    ensures WayPaths()[k].endNode == PASSED[k] && WayPaths()[k].startNode == 2
    ensures !WayPaths()[k].HasPreconditionVariables()
  {
  }

  lemma WayTakes(k: nat)
    requires k < |STITCHED|
    ensures STITCHED[k] == EdgeFragment(LINKS[TAKEN[k]]) && LINKS[TAKEN[k]].source == PASSED[k]
  {
  }

  lemma WayLinks(k: nat)
    requires k < |STITCHED|
    ensures STITCHED[k] in LinksFrom(WayPaths()[k].endNode, |LINKS|)
    ensures !WayPaths()[k].HasPreconditionVariables() && WayPaths()[k].startNode == 2
    ensures WayPaths()[k].endNode in {0, 3} ==> (k == 4 || k == 7) && WayPaths()[k].endNode == 3
    ensures WayPaths()[k].endNode == 2 ==> k == 0
  {
    hide WayPaths;
    WayPasses(k);
    WayTakes(k);
    LinksAre(PASSED[k], |LINKS|, STITCHED[k]);
  }

  lemma {:induction false} WayChain(p: PartialPath, k: nat, depth: nat)
    requires Is(Ok(p), ApproachPaths()[0]) && k <= |STITCHED|
    ensures CandidateChain(JumpingSearch(depth), p, STITCHED[..k])
  {
    hide Stitch, WayPaths;
    if k > 0 {
      WayChain(p, k - 1, depth);
      assert STITCHED[..k][..k - 1] == STITCHED[..k - 1] && STITCHED[..k][k - 1] == STITCHED[k - 1];
      WayStitched(p, k - 1, depth);
      WayLinks(k - 1);
    }
  }

  /** The cycle check lets the path go on, up to the end. */
  lemma WayGoesOn(p: PartialPath, k: nat, depth: nat)
    requires ReferencePath(JUMPING, 2) == Ok(p) && Is(Ok(p), ApproachPaths()[0]) && k < |STITCHED|
    ensures Stitch(JUMPING, p, STITCHED[..k], depth).Ok?
    ensures GoesOn(JumpingSearch(depth), [PathFragment(p)] + STITCHED[..k],
                   Stitch(JUMPING, p, STITCHED[..k], depth).value)
  {
    hide Stitch, WayPaths, Detected, ManyLeadTo;
    WayStitched(p, k, depth);
    WayLinks(k);
    Joins(WayPaths()[k].endNode);
    DetectorLetsPass(p, depth);
    Lifted();
    InitialNotCyclic(JUMPING, 2, Nowhere, depth);
    var none: seq<Fragment> := [];
    assert STITCHED[..0] == none && [PathFragment(p)] + none == [PathFragment(p)];
  }

  // ---------------------------------------------------------------------------------------------
  // The run

  ghost function JumpingStart(): Fifo<Seen, Item> {
    Start(ReferenceStarts(JUMPING, [2]), false)
  }

  lemma StartsAtReference()
    ensures ReferencePath(JUMPING, 2).Ok?
    ensures ReferenceStarts(JUMPING, [2]) == [ReferencePath(JUMPING, 2).value]
  {
    Lifted();
    assert [2][..0] == [] && ReferenceStarts(JUMPING, []) == [];
  }

  /** At some step, the search panics. */
  lemma SearchPanics(depth: nat) returns (k: nat)
    requires depth > 0
    ensures PanicsAt(JumpingSearch(depth), JumpingStart(), k)
  {
    hide Stitch, Detected, RulesOf, TakenUp, CandidateChain, GoesOn, ReferencePath, ManyLeadTo;
    var c, f := JumpingSearch(depth), JumpingStart();
    Lifted();
    StartsAtReference();
    var p := ReferencePath(JUMPING, 2).value;
    assert STITCHED[..|STITCHED|] == STITCHED;
    WayChain(p, |STITCHED|, depth);
    forall m | 0 <= m < |STITCHED|
      ensures Stitch(JUMPING, p, STITCHED[..m], depth).Ok?
      ensures GoesOn(c, [PathFragment(p)] + STITCHED[..m], Stitch(JUMPING, p, STITCHED[..m], depth).value)
    {
      WayGoesOn(p, m, depth);
    }
    DetectorFails(depth);
    FirstComes(c, f, p);
    StitchComes(c, f, p, STITCHED);
    var q := Stitch(JUMPING, p, STITCHED, depth).value;
    k :| TakenUp(c, f, k, [PathFragment(p)] + STITCHED, q);
    Joins(3);
    FailsWhenTakenUp(c, f, k, [PathFragment(p)] + STITCHED, q);
  }

  lemma FirstComes(c: Search, f: Fifo<Seen, Item>, p: PartialPath)
    requires f.pending != [] && f.pending[0] == Item(p, [PathFragment(p)], false)
    ensures Comes(c, f, [PathFragment(p)], p)
  {
    assert TakenUp(c, f, 0, [PathFragment(p)], p);
  }

  lemma FailsWhenTakenUp(c: Search, f: Fifo<Seen, Item>, k: nat, fragments: seq<Fragment>, q: PartialPath)
    requires TakenUp(c, f, k, fragments, q) && c.extendWhile(q)
    requires c.isJoin(q.endNode) && Detected(c.g, fragments, c.depth).Err?
    ensures PanicsAt(c, f, k)
  {
  }

  /** So the search for complete paths does not succeed, however many phases it is given. */
  lemma SearchNeverSucceeds(depth: nat, n: nat)
    requires depth > 0
    ensures !(WholeRun(JumpingSearch(depth), JumpingStart(), n) &&
              NeverPanicsIn(JumpingSearch(depth), JumpingStart(), n))
  {
    hide Worklists.Step, CheckFails, AllStitched;
    var c, f := JumpingSearch(depth), JumpingStart();
    var k := SearchPanics(depth);
    if WholeRun(c, f, n) && n <= k {
      StaysComplete(RulesOf(c), f, n, k);
    }
  }
}
