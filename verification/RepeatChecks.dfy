/**
 Which repeats of a node the cycle check looks at, if it looks at joins only.  The first time that a path comes back
 to a node, it is looked at: the node is the path's start, or two different candidates have led to it.  That takes
 both visits to be made by candidates; a jump into the node is counted by nobody.
 */
module RepeatChecks {
  import opened Wrappers
  import opened Graphs
  import opened Unification
  import opened PartialPaths
  import opened Exactness
  import opened Settling
  import opened Stitching
  import opened CycleDetection
  import opened ChosenBlocks
  import opened ChosenCycles
  import opened SupplementalArenas
  import opened Worklists
  import opened Stitcher
  import opened SearchCoverage
  import opened DatabaseSearch
  import opened JoinNodes
  import opened CycleCheck
  import Index = RootIndex

  /** Two different candidates lead to the node. */
  ghost predicate ManyLead(c: Search, n: NodeHandle) {
    exists p, f, q, h :: IsCandidate(c, p, f) && IsCandidate(c, q, h) && f != h && f.EndNode() == n && h.EndNode() == n
  }

  ghost predicate JoinsKnown(c: Search) {
    forall n :: ManyLead(c, n) ==> c.isJoin(n)
  }

  /** The nodes that the path has come to after each of its fragments. */
  function Stations(item: Item): (r: seq<NodeHandle>)
    ensures |r| == |item.fragments|
  {
    seq(|item.fragments|, j requires 0 <= j < |item.fragments| =>
      if j + 1 < |item.fragments| then item.fragments[j + 1].StartNode() else item.path.endNode)
  }

  /** The `j`th fragment has led to its station by itself, without a jump. */
  predicate LedTo(item: Item, j: nat) {
    j < |item.fragments| && item.fragments[j].EndNode() == Stations(item)[j]
  }

  lemma StationStarts(item: Item, j: nat)
    requires 0 < j < |item.fragments|
    ensures Stations(item)[j - 1] == item.fragments[j].StartNode()
  {
  }

  lemma LaterIsCandidate(c: Search, item: Item, j: nat) returns (q: PartialPath)
    requires Tracked(c, item) && 0 < j < |item.fragments|
    ensures IsCandidate(c, q, item.fragments[j])
  {
    hide Appended, Arrived, Stitch, CandidateChain;
    var us :| TracksWalks(c, item, us);
    assert item.fragments[1..][j - 1] == item.fragments[j];
    q := ChainOfLookups(c, item.fragments[0].path, item.fragments[1..], item.fragments[j]);
  }

  lemma ItemStarts(c: Search, item: Item, us: seq<Walk>)
    requires c.g.AttachedScopesExist() && TracksWalks(c, item, us)
    ensures Travelled(c.g, item.fragments, us, c.origin) && us != [] && us[0] == [us[0][0]]
    ensures item.path.startNode == us[0][0] && item.path.endNode == Last(Journey(c.g, [us[0][0]], us, c.origin))
  {
    hide Summary, Passable, Stitched, CandidateChain, Describes, Consecutive, Journey, Settle, InitialPath;
    SummaryOf(c.g, item.path, Journey(c.g, [us[0][0]], us, c.origin), c.origin);
  }

  /** The first station is the start node. */
  lemma FirstStation(c: Search, item: Item)
    requires c.g.AttachedScopesExist() && Tracked(c, item)
    ensures item.fragments != [] && Stations(item)[0] == item.path.startNode
  {
    hide TracksWalks, Way, Consecutive, Settle, Travelled;
    var us :| TracksWalks(c, item, us);
    ItemStarts(c, item, us);
    TravelledAt(c.g, item.fragments, us, c.origin);
    WayOfFirst(c.g, us, c.origin);
    if |us| > 1 {
      StationStarts(item, 1);
      WayStep(c.g, us, c.origin, 1);
    } else {
      WayOfAll(c.g, us, c.origin);
    }
  }

  lemma WayOfFirst(g: Graph, us: seq<Walk>, o: Origin)
    requires us != [] && Consecutive(g, [us[0][0]], us, o) && us[0] == [us[0][0]] && !g.Kind(us[0][0]).JumpTo?
    ensures Way(g, us, o, 1) == [us[0][0]]
  {
    var none: seq<Walk> := [];
    WayStep(g, us, o, 0);
    assert us[..0] == none && Splice([us[0][0]], us[0]) == [us[0][0]];
  }

  lemma LastStation(item: Item)
    requires item.fragments != []
    ensures Stations(item)[|item.fragments| - 1] == item.path.endNode
  {
  }

  /** The first repeat on a path is checked, if both visits of the node are made by candidates. */
  lemma FirstRepeatChecked(c: Search, item: Item, i: nat)
    requires Sensible(c) && JoinsKnown(c) && Tracked(c, item)
    requires item.fragments != [] && FirstRepeat(Stations(item), i, |item.fragments| - 1)
    requires i > 0 ==> LedTo(item, i) && LedTo(item, |item.fragments| - 1)
    ensures item.path.startNode == item.path.endNode || c.isJoin(item.path.endNode)
    ensures ChecksCycles(c, item.path)
  {
    hide Tracked, Stations, IsCandidate;
    FirstStation(c, item);
    var nodes, m := Stations(item), |item.fragments| - 1;
    if i > 0 {
      StationStarts(item, i);
      StationStarts(item, m);
      assert item.fragments[i] != item.fragments[m];
      var p := LaterIsCandidate(c, item, i);
      var q := LaterIsCandidate(c, item, m);
      assert ManyLead(c, nodes[m]);
    }
    LastStation(item);
  }

  /** So a first repeat that is not looked at has been made by a jump, the first time or the second. */
  lemma UncheckedByJump(c: Search, item: Item, i: nat)
    requires Sensible(c) && JoinsKnown(c) && Tracked(c, item) && !ChecksCycles(c, item.path)
    requires item.fragments != [] && FirstRepeat(Stations(item), i, |item.fragments| - 1)
    ensures i > 0
    ensures c.g.Kind(item.fragments[i].EndNode()).JumpTo? ||
            c.g.Kind(item.fragments[|item.fragments| - 1].EndNode()).JumpTo?
  {
    hide Sensible, Tracked, ChecksCycles;
    if i == 0 {
      FirstRepeatChecked(c, item, i);
    } else if LedTo(item, i) && LedTo(item, |item.fragments| - 1) {
      FirstRepeatChecked(c, item, i);
    } else {
      var j := if LedTo(item, i) then |item.fragments| - 1 else i;
      NotLedTo(c, item, j);
    }
  }

  lemma NotLedTo(c: Search, item: Item, j: nat)
    requires Sensible(c) && Tracked(c, item) && j < |item.fragments| && !LedTo(item, j)
    ensures c.g.Kind(item.fragments[j].EndNode()).JumpTo?
  {
    hide TracksWalks, Way, Consecutive, Travelled, Decided;
    var us :| TracksWalks(c, item, us);
    ItemStarts(c, item, us);
    TravelledAt(c.g, item.fragments, us, c.origin);
    WayStep(c.g, us, c.origin, j);
    if j + 1 < |us| {
      StationStarts(item, j + 1);
      WayStep(c.g, us, c.origin, j + 1);
    } else {
      WayOfAll(c.g, us, c.origin);
    }
  }

  // ---------------------------------------------------------------------------------------------
  // The searches of a database

  /** A database counts the paths that end at a node, so its joins are known. */
  lemma StoreJoinsKnown(store: Store)
    requires store.Valid()
    ensures JoinsKnown(SearchIn(store))
  {
    hide FragmentsAt, Index.Candidates, Index.Continues;
    var c := SearchIn(store);
    forall n | ManyLead(c, n)
      ensures c.isJoin(n)
    {
      var p, f, q, h :| IsCandidate(c, p, f) && IsCandidate(c, q, h) && f != h && f.EndNode() == n && h.EndNode() == n;
      CandidatesAre(store, p, f);
      CandidatesAre(store, q, h);
      var a :| 0 <= a < |store.paths| && store.paths[a] == f.path;
      var b :| 0 <= b < |store.paths| && store.paths[b] == h.path;
      if a < b {
        TwoPathsEnd(store.paths, a, b, n);
      } else {
        TwoPathsEnd(store.paths, b, a, n);
      }
    }
  }
}
