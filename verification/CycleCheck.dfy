/**
 The cycle check of a search, in terms of journeys alone: which paths it stops, and that the cycles it lets pass run
 out.  A path from any stacks is stopped exactly if it ends in a cycle that can be gone round once more; a path from
 empty stacks exactly if that takes nothing off the stacks.
 */
module CycleCheck {
  import opened Wrappers
  import opened Graphs
  import opened Patterns
  import opened Unification
  import opened PartialPaths
  import opened Exactness
  import opened AppendExactness
  import opened Settling
  import opened Stitching
  import opened Cyclicity
  import opened CycleDetection
  import opened LinearComposition
  import opened ChosenBlocks
  import opened ChosenCycles
  import opened RunningOut
  import opened SimilarPaths
  import opened Worklists
  import opened Stitcher
  import opened SearchCoverage
  import opened Shadowing
  import opened RecordedPaths
  import opened MinimalPathSet
  import opened SegmentSearch

  // ---------------------------------------------------------------------------------------------
  // Which journeys are stopped

  /** The `i`th part of the journey starts where the last one ends, and there are edges in between. */
  predicate LeadsBack(fragments: seq<Fragment>, us: seq<Walk>, i: nat) {
    |fragments| == |us| && i < |us| && us[i][0] == Last(us[|us| - 1]) && EdgeCounts(fragments[i..]) > 0
  }

  /** From there on, the journey is a cycle, and some stacks can go round it twice. */
  ghost predicate GoesRound(g: Graph, fragments: seq<Fragment>, us: seq<Walk>, o: Origin, i: nat)
    requires us != [] && Consecutive(g, [us[0][0]], us, o)
  {
    LeadsBack(fragments, us, i) &&
    var w := Stretch(g, us, o, i, |us|);
    w[0] == Last(w) && Feasible(g, Splice(w, w), Anywhere)
  }

  /** ... and going round takes neither symbols nor scopes off. */
  ghost predicate GoesOnForever(g: Graph, fragments: seq<Fragment>, us: seq<Walk>, o: Origin, i: nat)
    requires us != [] && Consecutive(g, [us[0][0]], us, o)
  {
    GoesRound(g, fragments, us, o, i) &&
    var w := Stretch(g, us, o, i, |us|);
    !Shrinks(g, w) && !TakesScopes(g, w)
  }

  /** What journeys the cycle check stops. */
  ghost predicate Stops(g: Graph, fragments: seq<Fragment>, us: seq<Walk>, o: Origin)
    requires us != [] && Consecutive(g, [us[0][0]], us, o)
  {
    if o == Anywhere then exists i: nat :: GoesRound(g, fragments, us, o, i)
    else exists i: nat :: i > 0 && GoesOnForever(g, fragments, us, o, i)
  }

  /** Choices are free, cycles lose no variable, jumps are recorded, and there is room on the call stack. */
  ghost predicate CyclesInOrder(g: Graph, fragments: seq<Fragment>, depth: nat) {
    CyclesSound(g, fragments, depth) && JumpsRecorded(g, fragments) && depth > 0
  }

  lemma RestKind(g: Graph, fragments: seq<Fragment>, us: seq<Walk>, o: Origin, i: nat)
    requires Travelled(g, fragments, us, o) && i < |us| && OriginAt(o, i) == Anywhere
    ensures |fragments| == |us| && Consecutive(g, [us[0][0]], us, o)
    ensures var kind := KindOfRest(g, fragments, us, o, i);
            && (kind.Some? <==> GoesRound(g, fragments, us, o, i))
            && (kind == Some(StrengthensPostcondition) <==> GoesOnForever(g, fragments, us, o, i))
            && kind != Some(Free)
  {
    hide Travelled, Consecutive, Stretch, Shrinks, TakesScopes, Feasible, EdgeCounts;
    TravelledAt(g, fragments, us, o);
  }

  lemma FirstKind(g: Graph, fragments: seq<Fragment>, us: seq<Walk>)
    requires Travelled(g, fragments, us, Nowhere)
    ensures |fragments| == |us| > 0 && Consecutive(g, [us[0][0]], us, Nowhere)
    ensures var kind := KindOfRest(g, fragments, us, Nowhere, 0);
            && (kind.None? || kind == Some(Free))
            && (kind == Some(Free) ==> |us| > 1 && GoesOnForever(g, fragments, us, Nowhere, 1))
  {
    hide Travelled, Consecutive, Stretch, Shrinks, TakesScopes, Feasible, EdgeCounts, KindFromEmptyStacks;
    TravelledAt(g, fragments, us, Nowhere);
    var kind := KindOfRest(g, fragments, us, Nowhere, 0);
    assert kind == None || kind == Some(Free) by { KindsFromEmptyStacks(g, Stretch(g, us, Nowhere, 0, |us|)); }
    if kind == Some(Free) {
      FirstIsSecond(g, fragments, us);
      var w := Stretch(g, us, Nowhere, 1, |us|);
      StartPushes(g, fragments, us);
      BackWhereItStarted(g, w);
    }
  }

  lemma KindsFromEmptyStacks(g: Graph, w: Walk)
    ensures KindFromEmptyStacks(g, w) == None || KindFromEmptyStacks(g, w) == Some(Free)
  {
  }

  /** The path of the first node adds nothing to the journey. */
  lemma FirstIsSecond(g: Graph, fragments: seq<Fragment>, us: seq<Walk>)
    requires Travelled(g, fragments, us, Nowhere)
    requires |fragments| == |us| && Consecutive(g, [us[0][0]], us, Nowhere) && EdgeCounts(fragments[0..]) > 0
    ensures |us| > 1 && us[1][0] == us[0][0] && EdgeCounts(fragments[1..]) == EdgeCounts(fragments[0..])
    ensures Stretch(g, us, Nowhere, 1, |us|) == Stretch(g, us, Nowhere, 0, |us|)
  {
    hide Passable, Stitch, Settle, EdgeCounts;
    var n := us[0][0];
    InitialSummary(g, n, Nowhere);
    InitialHasNoEdges(g, n);
    EdgeCountsCons(fragments);
    assert fragments[0..] == fragments;
    if |us| == 1 {
      assert fragments[1..] == [];
      NoEdges();
    }
    var none: seq<Walk> := [];
    assert us[..1][..0] == none && us[..0] == none && us[..1] == [us[0]];
    WayStep(g, us, Nowhere, 0);
    WayStep(g, us, Nowhere, 1);
    assert Way(g, us, Nowhere, 0) == [n] && Splice([n], us[0]) == [n];
    assert Way(g, us, Nowhere, 1) == [n];
  }

  lemma NoEdges()
    ensures EdgeCounts([]) == 0
  {
  }

  lemma InitialHasNoEdges(g: Graph, n: NodeHandle)
    requires g.AttachedScopesExist() && MayStart(g, n, Nowhere)
    ensures InitialPath(g, n, Nowhere).Ok? && InitialPath(g, n, Nowhere).value.edges == []
  {
    InitialSummary(g, n, Nowhere);
    FromNodeSummary(g, n);
  }

  lemma KindReported(g: Graph, fragments: seq<Fragment>, us: seq<Walk>, o: Origin, i: nat, kind: Cyclicity)
    requires |fragments| == |us| > 0 && Consecutive(g, [us[0][0]], us, o)
    requires i < |us| && KindOfRest(g, fragments, us, o, i) == Some(kind)
    ensures kind in KindsFrom(g, fragments, us, o, 0)
  {
    hide KindOfRest, Consecutive;
  }

  lemma ReportedKind(g: Graph, fragments: seq<Fragment>, us: seq<Walk>, o: Origin, kind: Cyclicity) returns (i: nat)
    requires |fragments| == |us| > 0 && Consecutive(g, [us[0][0]], us, o)
    requires kind in KindsFrom(g, fragments, us, o, 0)
    ensures i < |us| && KindOfRest(g, fragments, us, o, i) == Some(kind)
  {
    hide KindOfRest, Consecutive;
    i :| 0 <= i < |us| && KindOfRest(g, fragments, us, o, i) == Some(kind);
  }

  lemma ForbiddenOpen(g: Graph, p: PartialPath, fragments: seq<Fragment>, us: seq<Walk>)
    requires Travelled(g, fragments, us, Anywhere) && Open(p)
    ensures |fragments| == |us| > 0 && Consecutive(g, [us[0][0]], us, Anywhere)
    ensures Forbidden(p, KindsFrom(g, fragments, us, Anywhere, 0)) <==> Stops(g, fragments, us, Anywhere)
  {
    hide Travelled, Consecutive, KindOfRest, GoesRound, KindsFrom;
    TravelledAt(g, fragments, us, Anywhere);
    var kinds := KindsFrom(g, fragments, us, Anywhere, 0);
    if kind :| kind in kinds {
      var i := ReportedKind(g, fragments, us, Anywhere, kind);
      RestKind(g, fragments, us, Anywhere, i);
    }
    if i: nat :| GoesRound(g, fragments, us, Anywhere, i) {
      RoundsInside(g, fragments, us, Anywhere, i);
      RestKind(g, fragments, us, Anywhere, i);
      KindReported(g, fragments, us, Anywhere, i, KindOfRest(g, fragments, us, Anywhere, i).value);
    }
  }

  lemma RoundsInside(g: Graph, fragments: seq<Fragment>, us: seq<Walk>, o: Origin, i: nat)
    requires us != [] && Consecutive(g, [us[0][0]], us, o) && GoesRound(g, fragments, us, o, i)
    ensures i < |us|
  {
  }

  lemma ForeverInside(g: Graph, fragments: seq<Fragment>, us: seq<Walk>, o: Origin, i: nat)
    requires us != [] && Consecutive(g, [us[0][0]], us, o) && GoesOnForever(g, fragments, us, o, i)
    ensures i < |us|
  {
  }

  lemma WorseKindStops(g: Graph, fragments: seq<Fragment>, us: seq<Walk>, kind: Cyclicity) returns (k: nat)
    requires Travelled(g, fragments, us, Nowhere) && kind != StrengthensPrecondition
    requires |fragments| == |us| > 0 && Consecutive(g, [us[0][0]], us, Nowhere)
    requires kind in KindsFrom(g, fragments, us, Nowhere, 0)
    ensures k > 0 && GoesOnForever(g, fragments, us, Nowhere, k)
  {
    hide Travelled, Consecutive, KindOfRest, GoesOnForever, KindsFrom;
    k := ReportedKind(g, fragments, us, Nowhere, kind);
    if k == 0 {
      FirstKind(g, fragments, us);
      k := 1;
    } else {
      RestKind(g, fragments, us, Nowhere, k);
    }
  }

  lemma ForeverReported(g: Graph, fragments: seq<Fragment>, us: seq<Walk>, i: nat)
    requires Travelled(g, fragments, us, Nowhere)
    requires |fragments| == |us| > 0 && Consecutive(g, [us[0][0]], us, Nowhere)
    requires i > 0 && GoesOnForever(g, fragments, us, Nowhere, i)
    ensures StrengthensPostcondition in KindsFrom(g, fragments, us, Nowhere, 0)
  {
    hide Travelled, Consecutive, KindOfRest, GoesOnForever, KindsFrom;
    ForeverInside(g, fragments, us, Nowhere, i);
    RestKind(g, fragments, us, Nowhere, i);
    KindReported(g, fragments, us, Nowhere, i, StrengthensPostcondition);
  }

  lemma ForbiddenClosed(g: Graph, p: PartialPath, fragments: seq<Fragment>, us: seq<Walk>)
    requires Travelled(g, fragments, us, Nowhere) && FromEmptyStacks(p)
    ensures |fragments| == |us| > 0 && Consecutive(g, [us[0][0]], us, Nowhere)
    ensures Forbidden(p, KindsFrom(g, fragments, us, Nowhere, 0)) <==> Stops(g, fragments, us, Nowhere)
  {
    hide Travelled, Consecutive, GoesOnForever, KindsFrom;
    TravelledAt(g, fragments, us, Nowhere);
    var kinds := KindsFrom(g, fragments, us, Nowhere, 0);
    assert Forbidden(p, kinds) <==> kinds - {StrengthensPrecondition} != {};
    if kind :| kind in kinds - {StrengthensPrecondition} {
      var k := WorseKindStops(g, fragments, us, kind);
    }
    if i: nat :| i > 0 && GoesOnForever(g, fragments, us, Nowhere, i) {
      ForeverReported(g, fragments, us, i);
      assert StrengthensPostcondition in kinds - {StrengthensPrecondition};
    }
  }

  /**
   What extending a path does.  If its end node is one that is checked, and its journey is one to stop, then nothing,
   and no candidates are looked up.  Otherwise all candidates are tried.
   */
  lemma CycleCheckStops(c: Search, seen: Seen, item: Item, us: seq<Walk>)
    requires c.g.AttachedScopesExist() && TracksWalks(c, item, us) && CyclesInOrder(c.g, item.fragments, c.depth)
    ensures us != [] && Consecutive(c.g, [us[0][0]], us, c.origin)
    ensures ExtendItem(c, seen, item) ==
            if (c.onlyJoins ==> item.path.startNode == item.path.endNode || c.isJoin(item.path.endNode)) &&
               Stops(c.g, item.fragments, us, c.origin)
            then Extended(seen, [], 0)
            else Continued(c, seen, item)
  {
    hide Stops, CyclesSound, JumpsRecorded, Continued, Forbidden, KindsFrom, Detected, Summary, Passable, Journey,
      Consecutive, Appended, Open, FromEmptyStacks, CandidateChain, Stitched;
    assert Travelled(c.g, item.fragments, us, c.origin);
    DetectorThroughJumps(c.g, item.fragments, us, c.origin, c.depth);
    if c.origin == Anywhere {
      ForbiddenOpen(c.g, item.path, item.fragments, us);
    } else {
      ForbiddenClosed(c.g, item.path, item.fragments, us);
    }
  }

  /** The candidate, appended to the item's path, gives this path and these fragments. */
  predicate Tried(c: Search, item: Item, f: Fragment, j: Item) {
    && f in c.forward(item.path) && AppendFragment(c.g, item.path, f, c.depth) == Ok(j.path)
    && j.fragments == item.fragments + [f]
  }

  predicate SamePath(i: Item, j: Item) {
    i.path == j.path && i.fragments == j.fragments
  }

  lemma AllKept(c: Search, item: Item) returns (hasSplit: bool)
    ensures Continued(c, None, item).items == WithSplit(Extensions(c, item, c.forward(item.path)), hasSplit)
  {
    hide Extensions, WithSplit;
    var extensions := Extensions(c, item, c.forward(item.path));
    hasSplit := item.hasSplit || |extensions| > 1;
    KeepsAll(c, WithSplit(extensions, hasSplit));
  }

  lemma SplitSame(items: seq<Item>, hasSplit: bool, m: nat)
    requires m < |items|
    ensures SamePath(WithSplit(items, hasSplit)[m], items[m])
  {
  }

  lemma FoundIsTried(c: Search, item: Item, i: Item) returns (f: Fragment)
    requires i in Continued(c, None, item).items
    ensures Tried(c, item, f, i)
  {
    hide Extensions, AppendFragment, Continued, WithSplit;
    var hasSplit := AllKept(c, item);
    var extensions := Extensions(c, item, c.forward(item.path));
    var m :| 0 <= m < |extensions| && WithSplit(extensions, hasSplit)[m] == i;
    SplitSame(extensions, hasSplit, m);
    f := ExtensionOf(c, item, c.forward(item.path), extensions[m]);
  }

  lemma TriedIsFound(c: Search, item: Item, f: Fragment, j: Item) returns (i: Item)
    requires Tried(c, item, f, j)
    ensures i in Continued(c, None, item).items && SamePath(i, j)
  {
    hide Extensions, AppendFragment, Continued, WithSplit;
    var hasSplit := AllKept(c, item);
    var extensions := Extensions(c, item, c.forward(item.path));
    var m := ExtensionWith(c, item, c.forward(item.path), f, j.path);
    SplitSame(extensions, hasSplit, m);
    i := WithSplit(extensions, hasSplit)[m];
  }

  /** Then all that candidates lead to is found, and nothing else, if no similar paths are looked for. */
  lemma AllCandidatesTried(c: Search, item: Item, j: Item)
    ensures Continued(c, None, item).performed == |c.forward(item.path)|
    ensures (exists i :: i in Continued(c, None, item).items && SamePath(i, j)) <==>
            (exists f :: Tried(c, item, f, j))
  {
    hide Extensions, AppendFragment, KeepItems;
    if i :| i in Continued(c, None, item).items && SamePath(i, j) {
      var f := FoundIsTried(c, item, i);
      assert Tried(c, item, f, j);
    }
    if f :| Tried(c, item, f, j) {
      var i := TriedIsFound(c, item, f, j);
    }
  }

  // ---------------------------------------------------------------------------------------------
  // What is let pass runs out

  /** The detector has summarised the journey from its `i`th part on. */
  lemma {:induction false} RestSummarised(g: Graph, fragments: seq<Fragment>, us: seq<Walk>, o: Origin, k: nat,
                                          cycle: Option<PartialPath>, i: nat, depth: nat) returns (p: PartialPath)
    requires Travelled(g, fragments, us, o) && i < k <= |us| == |fragments| && Consecutive(g, [us[0][0]], us, o)
    requires us[i][0] == fragments[|fragments| - 1].EndNode() && (k < |us| ==> us[k][0] == us[i][0])
    requires CycleAt(g, fragments, us, o, k, cycle) && depth > 0 && (i > 0 || o == Anywhere)
    requires RoundsSound(g, us[i][0], fragments[..k], cycle, depth)
    ensures CycleAt(g, fragments, us, o, i, Some(p))
    decreases k
  {
    hide Travelled, Consecutive, CycleAt, LongerCycle, AllFree, Closing;
    TravelledAt(g, fragments, us, o);
    var end := us[i][0];
    assert fragments[..k][i].StartNode() == end;
    var m := LastStart(fragments[..k], end).value;
    assert fragments[..k][m..] == fragments[m..k] && fragments[..k][..m] == fragments[..m];
    ChosenRound(g, fragments, us, o, m, k, cycle, end, depth);
    p := LongerCycle(g, end, fragments[m..k], cycle, depth).value;
    if m > i {
      p := RestSummarised(g, fragments, us, o, m, Some(p), i, depth);
    }
  }

  lemma RestCycle(g: Graph, fragments: seq<Fragment>, us: seq<Walk>, o: Origin, i: nat, depth: nat)
    returns (p: PartialPath)
    requires Travelled(g, fragments, us, o) && CyclesSound(g, fragments, depth) && depth > 0
    requires |fragments| == |us| > 0 && Consecutive(g, [us[0][0]], us, o)
    requires OriginAt(o, i) == Anywhere && GoesRound(g, fragments, us, o, i)
    ensures ChosenCycle(g, p, Stretch(g, us, o, i, |us|))
  {
    hide Travelled, Consecutive, RoundsSound, Summary, Chosen, Stretch, Feasible;
    TravelledAt(g, fragments, us, o);
    assert fragments[..|us|] == fragments;
    p := RestSummarised(g, fragments, us, o, |us|, None, i, depth);
  }

  /**
   If a path of a search from empty stacks is not stopped, then whatever cycle it ends in runs out: from any stacks,
   it can be gone round no more often than there are symbols and scopes on them, and once more.
   */
  lemma LetPassRunsOut(c: Search, item: Item, us: seq<Walk>, i: nat, k: nat, s: Stacks)
    requires c.g.AttachedScopesExist() && TracksWalks(c, item, us) && CyclesInOrder(c.g, item.fragments, c.depth)
    requires c.origin == Nowhere && us != [] && Consecutive(c.g, [us[0][0]], us, Nowhere)
    requires !Stops(c.g, item.fragments, us, Nowhere) && i > 0 && GoesRound(c.g, item.fragments, us, Nowhere, i)
    requires k > 0 && Run(c.g, Laps(Stretch(c.g, us, Nowhere, i, |us|), k), s).Some?
    ensures k <= |s.symbols| + |s.scopes| + 1
  {
    hide CyclesSound, JumpsRecorded, Summary, Passable, Journey, Consecutive, Appended, CandidateChain, Stitched,
      Stretch, Shrinks, TakesScopes, Feasible;
    assert Travelled(c.g, item.fragments, us, Nowhere);
    TravelledAt(c.g, item.fragments, us, Nowhere);
    var p := RestCycle(c.g, item.fragments, us, Nowhere, i, c.depth);
    var w := Stretch(c.g, us, Nowhere, i, |us|);
    assert !GoesOnForever(c.g, item.fragments, us, Nowhere, i);
    RunsOut(c.g, p, w, c.depth, k, s);
  }

  // ---------------------------------------------------------------------------------------------
  // The searches

  /** In the search of a file, all cycles are in order. */
  lemma FileCyclesInOrder(file: File, item: Item)
    requires file.Valid() && Tracked(SearchOf(file), item) && file.depth > 0
    ensures CyclesInOrder(file.g, item.fragments, file.depth)
  {
    hide Journey, Consecutive, Summary, Passable, CyclesAvoidJumps, CyclesSound, Appended, CandidateChain, Stitched,
      Uninterrupted, NodePath;
    ItemAvoidsJumps(file, item);
    var us :| TracksWalks(SearchOf(file), item, us);
    assert Travelled(file.g, item.fragments, us, Anywhere);
    AvoidingIsSound(file.g, item.fragments, us, Anywhere, file.depth);
    TrackedOnTrack(file, item);
    var n, edges :| Follows(file, item, n, edges);
    EdgesRecorded(file, n, edges);
  }

  lemma EdgesRecorded(file: File, n: NodeHandle, edges: seq<Edge>)
    requires file.Valid() && Uninterrupted(file, n, edges)
    ensures JumpsRecorded(file.g, FragmentsOf(file.g, n, edges))
  {
    hide NodePath;
    NodePathOf(file.g, n);
    StartsAtEndpoint(file, n, edges);
  }

  lemma {:induction false} ChainOfLookups(c: Search, p: PartialPath, fragments: seq<Fragment>, f: Fragment)
    returns (q: PartialPath)
    requires CandidateChain(c, p, fragments) && f in fragments
    ensures IsCandidate(c, q, f)
  {
    hide Stitch;
    var front := fragments[..|fragments| - 1];
    if f in front {
      q := ChainOfLookups(c, p, front, f);
    } else {
      q := Stitch(c.g, p, front, c.depth).value;
    }
  }

  lemma JumpRecorded(c: Search, links: Precedences, q: PartialPath, f: Fragment)
    requires Sensible(c) && RecordedSearch(c, links) && IsCandidate(c, q, f) && c.g.Kind(f.EndNode()).JumpTo?
    ensures EdgeCount(f) > 0
  {
    hide Summary, Open;
    assert Fits(c, q, f);
    var u :| Describes(c.g, f, u);
    DescribedStart(c.g, f, u);
  }

  /** In any search whose candidates record walks, a fragment that comes to a jump has recorded how. */
  lemma SearchRecordsJumps(c: Search, links: Precedences, item: Item)
    requires Sensible(c) && RecordedSearch(c, links) && Tracked(c, item)
    ensures JumpsRecorded(c.g, item.fragments)
  {
    hide Journey, Consecutive, Summary, Passable, RecordedSearch, Stitched, Describes, CandidateChain;
    var us :| TracksWalks(c, item, us);
    InitialSummary(c.g, us[0][0], c.origin);
    forall f | f in item.fragments && c.g.Kind(f.EndNode()).JumpTo?
      ensures EdgeCount(f) > 0
    {
      if f != item.fragments[0] {
        assert item.fragments == [item.fragments[0]] + item.fragments[1..];
        var q := ChainOfLookups(c, item.fragments[0].path, item.fragments[1..], f);
        JumpRecorded(c, links, q, f);
      }
    }
  }
}
