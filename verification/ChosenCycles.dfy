/**
 The cycle detector where cycles pass jumps.  What kind of cycle `is_cyclic` reports, what the detector reports,
 and that it does not fail, as long as every choice is free and every cycle that it rebuilds is closing.
 */
module ChosenCycles {
  import opened Wrappers
  import opened Graphs
  import opened Patterns
  import opened Unification
  import opened CanonicalUnification
  import opened CanonicalJoin
  import opened LinearUnification
  import opened PartialPaths
  import opened Exactness
  import opened AppendExactness
  import opened Renaming
  import opened Composition
  import opened LinearComposition
  import opened Settling
  import opened Stitching
  import opened Cyclicity
  import opened CycleDetection
  import opened ChosenJumps
  import opened ChosenBlocks

  // ---------------------------------------------------------------------------------------------
  // The kind of a cycle

  /** Going round takes more symbols off the stack than it puts there. */
  ghost predicate Shrinks(g: Graph, w: Walk) {
    exists s :: ShrinksFrom(g, w, s)
  }

  ghost predicate ShrinksFrom(g: Graph, w: Walk, s: Stacks) {
    Run(g, w, s).Some? && |Run(g, w, s).value.symbols| < |Step(g.Kind(w[0]), s).value.symbols|
  }

  /** Going round twice takes more scopes than going round once may do with. */
  ghost predicate TakesScopes(g: Graph, w: Walk) {
    exists s :: OnceOnly(g, w, s)
  }

  ghost predicate OnceOnly(g: Graph, w: Walk, s: Stacks) {
    && Run(g, w, s).Some?
    && (w[0] == Last(w) ==> forall t :: Run(g, Splice(w, w), t).Some? ==> |t.scopes| > |s.scopes|)
  }

  /** The kind of cycle that a closed walk is, in terms of its runs. */
  ghost function KindOfWalk(g: Graph, w: Walk): Option<Cyclicity>
    requires w[0] == Last(w)
  {
    if !Feasible(g, Splice(w, w), Anywhere) then None
    else if Shrinks(g, w) || TakesScopes(g, w) then Some(StrengthensPrecondition)
    else Some(StrengthensPostcondition)
  }

  /** A cycle of path finding's, with or without chosen targets. */
  ghost predicate ChosenCycle(g: Graph, p: PartialPath, w: Walk) {
    Summary(g, p, w, Anywhere) && Chosen(g, p) && w[0] == Last(w)
  }

  lemma RenamedCycle(g: Graph, p: PartialPath, w: Walk)
    requires ChosenCycle(g, p, w)
    ensures var rhs := p.RenamedApartFrom(p);
            Adjacent(g, p, w, rhs, w, Anywhere) && Chosen(g, rhs)
    ensures p.symbolPost.variable == p.symbolPre.variable
    ensures p.RenamedApartFrom(p).symbolPost.variable == p.RenamedApartFrom(p).symbolPre.variable
    ensures OpenPreLength(g, p.RenamedApartFrom(p)) == OpenPreLength(g, p)
  {
    hide Chosen;
    var so, co := p.symbolPre.LargestSymbolVariable(), p.LargestScopeVariable();
    OffsetSummary(g, p, w, so, co, Anywhere);
    OffsetChosen(g, p, so, co);
    RenamedIsApart(p, p);
    SymbolVariableCarriedThrough(g, p, w);
  }

  /** Which symbol stack variable a join binds. */
  lemma TailsBound(g: Graph, lhs: PartialPath, w: Walk, rhs: PartialPath, u: Walk, depth: nat, o: Origin)
    requires Adjacent(g, lhs, w, rhs, u, o) && Chosen(g, rhs) && depth > 0
    requires ComputeJoin(g, lhs, rhs, depth).Ok?
    ensures var t := ComputeJoin(g, lhs, rhs, depth).value;
            if OpenPreLength(g, rhs) <= OpenPostLength(g, lhs) then t.symbols.Keys == {rhs.symbolPre.variable.value}
            else lhs.symbolPost.variable.Some? && t.symbols.Keys == {lhs.symbolPost.variable.value}
  {
    hide Junction, Opens, Satisfies, Meets, Ordered, Completable, UnifyStacks, Meeting;
    HalfOpenLeft(g, lhs, w, o);
    HalfOpened(g, rhs, u);
    HalfOpenSizes(g, lhs, rhs);
    LinearBindings(g, lhs, w, rhs, u, depth, o);
    JoinVariables(g, lhs, w, rhs, u, o);
    var ls, rs := LeftPost(g, lhs), RightPre(g, rhs).symbols;
    var k := Min(|ls.symbols|, |rs.symbols|);
    assert |Drop(ls, k).symbols| == |ls.symbols| - k && |Drop(rs, k).symbols| == |rs.symbols| - k;
  }

  lemma ShrinksExactly(g: Graph, p: PartialPath, w: Walk)
    requires ChosenCycle(g, p, w)
    ensures Shrinks(g, w) <==> OpenPreLength(g, p) > OpenPostLength(g, p)
  {
    hide Chosen, EvalScopes;
    SymbolVariableCarriedThrough(g, p, w);
    forall val: Valuation
      ensures ShrinksFrom(g, w, Before(p, val)) <==> OpenPreLength(g, p) > OpenPostLength(g, p)
    {
      assert Run(g, w, Before(p, val)) == Some(After(p, val));
    }
    if s :| ShrinksFrom(g, w, s) {
      var val :| Before(p, val) == s;
      assert ShrinksFrom(g, w, Before(p, val));
    }
    if OpenPreLength(g, p) > OpenPostLength(g, p) {
      assert ShrinksFrom(g, w, Before(p, NOTHING));
    }
  }

  lemma TakesExactly(g: Graph, p: PartialPath, w: Walk, depth: nat)
    requires ChosenCycle(g, p, w) && depth > 0
    requires ComputeJoin(g, p, p.RenamedApartFrom(p), depth).Ok?
    ensures TakesScopes(g, w) <==>
            p.scopePre.variable.value in ComputeJoin(g, p, p.RenamedApartFrom(p), depth).value.scopes
  {
    hide ComputeJoin, Chosen, EvalStack, LinearTables, PreScopesExist;
    var rhs := p.RenamedApartFrom(p);
    var t := ComputeJoin(g, p, rhs, depth).value;
    RenamedCycle(g, p, w);
    assert Linear(p) && Linear(rhs) by { ChosenIsLinear(g, p); ChosenIsLinear(g, rhs); }
    JoinBound(g, p, w, rhs, w, depth, Anywhere);
    LinearBindings(g, p, w, rhs, w, depth, Anywhere);
    var x := p.scopePre.variable.value;
    assert x in ScopesOfPre(p);
    if x in t.scopes {
      var s := Before(p, NOTHING);
      assert Run(g, w, s) == Some(After(p, NOTHING));
      forall r | Run(g, Splice(w, w), r).Some?
        ensures |r.scopes| > |s.scopes|
      {
        var val := RunMeets(g, p, w, rhs, w, r, Anywhere);
        assert ScopeValue(val, x) == EvalScopes(t.scopes[x], val);
      }
      assert OnceOnly(g, w, s);
    } else {
      var c := SolutionRuns(g, p, w, rhs, w, depth, Anywhere, NOTHING);
      assert ScopeValue(c, x) == [];
      forall s | Run(g, w, s).Some?
        ensures |Before(p, c).scopes| <= |s.scopes|
      {
        var val :| Before(p, val) == s;
      }
    }
  }

  lemma ChosenIsLinear(g: Graph, p: PartialPath)
    requires Chosen(g, p)
    ensures Linear(p) && p.symbolPre.variable.Some?
  {
  }

  /** The report on a cycle depends on its walk alone: whether it can be repeated, and what that takes. */
  lemma ChosenCycleKind(g: Graph, p: PartialPath, w: Walk, depth: nat)
    requires ChosenCycle(g, p, w) && depth > 0
    ensures IsCyclic(g, p, depth) == Ok(KindOfWalk(g, w))
  {
    hide ComputeJoin, Chosen, Shrinks, TakesScopes, Closing, Exact, OpenPreLength, OpenPostLength;
    var rhs := p.RenamedApartFrom(p);
    RenamedCycle(g, p, w);
    ChosenIsLinear(g, p);
    ChosenIsLinear(g, rhs);
    JoinedLinear(g, p, w, rhs, w, depth, Anywhere);
    if ComputeJoin(g, p, rhs, depth).Ok? {
      TailsBound(g, p, w, rhs, w, depth, Anywhere);
      ShrinksExactly(g, p, w);
      TakesExactly(g, p, w, depth);
      assert p.symbolPre.variable.value in p.symbolPre.SymbolVariables();
      assert rhs.symbolPre.variable.value in rhs.symbolPre.SymbolVariables();
    }
  }

  // ---------------------------------------------------------------------------------------------
  // What the detector builds

  /** All choices in the blocks are free, and all cycles that are put together from them are closing. */
  ghost predicate RoundsSound(g: Graph, end: NodeHandle, remaining: seq<Fragment>, cycle: Option<PartialPath>,
                              depth: nat)
    decreases |remaining|
  {
    match LastStart(remaining, end)
    case None => true
    case Some(i) =>
      && AllFree(g, end, remaining[i..], depth)
      && match LongerCycle(g, end, remaining[i..], cycle, depth)
         case Err(_) => true
         case Ok(p) => Closing(p) && RoundsSound(g, end, remaining[..i], Some(p), depth)
  }

  ghost predicate CyclesSound(g: Graph, fragments: seq<Fragment>, depth: nat) {
    fragments != [] ==> RoundsSound(g, fragments[|fragments| - 1].EndNode(), fragments, None, depth)
  }

  /** The last fragment leads to `end`, which is no jump: so does the whole way. */
  lemma WayEnds(g: Graph, fragments: seq<Fragment>, us: seq<Walk>, o: Origin, end: NodeHandle)
    requires Travelled(g, fragments, us, o)
    requires end == fragments[|fragments| - 1].EndNode() && !g.Kind(end).JumpTo?
    ensures Consecutive(g, [us[0][0]], us, o) && Last(Way(g, us, o, |us|)) == end
    ensures Feasible(g, Way(g, us, o, |us|), o)
  {
    hide Appended, Consecutive, Way;
    TravelledAt(g, fragments, us, o);
    WayStep(g, us, o, |us| - 1);
    assert us[..|us|] == us;
    assert Way(g, us, o, |us|) == Journey(g, [us[0][0]], us, o) by { WayOfAll(g, us, o); }
  }

  lemma WayOfAll(g: Graph, us: seq<Walk>, o: Origin)
    requires us != [] && Consecutive(g, [us[0][0]], us, o)
    ensures Way(g, us, o, |us|) == Journey(g, [us[0][0]], us, o)
  {
    assert us[..|us|] == us;
  }

  lemma StretchFeasible(g: Graph, us: seq<Walk>, o: Origin, i: nat, j: nat)
    requires us != [] && i <= j <= |us| && Consecutive(g, [us[0][0]], us, o)
    requires Feasible(g, Way(g, us, o, |us|), o)
    ensures Feasible(g, Stretch(g, us, o, i, j), Anywhere)
    ensures i == 0 && us[0] == [us[0][0]] ==> Feasible(g, Way(g, us, o, j), o)
  {
    hide Feasible, Way, Consecutive, Stretch;
    StretchJoin(g, us, o, i, j, |us|);
    FeasibleParts(g, Way(g, us, o, i), Stretch(g, us, o, i, |us|), o);
    FeasibleParts(g, Stretch(g, us, o, i, j), Stretch(g, us, o, j, |us|), Anywhere);
    FeasibleParts(g, Way(g, us, o, j), Stretch(g, us, o, j, |us|), o);
  }

  /** Joining a block to what has been put together after it. */
  lemma BlockJoined(g: Graph, p: PartialPath, w: Walk, s: Walk, next: PartialPath, u: Walk, depth: nat)
    requires BlockAt(g, p, w, s) && ChoosesFreely(g, p) && !g.Kind(Last(s)).JumpTo? && depth > 0
    requires Summary(g, next, u, Anywhere) && Chosen(g, next) && Last(s) == u[0] && !g.Kind(Last(u)).JumpTo?
    requires Feasible(g, Splice(s, u), Anywhere)
    ensures var r := AppendPath(g, p, next, depth);
            && r.Ok? && Chosen(g, r.value) && r.value.edges == p.edges + next.edges
            && (Closing(r.value) ==> Summary(g, r.value, Splice(s, u), Anywhere))
  {
    hide Summary, Chosen, ResolveToNode, BlockAt, ChoosesFreely, Feasible, Closing, Joined;
    FeasibleParts(g, s, u, Anywhere);
    CaughtUp(g, p, w, s);
    var q := ResolveToNode(g, p, Last(s)).value;
    SummaryOf(g, next, u, Anywhere);
    RenamedJoin(g, q, s, next, u, depth, Anywhere);
    JoinedEnd(g, q.RenamedApartFrom(next), next, depth);
  }

  lemma JoinedEnd(g: Graph, lhs: PartialPath, next: PartialPath, depth: nat)
    requires !g.Kind(next.endNode).JumpTo?
    ensures Concatenate(g, lhs, next, depth) == Joined(g, lhs, next, depth)
  {
  }

  /** The cycle that has been put together from the `k`th fragment on. */
  ghost predicate CycleAt(g: Graph, fragments: seq<Fragment>, us: seq<Walk>, o: Origin, k: nat,
                          cycle: Option<PartialPath>)
    requires |fragments| == |us| > 0 && k <= |us| && Consecutive(g, [us[0][0]], us, o)
  {
    if k == |us| then cycle.None?
    else
      && cycle.Some?
      && Summary(g, cycle.value, Stretch(g, us, o, k, |us|), OriginAt(o, k))
      && (if OriginAt(o, k) == Anywhere then Chosen(g, cycle.value) else FromEmptyStacks(cycle.value))
      && (JumpsRecorded(g, fragments) ==> (cycle.value.edges == [] <==> EdgeCounts(fragments[k..]) == 0))
  }

  /** What the next block is joined to: the cycle so far, or the end node. */
  lemma NextCycle(g: Graph, fragments: seq<Fragment>, us: seq<Walk>, o: Origin, k: nat, cycle: Option<PartialPath>,
                  end: NodeHandle) returns (next: PartialPath)
    requires Travelled(g, fragments, us, o) && 0 < k <= |us| == |fragments| && Consecutive(g, [us[0][0]], us, o)
    requires end == fragments[|fragments| - 1].EndNode() && !g.Kind(end).JumpTo?
    requires CycleAt(g, fragments, us, o, k, cycle)
    ensures FromNode(g, end).Ok? && next == if cycle.Some? then cycle.value else FromNode(g, end).value
    ensures Summary(g, next, Stretch(g, us, o, k, |us|), Anywhere) && Chosen(g, next)
    ensures JumpsRecorded(g, fragments) ==> (next.edges == [] <==> EdgeCounts(fragments[k..]) == 0)
  {
    hide Travelled, Consecutive, Summary, Chosen, Stretch, Way;
    TravelledAt(g, fragments, us, o);
    FromNodeSummary(g, end);
    NodePathChosen(g, end);
    if k == |us| {
      next := FromNode(g, end).value;
      WayEnds(g, fragments, us, o, end);
      StretchNone(g, us, o, k);
      assert fragments[k..] == [];
    } else {
      next := cycle.value;
    }
  }

  lemma StretchStarts(g: Graph, fragments: seq<Fragment>, us: seq<Walk>, o: Origin, k: nat, end: NodeHandle)
    requires Travelled(g, fragments, us, o) && k <= |us| == |fragments| && Consecutive(g, [us[0][0]], us, o)
    requires end == fragments[|fragments| - 1].EndNode() && !g.Kind(end).JumpTo?
    requires k < |us| ==> us[k][0] == end
    ensures Last(Way(g, us, o, k)) == end
    ensures Last(Way(g, us, o, |us|)) == end && Feasible(g, Way(g, us, o, |us|), o)
  {
    hide Travelled, Consecutive, Way;
    WayEnds(g, fragments, us, o, end);
    if k < |us| {
      WayStep(g, us, o, k);
    }
  }

  /** One more round puts the next longer cycle together. */
  lemma ChosenRound(g: Graph, fragments: seq<Fragment>, us: seq<Walk>, o: Origin, i: nat, k: nat,
                    cycle: Option<PartialPath>, end: NodeHandle, depth: nat)
    requires Travelled(g, fragments, us, o) && i < k <= |us| == |fragments| && Consecutive(g, [us[0][0]], us, o)
    requires end == fragments[|fragments| - 1].EndNode() == us[i][0] && (k < |us| ==> us[k][0] == end)
    requires CycleAt(g, fragments, us, o, k, cycle) && depth > 0 && (i > 0 || o == Anywhere)
    requires AllFree(g, end, fragments[i..k], depth)
    ensures var r := LongerCycle(g, end, fragments[i..k], cycle, depth);
            r.Ok? && (Closing(r.value) ==> CycleAt(g, fragments, us, o, i, Some(r.value)))
  {
    hide Travelled, Consecutive, Summary, Chosen, Stretch, Way, BlockAt, FreeAt, Closing, AppendPath, BlockPath,
      EdgeCounts, JumpsRecorded, FromNode, CycleAt;
    TravelledAt(g, fragments, us, o);
    var next := NextCycle(g, fragments, us, o, k, cycle, end);
    var w := ChosenBlockBuilds(g, fragments, us, o, i, k, depth);
    var p := BlockPath(g, end, fragments[i..k], depth).value;
    assert fragments[i..k][..k - i] == fragments[i..k];
    assert FreeAt(g, end, fragments[i..k][..k - i], depth);
    StretchStarts(g, fragments, us, o, k, end);
    StretchJoin(g, us, o, i, k, |us|);
    StretchFeasible(g, us, o, i, |us|);
    FreeChoice(g, end, fragments[i..k], depth);
    BlockJoined(g, p, w, Stretch(g, us, o, i, k), next, Stretch(g, us, o, k, |us|), depth);
    assert fragments[i..] == fragments[i..k] + fragments[k..];
    EdgeCountsConcat(fragments[i..k], fragments[k..]);
    var r := LongerCycle(g, end, fragments[i..k], cycle, depth).value;
    if Closing(r) {
      CycleAtAnywhere(g, fragments, us, o, i, r);
    }
  }

  lemma CycleAtAnywhere(g: Graph, fragments: seq<Fragment>, us: seq<Walk>, o: Origin, k: nat, p: PartialPath)
    requires |fragments| == |us| && k < |us| && Consecutive(g, [us[0][0]], us, o) && (k > 0 || o == Anywhere)
    requires Summary(g, p, Stretch(g, us, o, k, |us|), Anywhere) && Chosen(g, p)
    requires JumpsRecorded(g, fragments) ==> (p.edges == [] <==> EdgeCounts(fragments[k..]) == 0)
    ensures CycleAt(g, fragments, us, o, k, Some(p))
  {
  }

  lemma FreeChoice(g: Graph, start: NodeHandle, block: seq<Fragment>, depth: nat)
    requires FreeAt(g, start, block, depth) && BlockPath(g, start, block, depth).Ok?
    ensures ChoosesFreely(g, BlockPath(g, start, block, depth).value)
  {
  }

  // ---------------------------------------------------------------------------------------------
  // The first block, from a reference with empty stacks

  lemma WayPassableAt(g: Graph, fragments: seq<Fragment>, us: seq<Walk>, o: Origin, k: nat)
    requires Travelled(g, fragments, us, o) && k <= |us|
    ensures Consecutive(g, [us[0][0]], us, o) && Passable(g, Way(g, us, o, k), o)
  {
    hide Passable, Settle, Appended;
    TravelledAt(g, fragments, us, o);
    assert us == us[..k] + us[k..];
    JourneyConcat(g, [us[0][0]], us[..k], us[k..], o);
    PassableStart(g, Way(g, us, o, k), us[k..], o);
  }

  lemma WayAfterFirst(g: Graph, us: seq<Walk>, o: Origin, k: nat)
    requires us != [] && 0 < k <= |us| && us[0] == [us[0][0]] && !g.Kind(us[0][0]).JumpTo?
    requires Consecutive(g, [us[0][0]], us, o)
    ensures Consecutive(g, us[0], us[1..k], o) && Journey(g, us[0], us[1..k], o) == Way(g, us, o, k)
  {
    WayConsecutive(g, us, o, k);
    var n := us[0][0];
    var none: seq<Walk> := [];
    assert us[..k] == [us[0]] + us[1..k] && [us[0]][..0] == none;
    JourneyConcat(g, [n], [us[0]], us[1..k], o);
    assert Journey(g, [n], none, o) == [n] && Splice([n], us[0]) == us[0];
    assert Journey(g, [n], [us[0]], o) == us[0];
  }

  lemma {:induction false} JourneyLength(g: Graph, w: Walk, us: seq<Walk>, o: Origin)
    requires Consecutive(g, w, us, o)
    ensures |Journey(g, w, us, o)| >= |w| + MoveCount(us)
    ensures AllPlain(g, us) ==> |Journey(g, w, us, o)| == |w| + MoveCount(us)
    decreases |us|
  {
    hide Settle;
    if us != [] {
      JourneyLength(g, w, us[..|us| - 1], o);
    }
  }

  lemma {:induction false} PlainWithoutEdges(g: Graph, fragments: seq<Fragment>, us: seq<Walk>)
    requires |fragments| == |us| && JumpsRecorded(g, fragments) && EdgeCounts(fragments) == 0
    requires forall k :: 0 <= k < |us| ==> fragments[k].EndNode() == Last(us[k])
    ensures AllPlain(g, us)
  {
    if us != [] {
      var k := |us| - 1;
      PlainWithoutEdges(g, fragments[..k], us[..k]);
      assert fragments[k] in fragments;
      forall i | 0 <= i <= k
        ensures !g.Kind(Last(us[i])).JumpTo?
      {
        assert i < k ==> us[..k][i] == us[i];
      }
    }
  }

  /** The first block of a path from a reference never waits. */
  lemma FirstChosenBlock(g: Graph, fragments: seq<Fragment>, us: seq<Walk>, k: nat, depth: nat)
    requires Travelled(g, fragments, us, Nowhere) && 0 < k <= |us|
    ensures Consecutive(g, [us[0][0]], us, Nowhere)
    ensures var r := BlockPath(g, us[0][0], fragments[0..k], depth);
            && r.Ok? && Summary(g, r.value, Way(g, us, Nowhere, k), Nowhere) && FromEmptyStacks(r.value)
            && (JumpsRecorded(g, fragments) ==> (r.value.edges == [] <==> EdgeCounts(fragments[0..k]) == 0))
  {
    hide AppendPath, FromNode, InitialPath, Summary, Stitch, Passable, Describes, Consecutive, EdgeCounts, Way;
    TravelledAt(g, fragments, us, Nowhere);
    var n := us[0][0];
    var block := fragments[0..k];
    AppendInitial(g, n, Nowhere, depth);
    InitialSummary(g, n, Nowhere);
    var first := AppendPath(g, FromNode(g, n).value, InitialPath(g, n, Nowhere).value, depth).value;
    assert block[0] == fragments[0] && block[1..] == fragments[1..k];
    StitchCons(g, FromNode(g, n).value, block, depth);
    assert BlockPath(g, n, block, depth) == Stitch(g, first, fragments[1..k], depth);
    WayAfterFirst(g, us, Nowhere, k);
    WayPassableAt(g, fragments, us, Nowhere, k);
    StitchSummary(g, first, [n], fragments[1..k], us[1..k], depth, Nowhere);
    StitchFromEmptyStacks(g, first, [n], fragments[1..k], us[1..k], depth, Nowhere);
    EdgeCountsCons(block);
    JourneyLength(g, [n], us[1..k], Nowhere);
    if JumpsRecorded(g, fragments) && EdgeCounts(fragments[1..k]) == 0 {
      PlainWithoutEdges(g, fragments[1..k], us[1..k]);
    }
  }

  lemma FirstChosenRound(g: Graph, fragments: seq<Fragment>, us: seq<Walk>, k: nat, cycle: Option<PartialPath>,
                         end: NodeHandle, depth: nat)
    requires Travelled(g, fragments, us, Nowhere) && 0 < k <= |us| == |fragments|
    requires Consecutive(g, [us[0][0]], us, Nowhere)
    requires end == fragments[|fragments| - 1].EndNode() == us[0][0] && (k < |us| ==> us[k][0] == end)
    requires CycleAt(g, fragments, us, Nowhere, k, cycle) && depth > 0
    ensures var r := LongerCycle(g, end, fragments[0..k], cycle, depth);
            r.Ok? && (Closing(r.value) ==> CycleAt(g, fragments, us, Nowhere, 0, Some(r.value)))
  {
    hide Travelled, Consecutive, Summary, Chosen, Stretch, Way, Closing, BlockPath, EdgeCounts, JumpsRecorded,
      FromNode, CycleAt, Joined, FromEmptyStacks;
    TravelledAt(g, fragments, us, Nowhere);
    var next := NextCycle(g, fragments, us, Nowhere, k, cycle, end);
    FirstChosenBlock(g, fragments, us, k, depth);
    var p := BlockPath(g, end, fragments[0..k], depth).value;
    var u := Stretch(g, us, Nowhere, k, |us|);
    StretchStarts(g, fragments, us, Nowhere, k, end);
    SummaryOf(g, p, Way(g, us, Nowhere, k), Nowhere);
    SummaryOf(g, next, u, Anywhere);
    RenamedJoin(g, p, Way(g, us, Nowhere, k), next, u, depth, Nowhere);
    JoinedEnd(g, p.RenamedApartFrom(next), next, depth);
    ChoiceNotNeeded(g, p, next.startNode);
    JoinedFromEmpty(g, p, next, depth);
    assert fragments[0..] == fragments[0..k] + fragments[k..];
    EdgeCountsConcat(fragments[0..k], fragments[k..]);
    var r := LongerCycle(g, end, fragments[0..k], cycle, depth).value;
    if Closing(r) {
      CycleAtNowhere(g, fragments, us, r);
    }
  }

  lemma JoinedFromEmpty(g: Graph, p: PartialPath, next: PartialPath, depth: nat)
    requires FromEmptyStacks(p) && Joined(g, p.RenamedApartFrom(next), next, depth).Ok?
    ensures FromEmptyStacks(Joined(g, p.RenamedApartFrom(next), next, depth).value)
  {
    hide ComputeJoin;
    assert FromEmptyStacks(p.RenamedApartFrom(next));
  }

  lemma CycleAtNowhere(g: Graph, fragments: seq<Fragment>, us: seq<Walk>, p: PartialPath)
    requires |fragments| == |us| > 0 && Consecutive(g, [us[0][0]], us, Nowhere)
    requires Summary(g, p, Way(g, us, Nowhere, |us|), Nowhere) && FromEmptyStacks(p)
    requires JumpsRecorded(g, fragments) ==> (p.edges == [] <==> EdgeCounts(fragments[0..]) == 0)
    ensures CycleAt(g, fragments, us, Nowhere, 0, Some(p))
  {
    WayFromStart(g, us, Nowhere);
  }

  lemma WayFromStart(g: Graph, us: seq<Walk>, o: Origin)
    requires us != [] && Consecutive(g, [us[0][0]], us, o)
    ensures Stretch(g, us, o, 0, |us|) == Way(g, us, o, |us|)
  {
    assert us[..0] == [];
  }

  // ---------------------------------------------------------------------------------------------
  // What the detector reports

  /** From empty stacks a cycle is free if it leaves them empty but for its own push, and otherwise no cycle. */
  ghost function KindFromEmptyStacks(g: Graph, w: Walk): Option<Cyclicity> {
    match Run(g, w, Stacks([], []))
    case None => None
    case Some(t) => if |t.symbols| == 1 && t.scopes == [] then Some(Free) else None
  }

  /** The kind of cycle that the way from the `i`th fragment on makes up, in terms of its runs alone. */
  ghost function KindOfRest(g: Graph, fragments: seq<Fragment>, us: seq<Walk>, o: Origin, i: nat): Option<Cyclicity>
    requires |fragments| == |us| && i < |us| && Consecutive(g, [us[0][0]], us, o)
  {
    var w := Stretch(g, us, o, i, |us|);
    if fragments[i].StartNode() != fragments[|fragments| - 1].EndNode() || w[0] != Last(w) then None
    else if EdgeCounts(fragments[i..]) == 0 then None
    else if OriginAt(o, i) == Anywhere then KindOfWalk(g, w)
    else KindFromEmptyStacks(g, w)
  }

  ghost function KindsFrom(g: Graph, fragments: seq<Fragment>, us: seq<Walk>, o: Origin, k: nat): set<Cyclicity>
    requires |fragments| == |us| > 0 && k <= |us| && Consecutive(g, [us[0][0]], us, o)
  {
    set i | k <= i < |us| && KindOfRest(g, fragments, us, o, i).Some? :: KindOfRest(g, fragments, us, o, i).value
  }

  lemma KindsBetween(g: Graph, fragments: seq<Fragment>, us: seq<Walk>, o: Origin, k: nat, m: nat)
    requires |fragments| == |us| > 0 && k <= m <= |us| && Consecutive(g, [us[0][0]], us, o)
    requires forall i :: k <= i < m ==> fragments[i].StartNode() != fragments[|fragments| - 1].EndNode()
    ensures KindsFrom(g, fragments, us, o, k) == KindsFrom(g, fragments, us, o, m)
  {
    hide Stretch, KindOfWalk, KindFromEmptyStacks, EdgeCounts, Consecutive;
  }

  lemma KindsStep(g: Graph, fragments: seq<Fragment>, us: seq<Walk>, o: Origin, k: nat)
    requires |fragments| == |us| && k < |us| && Consecutive(g, [us[0][0]], us, o)
    ensures KindsFrom(g, fragments, us, o, k) ==
            WithKind(KindsFrom(g, fragments, us, o, k + 1), KindOfRest(g, fragments, us, o, k))
  {
    hide KindOfRest, Consecutive;
  }

  /** A cycle that has been put together is of the kind of its walk. */
  lemma KindFound(g: Graph, fragments: seq<Fragment>, us: seq<Walk>, o: Origin, i: nat, p: PartialPath, depth: nat)
    requires Travelled(g, fragments, us, o) && i < |us| == |fragments| && Consecutive(g, [us[0][0]], us, o)
    requires us[i][0] == fragments[|fragments| - 1].EndNode() && depth > 0
    requires CycleAt(g, fragments, us, o, i, Some(p))
    ensures KindOf(g, p, depth).Ok?
    ensures JumpsRecorded(g, fragments) ==> KindOf(g, p, depth).value == KindOfRest(g, fragments, us, o, i)
  {
    hide Travelled, Consecutive, Summary, Chosen, Stretch, Way, IsCyclic, FromEmptyStacks, EdgeCounts, JumpsRecorded,
      KindOfWalk, Run;
    TravelledAt(g, fragments, us, o);
    StretchStarts(g, fragments, us, o, i, us[i][0]);
    var w := Stretch(g, us, o, i, |us|);
    assert w[0] == Last(w) == us[i][0];
    if OriginAt(o, i) == Anywhere {
      ChosenCycleKind(g, p, w, depth);
    } else {
      StartPushes(g, fragments, us);
      EmptyStacksCycleKind(g, p, w, depth);
    }
  }

  lemma StartPushes(g: Graph, fragments: seq<Fragment>, us: seq<Walk>)
    requires Travelled(g, fragments, us, Nowhere)
    ensures Pushes(g.Kind(us[0][0]))
  {
    hide Passable, Journey, Consecutive, Describes;
  }

  /** The rounds that are left never fail, and report the kinds of the cycles that are left. */
  lemma {:induction false} ChosenRounds(g: Graph, fragments: seq<Fragment>, us: seq<Walk>, o: Origin, k: nat,
                                        cycle: Option<PartialPath>, cycles: set<Cyclicity>, depth: nat)
    requires Travelled(g, fragments, us, o) && k <= |us| == |fragments| && Consecutive(g, [us[0][0]], us, o)
    requires k < |us| ==> us[k][0] == fragments[|fragments| - 1].EndNode()
    requires CycleAt(g, fragments, us, o, k, cycle) && depth > 0
    requires RoundsSound(g, fragments[|fragments| - 1].EndNode(), fragments[..k], cycle, depth)
    ensures var r := Rounds(g, fragments[|fragments| - 1].EndNode(), fragments[..k], cycle, cycles, depth);
            && r.Ok?
            && (JumpsRecorded(g, fragments) && cycles == KindsFrom(g, fragments, us, o, k) ==>
                  r.value == KindsFrom(g, fragments, us, o, 0))
    decreases k
  {
    hide Travelled, Consecutive, CycleAt, LongerCycle, KindOf, KindOfRest, KindsFrom, AllFree, Closing, JumpsRecorded;
    TravelledAt(g, fragments, us, o);
    var end := fragments[|fragments| - 1].EndNode();
    match LastStart(fragments[..k], end)
    case None =>
      KindsBetween(g, fragments, us, o, 0, k);
    case Some(i) =>
      KindsBetween(g, fragments, us, o, i + 1, k);
      KindsStep(g, fragments, us, o, i);
      assert fragments[..k][i..] == fragments[i..k] && fragments[..k][..i] == fragments[..i];
      if i == 0 && o == Nowhere {
        FirstChosenRound(g, fragments, us, k, cycle, end, depth);
      } else {
        ChosenRound(g, fragments, us, o, i, k, cycle, end, depth);
      }
      var p := LongerCycle(g, end, fragments[i..k], cycle, depth).value;
      KindFound(g, fragments, us, o, i, p, depth);
      ChosenRounds(g, fragments, us, o, i, Some(p), WithKind(cycles, KindOf(g, p, depth).value), depth);
  }

  /**
   If everything has been appended with success, all choices are free, and the cycles that are put together are
   closing, then the detector succeeds, and reports the kinds of exactly those ways that lead from the end back to
   the end.  This takes some room on the call stack, because unification may have to bind a variable twice.
   */
  lemma DetectorThroughJumps(g: Graph, fragments: seq<Fragment>, us: seq<Walk>, o: Origin, depth: nat)
    requires Travelled(g, fragments, us, o) && CyclesSound(g, fragments, depth) && depth > 0
    ensures |fragments| == |us| > 0 && Consecutive(g, [us[0][0]], us, o)
    ensures Detected(g, fragments, depth).Ok?
    ensures JumpsRecorded(g, fragments) ==> Detected(g, fragments, depth).value == KindsFrom(g, fragments, us, o, 0)
  {
    hide Travelled, Consecutive, Rounds, RoundsSound, KindsFrom, JumpsRecorded;
    TravelledAt(g, fragments, us, o);
    assert fragments[..|us|] == fragments;
    NoKindsAtEnd(g, fragments, us, o);
    ChosenRounds(g, fragments, us, o, |us|, None, {}, depth);
  }

  lemma NoKindsAtEnd(g: Graph, fragments: seq<Fragment>, us: seq<Walk>, o: Origin)
    requires |fragments| == |us| > 0 && Consecutive(g, [us[0][0]], us, o)
    ensures KindsFrom(g, fragments, us, o, |us|) == {}
  {
  }

  // ---------------------------------------------------------------------------------------------
  // Without jumps, nothing goes wrong

  lemma BuiltCloses(g: Graph, fragments: seq<Fragment>, us: seq<Walk>, o: Origin, i: nat, j: nat, p: PartialPath)
    requires Linked(us) && i < j <= |us| == |fragments| && Built(g, fragments, us, o, i, j, p)
    ensures Closing(p)
    ensures !g.Kind(Last(us[j - 1])).JumpTo? ==> ChoosesFreely(g, p)
  {
    hide PartWalk;
    ExactCloses(g, p, PartWalk(us, i, j), OriginAt(o, i));
  }

  lemma PlainPartFree(g: Graph, fragments: seq<Fragment>, us: seq<Walk>, o: Origin, i: nat, j: nat, depth: nat)
    requires g.AttachedScopesExist() && Appendages(g, fragments, us, o) && Runnable(g, us, o) && i < j <= |us|
    ensures FreeAt(g, us[i][0], fragments[i..j], depth)
  {
    hide Appendages, Runnable, Built, Stitch, FromNode, Linked, ChoosesFreely;
    AppendagesLinked(g, fragments, us, o);
    AppendageNodes(g, fragments, us, o, j - 1);
    BlockBuilds(g, fragments, us, o, i, j, depth);
    BuiltCloses(g, fragments, us, o, i, j, BlockPath(g, us[i][0], fragments[i..j], depth).value);
  }

  lemma PlainBlockFree(g: Graph, fragments: seq<Fragment>, us: seq<Walk>, o: Origin, i: nat, k: nat, depth: nat)
    requires g.AttachedScopesExist() && Appendages(g, fragments, us, o) && Runnable(g, us, o) && i < k <= |us|
    ensures AllFree(g, us[i][0], fragments[i..k], depth)
  {
    hide Appendages, Runnable, FreeAt;
    AppendagesLinked(g, fragments, us, o);
    AppendageNodes(g, fragments, us, o, i);
    PlainStartFree(g, us[i][0], depth);
    forall m | 0 <= m <= |fragments[i..k]|
      ensures FreeAt(g, us[i][0], fragments[i..k][..m], depth)
    {
      assert fragments[i..k][..m] == fragments[i..i + m];
      if m == 0 {
        assert fragments[i..i] == [];
      } else {
        PlainPartFree(g, fragments, us, o, i, i + m, depth);
      }
    }
  }

  lemma PlainStartFree(g: Graph, n: NodeHandle, depth: nat)
    requires !g.Kind(n).JumpTo?
    ensures FreeAt(g, n, [], depth)
  {
  }

  lemma {:induction false} PlainRoundsSound(g: Graph, fragments: seq<Fragment>, us: seq<Walk>, o: Origin, k: nat,
                                            cycle: Option<PartialPath>, depth: nat)
    requires g.AttachedScopesExist() && Appendages(g, fragments, us, o) && Runnable(g, us, o)
    requires k <= |us| && CycleBuilt(g, fragments, us, o, k, cycle)
    ensures RoundsSound(g, fragments[|us| - 1].EndNode(), fragments[..k], cycle, depth)
    decreases k
  {
    hide Appendages, Runnable, Built, Linked, LongerCycle, AllFree, Closing;
    AppendagesLinked(g, fragments, us, o);
    AppendageNodes(g, fragments, us, o, |us| - 1);
    var end := fragments[|us| - 1].EndNode();
    match LastStart(fragments[..k], end)
    case None =>
    case Some(i) =>
      AppendageNodes(g, fragments, us, o, i);
      RoundBuilds(g, fragments, us, o, i, k, cycle, depth);
      assert fragments[..k][i..] == fragments[i..k] && fragments[..k][..i] == fragments[..i];
      PlainBlockFree(g, fragments, us, o, i, k, depth);
      var p := LongerCycle(g, end, fragments[i..k], cycle, depth).value;
      BuiltCloses(g, fragments, us, o, i, |us|, p);
      PlainRoundsSound(g, fragments, us, o, i, Some(p), depth);
  }

  lemma {:induction false} SoundAfter(g: Graph, end: NodeHandle, before: seq<Fragment>, remaining: seq<Fragment>,
                                      cycle: Option<PartialPath>, depth: nat)
    requires forall i :: 0 <= i < |before| ==> before[i].StartNode() != end
    requires RoundsSound(g, end, remaining, cycle, depth)
    ensures RoundsSound(g, end, before + remaining, cycle, depth)
    decreases |remaining|
  {
    hide LongerCycle, LastStart, AllFree, Closing;
    var all := before + remaining;
    match LastStart(remaining, end)
    case None =>
      assert LastStart(all, end).None?;
    case Some(i) =>
      assert forall k :: 0 <= k < |remaining| ==> all[|before| + k] == remaining[k];
      assert all[|before| + i].StartNode() == end;
      var j := LastStart(all, end).value;
      assert j == |before| + i;
      assert all[j..] == remaining[i..] && all[..j] == before + remaining[..i];
      var p := LongerCycle(g, end, remaining[i..], cycle, depth);
      if p.Ok? {
        SoundAfter(g, end, before, remaining[..i], Some(p.value), depth);
      }
  }

  /** If no cycle passes a jump, no choice is needed, and every cycle is closing. */
  lemma AvoidingIsSound(g: Graph, fragments: seq<Fragment>, us: seq<Walk>, o: Origin, depth: nat)
    requires Travelled(g, fragments, us, o) && CyclesAvoidJumps(g, fragments)
    ensures CyclesSound(g, fragments, depth)
  {
    hide RoundsSound, Passable, Journey, Consecutive, Describes, Appendages, Runnable, StartsWith;
    AppendedAt(g, fragments, us, o, 0);
    var end := fragments[|fragments| - 1].EndNode();
    var m := FirstStart(fragments, end);
    if m == |fragments| {
      NoRounds(g, end, depth);
      SoundAfter(g, end, fragments, [], None, depth);
      assert fragments + [] == fragments;
    } else {
      var tail := fragments[m..];
      assert fragments == fragments[..m] + tail;
      TailAppendages(g, fragments, us, o, m);
      assert tail[..|tail|] == tail;
      PlainRoundsSound(g, tail, us[m..], OriginAt(o, m), |tail|, None, depth);
      SoundAfter(g, end, fragments[..m], tail, None, depth);
    }
  }

  lemma NoRounds(g: Graph, end: NodeHandle, depth: nat)
    ensures RoundsSound(g, end, [], None, depth)
  {
  }
}
