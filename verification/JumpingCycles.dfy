/**
 The cycle detector can fail although everything was appended with success, if a cycle passes a jump.  Blocks
 are built as if from any stacks; there, choosing the target of a jump rewrites the precondition, but leaves the
 scopes attached to the symbols of the postcondition as they were.
 */
module JumpingCycles {
  import opened Wrappers
  import opened Graphs
  import opened Patterns
  import opened Unification
  import opened PartialPaths
  import opened Stitching
  import opened Cyclicity
  import opened CycleDetection

  /** Node 3 can be left through jumps to the exported scopes 5 and 6, and entered again. */
  const JUMPING := Graph([
    JumpTo, Root, PushScopedSymbol(1, Some(6), true), Scope(false), PushScopedSymbol(1, Some(5), false), Scope(true),
    Scope(true), PopScopedSymbol(1, false), PopScopedSymbol(1, false), PushScopedSymbol(1, Some(5), false),
    PopScopedSymbol(1, false)])

  function Along(source: NodeHandle, sink: NodeHandle): Fragment {
    EdgeFragment(Edge(source, sink, 0))
  }

  /** From the reference to node 3, with the scopes 5 and 6 on the scope stack. */
  const APPROACH := [Along(2, 8), Along(8, 9), Along(9, 10), Along(10, 3)]

  /** Attaches the scopes to a symbol and takes the first jump. */
  const PUSHING := [Along(3, 4), Along(4, 0), Along(5, 3)]

  /** Takes the second jump, gets the scopes back, and jumps twice more. */
  const POPPING := [Along(3, 0), Along(6, 7), Along(7, 0), Along(5, 0), Along(5, 3)]

  function Attached(scopes: seq<NodeHandle>, variable: Option<Var>): PartialScopedSymbol {
    PartialScopedSymbol(1, Some(PartialScopeStack(scopes, variable)))
  }

  /** A path's ends and stacks; the edges do not matter. */
  function Between(start: NodeHandle, end: NodeHandle, symbolPre: PartialSymbolStack, scopePre: PartialScopeStack,
                   symbolPost: PartialSymbolStack, scopePost: PartialScopeStack): PartialPath
  {
    PartialPath(start, end, symbolPre, scopePre, symbolPost, scopePost, [])
  }

  /** The outcome is the given path, whatever its edges. */
  predicate Is(r: Result<PartialPath, PathResolutionError>, p: PartialPath) {
    r.Ok? && r.value == p.(edges := r.value.edges)
  }

  ghost predicate Leads(p: PartialPath, f: Fragment, q: PartialPath, depth: nat) {
    forall edges :: Is(AppendFragment(JUMPING, p.(edges := edges), f, depth), q)
  }

  /** Each fragment leads from one path to the next. */
  ghost predicate Route(fragments: seq<Fragment>, ps: seq<PartialPath>, depth: nat) {
    && |ps| == |fragments| + 1
    && forall i, j :: 0 <= i < j < |ps| && j == i + 1 ==> Leads(ps[i], fragments[i], ps[j], depth)
  }

  lemma {:induction false} RouteStitched(p: PartialPath, fragments: seq<Fragment>, ps: seq<PartialPath>, depth: nat)
    requires Route(fragments, ps, depth) && Is(Ok(p), ps[0])
    ensures Is(Stitch(JUMPING, p, fragments, depth), ps[|fragments|])
  {
    hide AppendFragment;
    if fragments != [] {
      var k := |fragments| - 1;
      RouteStitched(p, fragments[..k], ps[..k + 1], depth);
      assert Leads(ps[k], fragments[k], ps[k + 1], depth);
    }
  }

  lemma OneSymbol(x: PartialScopedSymbol, b: ScopeBindings, offset: nat)
    ensures SubstSymbols([x], b) == [SubstSymbol(x, b)]
    ensures SymbolsWithOffset([x], offset) == [x.WithOffset(offset)]
    ensures LargestAttached([x]) == if x.scopes.Some? then x.scopes.value.LargestScopeVariable() else 0
  {
    assert [x][..0] == [];
  }

  // ---------------------------------------------------------------------------------------------
  // Everything is appended with success

  function FromReference(n: NodeHandle, symbols: seq<PartialScopedSymbol>, scopes: seq<NodeHandle>): PartialPath {
    Between(2, n, EMPTY_SYMBOLS, EMPTY_SCOPES, PartialSymbolStack(symbols, None), PartialScopeStack(scopes, None))
  }

  function ApproachPaths(): seq<PartialPath> {
    [FromReference(2, [Attached([6], None)], []),
     FromReference(8, [], [6]),
     FromReference(9, [Attached([5, 6], None)], [6]),
     FromReference(10, [], [5, 6]),
     FromReference(3, [], [5, 6])]
  }

  lemma Approach(depth: nat)
    ensures Route(APPROACH, ApproachPaths(), depth)
  {
    var ps := ApproachPaths();
    assert Leads(ps[0], APPROACH[0], ps[1], depth);
    assert Leads(ps[1], APPROACH[1], ps[2], depth) by {
      assert [5] + [6] == [5, 6];
    }
    assert Leads(ps[2], APPROACH[2], ps[3], depth);
    assert Leads(ps[3], APPROACH[3], ps[4], depth);
  }

  function PushingPaths(): seq<PartialPath> {
    [FromReference(3, [], [5, 6]),
     FromReference(4, [Attached([5, 5, 6], None)], [5, 6]),
     FromReference(5, [Attached([5, 5, 6], None)], [6]),
     FromReference(3, [Attached([5, 5, 6], None)], [6])]
  }

  lemma Pushing(depth: nat)
    ensures Route(PUSHING, PushingPaths(), depth)
  {
    var ps := PushingPaths();
    assert Leads(ps[0], PUSHING[0], ps[1], depth) by {
      assert [5] + [5, 6] == [5, 5, 6];
    }
    assert Leads(ps[1], PUSHING[1], ps[2], depth);
    assert Leads(ps[2], PUSHING[2], ps[3], depth);
  }

  function PoppingPaths(): seq<PartialPath> {
    [FromReference(3, [Attached([5, 5, 6], None)], [6]),
     FromReference(6, [Attached([5, 5, 6], None)], []),
     FromReference(7, [], [5, 5, 6]),
     FromReference(5, [], [5, 6]),
     FromReference(5, [], [6]),
     FromReference(3, [], [6])]
  }

  lemma Popping(depth: nat)
    ensures Route(POPPING, PoppingPaths(), depth)
  {
    hide Leads;
    var ps := PoppingPaths();
    ScopesPopped(depth);
    JumpsTaken(depth);
    assert Leads(ps[0], POPPING[0], ps[1], depth) && Leads(ps[2], POPPING[2], ps[3], depth);
  }

  lemma ScopesPopped(depth: nat)
    ensures var ps := PoppingPaths();
            Leads(ps[0], POPPING[0], ps[1], depth) && Leads(ps[1], POPPING[1], ps[2], depth)
  {
  }

  lemma JumpsTaken(depth: nat)
    ensures var ps := PoppingPaths();
            && Leads(ps[2], POPPING[2], ps[3], depth) && Leads(ps[3], POPPING[3], ps[4], depth)
            && Leads(ps[4], POPPING[4], ps[5], depth)
  {
  }

  // ---------------------------------------------------------------------------------------------
  // The blocks

  function FromAnywhere(n: NodeHandle, pre: seq<PartialScopedSymbol>, scopes: seq<NodeHandle>,
                        post: seq<PartialScopedSymbol>, scopePost: PartialScopeStack): PartialPath
  {
    Between(3, n, PartialSymbolStack(pre, Some(1)), PartialScopeStack(scopes, Some(1)),
            PartialSymbolStack(post, Some(1)), scopePost)
  }

  function PushingBlockPaths(): seq<PartialPath> {
    [FromAnywhere(3, [], [], [], ScopesFromVariable(1)),
     FromAnywhere(4, [], [], [Attached([5], Some(1))], ScopesFromVariable(1)),
     FromAnywhere(0, [], [], [Attached([5], Some(1))], ScopesFromVariable(1)),
     FromAnywhere(3, [], [5], [Attached([5], Some(1))], ScopesFromVariable(1))]
  }

  /** The attached scopes lack the scope that the precondition gains. */
  lemma PushingBlock(depth: nat)
    ensures Route(PUSHING, PushingBlockPaths(), depth)
  {
    hide Leads;
    var ps := PushingBlockPaths();
    ScopesAttached(depth);
    TargetChosen(depth);
    assert Leads(ps[0], PUSHING[0], ps[1], depth) && Leads(ps[2], PUSHING[2], ps[3], depth);
  }

  lemma ScopesAttached(depth: nat)
    ensures var ps := PushingBlockPaths();
            Leads(ps[0], PUSHING[0], ps[1], depth) && Leads(ps[1], PUSHING[1], ps[2], depth)
  {
    assert [5] + [] == [5];
  }

  lemma TargetChosen(depth: nat)
    ensures var ps := PushingBlockPaths();
            Leads(ps[2], PUSHING[2], ps[3], depth)
  {
    var ps := PushingBlockPaths();
    assert Leads(ps[2], PUSHING[2], ps[3], depth);
  }

  function PoppingBlockPaths(): seq<PartialPath> {
    [FromAnywhere(3, [], [], [], ScopesFromVariable(1)),
     FromAnywhere(0, [], [], [], ScopesFromVariable(1)),
     FromAnywhere(7, [Attached([], Some(2))], [6], [], ScopesFromVariable(2)),
     FromAnywhere(0, [Attached([], Some(2))], [6], [], ScopesFromVariable(2)),
     FromAnywhere(0, [Attached([5], Some(2))], [6], [], ScopesFromVariable(2)),
     FromAnywhere(3, [Attached([5, 5], Some(2))], [6], [], ScopesFromVariable(2))]
  }

  lemma PoppingBlock(depth: nat)
    ensures Route(POPPING, PoppingBlockPaths(), depth)
  {
    hide Leads;
    var ps := PoppingBlockPaths();
    FirstTaken(depth);
    FirstPopped(depth);
    JumpReached(depth);
    JumpTaken(0, [], depth);
    JumpTaken(3, [5], depth);
    assert [] + [5] == [5] && [5] + [5] == [5, 5];
    assert Leads(ps[3], POPPING[3], ps[4], depth) && Leads(ps[4], POPPING[4], ps[5], depth);
  }

  lemma FirstTaken(depth: nat)
    ensures var ps := PoppingBlockPaths();
            Leads(ps[0], POPPING[0], ps[1], depth)
  {
  }

  lemma FirstPopped(depth: nat)
    ensures var ps := PoppingBlockPaths();
            Leads(ps[1], POPPING[1], ps[2], depth)
  {
    var b := map[1 := PartialScopeStack([6], Some(1))];
    assert SubstSymbols([], b) == [];
  }

  lemma JumpReached(depth: nat)
    ensures var ps := PoppingBlockPaths();
            Leads(ps[2], POPPING[2], ps[3], depth)
  {
  }

  lemma JumpTaken(n: NodeHandle, scopes: seq<NodeHandle>, depth: nat)
    requires n == 0 || n == 3
    ensures Leads(FromAnywhere(0, [Attached(scopes, Some(2))], [6], [], ScopesFromVariable(2)), Along(5, n),
                  FromAnywhere(n, [Attached(scopes + [5], Some(2))], [6], [], ScopesFromVariable(2)), depth)
  {
    OneSymbol(Attached(scopes, Some(2)), map[2 := PartialScopeStack([5], Some(2))], 0);
  }

  // ---------------------------------------------------------------------------------------------
  // What the detector makes of them

  lemma BlocksBuilt(depth: nat)
    ensures Is(BlockPath(JUMPING, 3, PUSHING, depth), PushingBlockPaths()[3])
    ensures Is(BlockPath(JUMPING, 3, POPPING, depth), PoppingBlockPaths()[5])
  {
    hide Route, Stitch;
    PushingBlock(depth);
    PoppingBlock(depth);
    var p := FromNode(JUMPING, 3).value;
    RouteStitched(p, PUSHING, PushingBlockPaths(), depth);
    RouteStitched(p, POPPING, PoppingBlockPaths(), depth);
  }

  function PoppingCycle(): PartialPath {
    Between(3, 3, PartialSymbolStack([Attached([5, 5], Some(3))], Some(2)), PartialScopeStack([6], Some(2)),
            SymbolsFromVariable(2), ScopesFromVariable(3))
  }

  /** The last block makes a cycle that can be checked. */
  lemma PoppingCycleFound(p: PartialPath, depth: nat)
    requires Is(Ok(p), PoppingBlockPaths()[5])
    ensures Is(AppendPath(JUMPING, p, FromNode(JUMPING, 3).value, depth), PoppingCycle())
  {
    var noSymbols: SymbolBindings := map[];
    var noScopes: ScopeBindings := map[];
    var next := FromNode(JUMPING, 3).value;
    var lhs := p.RenamedApartFrom(next);
    OneSymbol(Attached([5, 5], Some(2)), noScopes, 1);
    assert Is(Ok(lhs), PoppingCycle());
    var t := Tables(map[1 := SymbolsFromVariable(2)], map[1 := ScopesFromVariable(3)]);
    assert AddSymbols(noSymbols, 1, SymbolsFromVariable(2), noScopes, depth) == Ok(Tables(t.symbols, noScopes));
    assert AddScopes(noScopes, 1, ScopesFromVariable(3), depth) == Ok(t.scopes);
    assert ComputeJoin(JUMPING, lhs, next, depth) == Ok(t);
    OneSymbol(Attached([5, 5], Some(3)), t.scopes, 0);
  }

  lemma PoppingCycleChecked(p: PartialPath, depth: nat)
    requires Is(Ok(p), PoppingCycle())
    ensures KindOf(JUMPING, p, depth).Ok?
  {
    var noSymbols: SymbolBindings := map[];
    var noScopes: ScopeBindings := map[];
    OneSymbol(Attached([5, 5], Some(3)), noScopes, 3);
    var rhs := p.RenamedApartFrom(p);
    assert AddSymbols(noSymbols, 2, rhs.symbolPre, noScopes, depth) == Ok(Tables(map[2 := rhs.symbolPre], noScopes));
    assert AddScopes(noScopes, 3, rhs.scopePre, depth) == Ok(map[3 := rhs.scopePre]);
  }

  lemma StacksDoNotMeet(depth: nat)
    requires depth > 0
    ensures UnifyStacks(PartialSymbolStack([Attached([5], Some(4))], Some(3)), ScopesFromVariable(4),
                        PartialSymbolStack([Attached([5, 5], Some(3))], Some(2)), PartialScopeStack([6], Some(2)),
                        depth) == Err(ScopeStackUnsatisfied)
  {
    var noSymbols: SymbolBindings := map[];
    var noScopes: ScopeBindings := map[];
    var (left, right) := (Attached([5], Some(4)), Attached([5, 5], Some(3)));
    var (l, r) := (SymbolsFromVariable(3), SymbolsFromVariable(2));
    var b := map[4 := PartialScopeStack([5], Some(3))];
    assert StripScopes([5], [5, 5]) == Some(Rests([], [5])) by {
      assert [5][1..] == [] && [5, 5][1..] == [5];
    }
    assert AddScopes(noScopes, 4, b[4], depth) == Ok(b);
    var unified := UnifySymbol(left, right, noScopes, depth).value;
    assert unified.scopes == b && [left][1..] == [] && [right][1..] == [];
    assert UnifySymbols(PartialSymbolStack([left], Some(3)), PartialSymbolStack([right], Some(2)), [], noSymbols,
                        noScopes, depth)
           == UnifySymbols(l, r, [] + [unified.symbol], noSymbols, b, depth);
    assert AddSymbols(noSymbols, 2, l, b, depth) == Ok(Tables(map[2 := l], b));
    assert StripScopes([6], [5]).None?;
    assert AddScopes(b, 4, PartialScopeStack([6], Some(2)), depth) == Err(ScopeStackUnsatisfied);
  }

  /** The first block leaves other scopes behind than the last block expects. */
  lemma BlocksDoNotJoin(p: PartialPath, q: PartialPath, depth: nat)
    requires Is(Ok(p), PushingBlockPaths()[3]) && Is(Ok(q), PoppingCycle()) && depth > 0
    ensures AppendPath(JUMPING, p, q, depth) == Err(ScopeStackUnsatisfied)
  {
    hide UnifyStacks;
    var noScopes: ScopeBindings := map[];
    OneSymbol(Attached([5], Some(1)), noScopes, 3);
    OneSymbol(Attached([5, 5], Some(3)), noScopes, 0);
    var lhs := p.RenamedApartFrom(q);
    assert lhs.symbolPost == PartialSymbolStack([Attached([5], Some(4))], Some(3)) &&
           lhs.scopePost == ScopesFromVariable(4);
    StacksDoNotMeet(depth);
  }

  const STITCHED := APPROACH + PUSHING + POPPING

  lemma BlocksCut(fragments: seq<Fragment>, f: Fragment)
    requires fragments == [f] + STITCHED && f.StartNode() == 2
    ensures fragments[12].EndNode() == 3 && |fragments| == 13
    ensures LastStart(fragments, 3) == Some(8) && fragments[8..] == POPPING
    ensures LastStart(fragments[..8], 3) == Some(5) && fragments[..8][5..] == PUSHING
  {
    assert fragments[8].StartNode() == 3;
    assert forall i :: 8 < i < 13 ==> fragments[i].StartNode() != 3;
    assert fragments[..8][5].StartNode() == 3;
    assert forall i :: 5 < i < 8 ==> fragments[..8][i].StartNode() != 3;
  }

  lemma RouteJoined(a: seq<Fragment>, ps: seq<PartialPath>, b: seq<Fragment>, qs: seq<PartialPath>, depth: nat)
    requires Route(a, ps, depth) && Route(b, qs, depth) && ps[|a|] == qs[0]
    ensures Route(a + b, ps[..|a|] + qs, depth)
  {
    hide Leads;
    var rs := ps[..|a|] + qs;
    forall i: nat, j: nat | i < j < |rs| && j == i + 1
      ensures Leads(rs[i], (a + b)[i], rs[j], depth)
    {
      if j <= |a| {
        assert rs[i] == ps[i] && rs[j] == ps[j];
      } else {
        assert rs[i] == qs[i - |a|] && rs[j] == qs[j - |a|] && j - |a| == i - |a| + 1;
      }
    }
  }

  lemma AllAppended(p: PartialPath, depth: nat)
    requires Is(Ok(p), ApproachPaths()[0])
    ensures Is(Stitch(JUMPING, p, STITCHED, depth), FromReference(3, [], [6]))
  {
    hide Route, Stitch;
    Approach(depth);
    Pushing(depth);
    Popping(depth);
    var onward := ApproachPaths()[..4] + PushingPaths();
    RouteJoined(APPROACH, ApproachPaths(), PUSHING, PushingPaths(), depth);
    assert onward[7] == PoppingPaths()[0] && onward[0] == ApproachPaths()[0];
    RouteJoined(APPROACH + PUSHING, onward, POPPING, PoppingPaths(), depth);
    RouteStitched(p, STITCHED, onward[..7] + PoppingPaths(), depth);
  }

  lemma Lifted()
    ensures JUMPING.AttachedScopesExist() && MayStart(JUMPING, 2, Nowhere) && FromNode(JUMPING, 3).Ok?
    ensures Is(ReferencePath(JUMPING, 2), ApproachPaths()[0])
  {
    var bindings := map[1 := EMPTY_SCOPES];
    OneSymbol(Attached([6], Some(1)), bindings, 0);
    assert [6] + [] == [6];
  }

  /** A path from a reference, with empty stacks, on which the detector fails. */
  lemma DetectorFails(depth: nat)
    requires depth > 0
    ensures JUMPING.AttachedScopesExist() && MayStart(JUMPING, 2, Nowhere) && ReferencePath(JUMPING, 2).Ok?
    ensures var p := ReferencePath(JUMPING, 2).value;
            && Stitch(JUMPING, p, STITCHED, depth).Ok? && Stitch(JUMPING, p, STITCHED, depth).value.endNode == 3
            && Detected(JUMPING, [PathFragment(p)] + STITCHED, depth) == Err(ScopeStackUnsatisfied)
  {
    hide FromNode, Stitch, LastStart, Route, BlockPath, AppendPath, KindOf;
    Lifted();
    var p := ReferencePath(JUMPING, 2).value;
    AllAppended(p, depth);
    BlocksBuilt(depth);
    BlocksCut([PathFragment(p)] + STITCHED, PathFragment(p));
    var popping := BlockPath(JUMPING, 3, POPPING, depth).value;
    PoppingCycleFound(popping, depth);
    var cycle := AppendPath(JUMPING, popping, FromNode(JUMPING, 3).value, depth).value;
    PoppingCycleChecked(cycle, depth);
    BlocksDoNotJoin(BlockPath(JUMPING, 3, PUSHING, depth).value, cycle, depth);
    var fragments := [PathFragment(p)] + STITCHED;
    var kinds := WithKind({}, KindOf(JUMPING, cycle, depth).value);
    assert Rounds(JUMPING, 3, fragments[..8], Some(cycle), kinds, depth) == Err(ScopeStackUnsatisfied);
  }

  // ---------------------------------------------------------------------------------------------
  // Before that, the detector lets the path go on

  function PushingCycle(): PartialPath {
    Between(3, 3, SymbolsFromVariable(2), PartialScopeStack([5], Some(2)),
            PartialSymbolStack([Attached([5], Some(2))], Some(2)), ScopesFromVariable(2))
  }

  lemma PushingCycleFound(p: PartialPath, depth: nat)
    requires Is(Ok(p), PushingBlockPaths()[3])
    ensures Is(AppendPath(JUMPING, p, FromNode(JUMPING, 3).value, depth), PushingCycle())
  {
    var noSymbols: SymbolBindings := map[];
    var noScopes: ScopeBindings := map[];
    var next := FromNode(JUMPING, 3).value;
    var lhs := p.RenamedApartFrom(next);
    OneSymbol(Attached([5], Some(1)), noScopes, 1);
    assert Is(Ok(lhs), PushingCycle());
    var t := Tables(map[1 := lhs.symbolPost], map[1 := ScopesFromVariable(2)]);
    assert AddSymbols(noSymbols, 1, lhs.symbolPost, noScopes, depth) == Ok(Tables(t.symbols, noScopes));
    assert AddScopes(noScopes, 1, ScopesFromVariable(2), depth) == Ok(t.scopes);
    assert ComputeJoin(JUMPING, lhs, next, depth) == Ok(t);
  }

  /** To go round again, the first block needs one more scope. */
  lemma PushingCycleChecked(p: PartialPath, depth: nat)
    requires Is(Ok(p), PushingCycle())
    ensures IsCyclic(JUMPING, p, depth) == Ok(Some(StrengthensPrecondition))
  {
    var noSymbols: SymbolBindings := map[];
    var noScopes: ScopeBindings := map[];
    OneSymbol(Attached([5], Some(2)), noScopes, 2);
    var rhs := p.RenamedApartFrom(p);
    assert rhs.symbolPre == SymbolsFromVariable(4) && rhs.scopePre == PartialScopeStack([5], Some(4));
    assert AddSymbols(noSymbols, 4, p.symbolPost, noScopes, depth) == Ok(Tables(map[4 := p.symbolPost], noScopes));
    assert AddScopes(noScopes, 2, rhs.scopePre, depth) == Ok(map[2 := rhs.scopePre]);
  }

  lemma PushingHasEdges(depth: nat)
    ensures BlockPath(JUMPING, 3, PUSHING, depth).Ok? ==> BlockPath(JUMPING, 3, PUSHING, depth).value.edges != []
  {
    hide FromNode;
    var n := |PUSHING| - 1;
    var front := BlockPath(JUMPING, 3, PUSHING[..n], depth);
    if front.Ok? {
      EdgeRecorded(front.value, PUSHING[n], depth);
    }
  }

  lemma EdgeRecorded(p: PartialPath, f: Fragment, depth: nat)
    requires f.EdgeFragment?
    ensures AppendFragment(JUMPING, p, f, depth).Ok? ==> AppendFragment(JUMPING, p, f, depth).value.edges != []
  {
  }

  lemma JoinedHasEdges(p: PartialPath, q: PartialPath, depth: nat)
    requires p.edges != [] && AppendPath(JUMPING, p, q, depth).Ok?
    ensures AppendPath(JUMPING, p, q, depth).value.edges != []
  {
  }

  lemma StartsAtThree(f: Fragment, k: nat)
    requires k <= |STITCHED| && f.StartNode() == 2
    ensures k <= 4 ==> LastStart([f] + STITCHED[..k], 3) == None
    ensures k == 7 ==> LastStart([f] + STITCHED[..k], 3) == Some(5) && ([f] + STITCHED[..k])[5..] == PUSHING
    ensures k == 7 ==> LastStart(([f] + STITCHED[..k])[..5], 3) == None
  {
    var fragments := [f] + STITCHED[..k];
    if k <= 4 {
      assert forall i :: 0 <= i < |fragments| ==> fragments[i].StartNode() != 3;
    }
    if k == 7 {
      assert fragments[5].StartNode() == 3 && forall i :: 5 < i < 8 ==> fragments[i].StartNode() != 3;
      assert forall i :: 0 <= i < 5 ==> fragments[..5][i].StartNode() != 3;
    }
  }

  /** Where the path comes to node 3 for the first time, there is no cycle; the second time, only a harmless one. */
  lemma DetectorLetsPass(p: PartialPath, depth: nat)
    requires p.startNode == 2
    ensures Detected(JUMPING, [PathFragment(p)] + STITCHED[..4], depth) == Ok({})
    ensures Detected(JUMPING, [PathFragment(p)] + STITCHED[..7], depth) == Ok({StrengthensPrecondition})
  {
    hide FromNode, LastStart, BlockPath, AppendPath, IsCyclic;
    var f := PathFragment(p);
    StartsAtThree(f, 4);
    StartsAtThree(f, 7);
    BlocksBuilt(depth);
    Lifted();
    var block := BlockPath(JUMPING, 3, PUSHING, depth).value;
    PushingHasEdges(depth);
    PushingCycleFound(block, depth);
    var cycle := AppendPath(JUMPING, block, FromNode(JUMPING, 3).value, depth).value;
    JoinedHasEdges(block, FromNode(JUMPING, 3).value, depth);
    PushingCycleChecked(cycle, depth);
    var fragments := [f] + STITCHED[..7];
    assert fragments[7].EndNode() == 3 && ([f] + STITCHED[..4])[4].EndNode() == 3;
    assert WithKind({}, KindOf(JUMPING, cycle, depth).value) == {StrengthensPrecondition};
    assert Rounds(JUMPING, 3, fragments[..5], Some(cycle), {StrengthensPrecondition}, depth) ==
           Ok({StrengthensPrecondition});
  }
}
