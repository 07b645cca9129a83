/**
 A search for complete paths that never ends, although its one path goes round a cycle and comes back to the same
 stacks.  The cycle is closed by a jump: each of its nodes has one edge that leads to it, so none of them is taken
 for a join, and the cycle check looks at none.
 */
module EndlessSearch {
  import opened Wrappers
  import opened Graphs
  import opened Patterns
  import opened Unification
  import opened PartialPaths
  import opened Exactness
  import opened AppendExactness
  import opened Stitching
  import opened CycleDetection
  import opened SimilarPaths
  import opened Worklists
  import opened Stitcher
  import opened SearchCoverage
  import opened SegmentSearch
  import opened PathFinding
  import opened RepeatChecks

  /** Node 0 is a reference; from scope 1, the nodes 2 and 3 put scope 1 on the scope stack, and the jump 4 takes it. */
  const ENDLESS := Graph([
    PushSymbol(1, true), Scope(true), PushScopedSymbol(2, Some(1), false), PopScopedSymbol(2, false), JumpTo])

  /** One edge leads from each node but the jump to the next. */
  function Next(n: NodeHandle): seq<Fragment> {
    if n < 4 then [EdgeFragment(Edge(n, n + 1, 0))] else []
  }

  function LoopSearch(depth: nat): Search {
    Search(
      ENDLESS,
      (p: PartialPath) => Next(p.endNode),
      (n: NodeHandle) => false,
      (p: PartialPath) => true,
      (n: NodeHandle) => ENDLESS.Kind(n).IsReference(),
      Nowhere,
      true,
      depth)
  }

  lemma EndlessSensible(depth: nat)
    ensures Sensible(LoopSearch(depth)) && SeeksCompletePaths(LoopSearch(depth))
    ensures JoinsKnown(LoopSearch(depth))
  {
    var c := LoopSearch(depth);
    ScopesExist();
    forall p, f | IsCandidate(c, p, f)
      ensures Fits(c, p, f)
    {
      EdgeDescribed(ENDLESS, f.edge);
    }
  }

  lemma ScopesExist()
    ensures ENDLESS.AttachedScopesExist()
  {
    forall n: NodeHandle | ENDLESS.Kind(n).PushScopedSymbol?
      ensures n == 2
    {
    }
  }

  // ---------------------------------------------------------------------------------------------
  // The path on its way round

  const REFERENCE := PartialScopedSymbol(1, None)
  const PUSHED := PartialScopedSymbol(2, Some(PartialScopeStack([1], None)))

  function Post(n: NodeHandle): PartialSymbolStack {
    PartialSymbolStack(if n == 2 then [PUSHED, REFERENCE] else [REFERENCE], None)
  }

  /** The path at node `n`, whatever its edges. */
  function At(n: NodeHandle, edges: seq<PartialPathEdge>): PartialPath {
    PartialPath(0, n, EMPTY_SYMBOLS, EMPTY_SCOPES, Post(n),
                if n == 3 then PartialScopeStack([1], None) else EMPTY_SCOPES, edges)
  }

  predicate IsAt(p: PartialPath, n: NodeHandle) {
    p == At(n, p.edges)
  }

  /** Where it goes next: from node 3 over the jump back to scope 1. */
  function After(n: NodeHandle): NodeHandle {
    if n == 3 then 1 else n + 1
  }

  lemma GoesOn(n: NodeHandle, edges: seq<PartialPathEdge>, depth: nat) returns (more: seq<PartialPathEdge>)
    requires n < 4
    ensures AppendFragment(ENDLESS, At(n, edges), Next(n)[0], depth) == Ok(At(After(n), more))
  {
    var none: seq<NodeHandle> := [];
    assert [1] + none == [1] && [1][1..] == none;
    assert [PUSHED] + [REFERENCE] == [PUSHED, REFERENCE] && [PUSHED, REFERENCE][1..] == [REFERENCE];
    more := edges + [PartialPathEdge(n, 0)] + if n == 3 then [PartialPathEdge(4, 0)] else [];
    assert edges + [PartialPathEdge(n, 0)] + [] == edges + [PartialPathEdge(n, 0)];
  }

  lemma ReferenceAt()
    ensures ReferencePath(ENDLESS, 0) == Ok(At(0, []))
  {
    var none: seq<PartialScopedSymbol>, b: ScopeBindings := [], map[1 := EMPTY_SCOPES];
    assert SubstSymbols([REFERENCE], b) == [REFERENCE] && SubstSymbols(none, b) == none;
    assert [REFERENCE] + none == [REFERENCE] && none + none == none;
    var nowhere: seq<NodeHandle> := [];
    assert nowhere + nowhere == nowhere;
    var p := FromNode(ENDLESS, 0).value;
    assert p.symbolPost == PartialSymbolStack([REFERENCE], Some(1));
    assert SubstStack(p.symbolPost, map[1 := EMPTY_SYMBOLS], b) == PartialSymbolStack([REFERENCE], None);
    assert SubstStack(p.symbolPre, map[1 := EMPTY_SYMBOLS], b) == EMPTY_SYMBOLS;
    assert SubstScopes(p.scopePost, b) == EMPTY_SCOPES;
  }

  // ---------------------------------------------------------------------------------------------
  // The run

  /** The node that the path has come to after `n` steps. */
  function Station(n: nat): NodeHandle {
    if n == 0 then 0 else 1 + (n - 1) % 3
  }

  ghost function LoopStart(detectSimilar: bool): Fifo<Seen, Item> {
    Start(ReferenceStarts(ENDLESS, [0]), detectSimilar)
  }

  /** There is one path to extend, it has never been one of many, and it has come to this node. */
  ghost predicate Alone(f: Fifo<Seen, Item>, n: nat) {
    && |f.pending| == 1 && !f.pending[0].hasSplit
    && IsAt(f.pending[0].path, Station(n))
    && (n == 0 ==> f.pending[0] == Item(At(0, []), [PathFragment(At(0, []))], false))
  }

  /** The cycle check lets it pass: only the start is looked at. */
  lemma LetPass(depth: nat, item: Item, n: nat)
    requires IsAt(item.path, Station(n))
    requires n == 0 ==> item == Item(At(0, []), [PathFragment(At(0, []))], false)
    ensures !Discontinued(LoopSearch(depth), item) && !CheckFails(LoopSearch(depth), item)
  {
    hide Detected;
    if n == 0 {
      ScopesExist();
      ReferenceAt();
      InitialNotCyclic(ENDLESS, 0, Nowhere, depth);
    }
  }

  lemma OneExtension(depth: nat, item: Item, n: nat) returns (j: Item)
    requires IsAt(item.path, Station(n))
    ensures Extensions(LoopSearch(depth), item, Next(item.path.endNode)) == [j]
    ensures j.hasSplit == item.hasSplit && IsAt(j.path, Station(n + 1))
  {
    hide AppendFragment;
    var more := GoesOn(Station(n), item.path.edges, depth);
    var f := Next(Station(n))[0];
    assert Next(item.path.endNode) == [f] && [f][..0] == [];
    j := Item(At(After(Station(n)), more), item.fragments + [f], item.hasSplit);
    assert Extensions(LoopSearch(depth), item, []) == [];
    assert [] + [j] == [j];
  }

  lemma StepAlone(depth: nat, f: Fifo<Seen, Item>, n: nat)
    requires Alone(f, n)
    ensures Alone(Worklists.Step(RulesOf(LoopSearch(depth)), f), n + 1)
  {
    hide Discontinued, Extensions, IsAt;
    var c, item := LoopSearch(depth), f.pending[0];
    LetPass(depth, item, n);
    var j := OneExtension(depth, item, n);
    var offered := WithSplit([j], item.hasSplit || |[j]| > 1);
    assert offered == [j] && [j][..0] == [];
    assert KeepItems(c, f.state, []) == Kept(f.state, []);
    assert KeepItems(c, f.state, [j]) == Kept(f.state, [j]);
    assert f.pending[1..] == [] && [] + [j] == [j];
    assert Added(RulesOf(c), f) == [j];
  }

  lemma StartsAlone(detectSimilar: bool)
    ensures Alone(LoopStart(detectSimilar), 0)
  {
    ReferenceAt();
    assert [0][..0] == [] && ReferenceStarts(ENDLESS, []) == [];
    assert ReferenceStarts(ENDLESS, [0]) == [At(0, [])];
  }

  lemma {:induction false} RunAlone(depth: nat, detectSimilar: bool, n: nat)
    ensures Alone(Steps(RulesOf(LoopSearch(depth)), LoopStart(detectSimilar), n), n)
  {
    hide RulesOf, Worklists.Step;
    if n == 0 {
      StartsAlone(detectSimilar);
    } else {
      hide Alone;
      RunAlone(depth, detectSimilar, n - 1);
      StepAlone(depth, Steps(RulesOf(LoopSearch(depth)), LoopStart(detectSimilar), n - 1), n - 1);
    }
  }

  /**
   However many steps the search takes, with or without similar path detection, there is more to do, and the
   detector does not fail.  So the search ends only when its caller gives up.
   */
  lemma NeverEnds(depth: nat, detectSimilar: bool, n: nat)
    ensures !SearchCoverage.IsComplete(LoopSearch(depth), LoopStart(detectSimilar), n)
    ensures !PanicsAt(LoopSearch(depth), LoopStart(detectSimilar), n)
  {
    hide RulesOf, CheckFails;
    RunAlone(depth, detectSimilar, n);
    LetPass(depth, Steps(RulesOf(LoopSearch(depth)), LoopStart(detectSimilar), n).pending[0], n);
  }

  /** Yet every third step takes up a path that is equal to the one before but for its edges. */
  lemma ComesRound(depth: nat, detectSimilar: bool, n: nat)
    requires n > 0
    ensures var before := Steps(RulesOf(LoopSearch(depth)), LoopStart(detectSimilar), n).pending;
            var after := Steps(RulesOf(LoopSearch(depth)), LoopStart(detectSimilar), n + 3).pending;
            before != [] && after != [] && Alike(before[0].path, after[0].path)
  {
    hide RulesOf, Steps, IsAt;
    RunAlone(depth, detectSimilar, n);
    RunAlone(depth, detectSimilar, n + 3);
    assert Station(n) == Station(n + 3);
    AlikeThere(Steps(RulesOf(LoopSearch(depth)), LoopStart(detectSimilar), n).pending[0].path,
               Steps(RulesOf(LoopSearch(depth)), LoopStart(detectSimilar), n + 3).pending[0].path, Station(n));
  }

  lemma AlikeThere(p: PartialPath, q: PartialPath, n: NodeHandle)
    requires IsAt(p, n) && IsAt(q, n)
    ensures Alike(p, q)
  {
  }
}
