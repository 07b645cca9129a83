/**
 The cycle detector that accompanies every path during stitching.  It rebuilds candidate cycles block
 by block from the fragments that have been appended.  On a path that was stitched successfully it does not
 fail and reports the kinds of exactly those suffixes that start where the path ends, as long as none of
 these passes a jump.
 */
module CycleDetection {
  import opened Wrappers
  import opened Graphs
  import opened Patterns
  import opened Unification
  import opened CanonicalUnification
  import opened CanonicalJoin
  import opened PartialPaths
  import opened Exactness
  import opened AppendExactness
  import opened Renaming
  import opened Composition
  import opened Concatenation
  import opened Settling
  import opened Stitching
  import opened Cyclicity

  // ---------------------------------------------------------------------------------------------
  // Initial paths

  /** Complete paths are sought from a reference, with empty stacks. */
  function ReferencePath(g: Graph, n: NodeHandle): Result<PartialPath, PathResolutionError> {
    match FromNode(g, n)
    case Err(e) => Err(e)
    case Ok(p) => Ok(p.WithoutPreconditionVariables())
  }

  /** The initial path that a search starts from, by origin. */
  function InitialPath(g: Graph, n: NodeHandle, o: Origin): Result<PartialPath, PathResolutionError> {
    if o == Anywhere then FromNode(g, n) else ReferencePath(g, n)
  }

  predicate Pushes(node: Node) {
    node.PushSymbol? || node.PushScopedSymbol?
  }

  /** Where a search may start: complete paths start at references, which are push nodes. */
  predicate MayStart(g: Graph, n: NodeHandle, o: Origin) {
    !g.Kind(n).JumpTo? && (o == Nowhere ==> Pushes(g.Kind(n)))
  }

  ghost predicate FromEmptyStacks(p: PartialPath) {
    p.symbolPre == EMPTY_SYMBOLS && p.scopePre == EMPTY_SCOPES
  }

  ghost predicate Shaped(p: PartialPath, o: Origin) {
    if o == Anywhere then Open(p) else FromEmptyStacks(p)
  }

  lemma InitialSummary(g: Graph, n: NodeHandle, o: Origin)
    requires g.AttachedScopesExist() && MayStart(g, n, o)
    ensures var r := InitialPath(g, n, o);
            r.Ok? && Summary(g, r.value, [n], o) && Shaped(r.value, o) && r.value.edges == []
  {
    FromNodeSummary(g, n);
    if o == Nowhere {
      var p, q := FromNode(g, n).value, ReferencePath(g, n).value;
      var t := Tables(map[1 := EMPTY_SYMBOLS], map[1 := EMPTY_SCOPES]);
      assert q == p.Substituted(t);
      forall val
        ensures Before(q, val) == Stacks([], []) && Run(g, [n], Before(q, val)) == Some(After(q, val))
      {
        var through := Through(val, t.symbols, t.scopes);
        EvalSubstStack(p.symbolPre, val, t.symbols, t.scopes);
        EvalSubstStack(p.symbolPost, val, t.symbols, t.scopes);
        EvalSubstScopes(p.scopePre, val, t.symbols, t.scopes);
        EvalSubstScopes(p.scopePost, val, t.symbols, t.scopes);
        assert Run(g, [n], Before(p, through)) == Some(After(p, through));
      }
      assert Before(q, NOTHING) == Stacks([], []);
      SubstScopesExist(g, p.symbolPost.symbols, t.scopes);
    }
  }

  /** Appending an initial path to the path of its node alone gives that initial path again. */
  lemma AppendInitial(g: Graph, n: NodeHandle, o: Origin, depth: nat)
    requires g.AttachedScopesExist() && MayStart(g, n, o)
    ensures FromNode(g, n).Ok? && InitialPath(g, n, o).Ok?
    ensures var r := AppendPath(g, FromNode(g, n).value, InitialPath(g, n, o).value, depth);
            r.Ok? && Summary(g, r.value, [n], o) && Shaped(r.value, o) && r.value.edges == []
  {
    FromNodeSummary(g, n);
    InitialSummary(g, n, o);
    var p, c := FromNode(g, n).value, InitialPath(g, n, o).value;
    if o == Anywhere {
      AppendPathSummary(g, p, [n], c, [n], depth, Anywhere);
      ExactFeasible(g, p, [n], Anywhere);
      assert Splice([n], [n]) == [n];
    } else {
      var lhs := p.RenamedApartFrom(c);
      assert lhs.symbolPre == p.symbolPre && lhs.scopePre == p.scopePre;
      var post := HalfOpenPost(g.Kind(n), lhs.symbolPost).value;
      assert post == SymbolsFromVariable(1) && lhs.scopePost == ScopesFromVariable(1);
      var t := Tables(map[1 := EMPTY_SYMBOLS], map[1 := EMPTY_SCOPES]);
      UnifyWithEmpty(post, lhs.scopePost, depth);
      assert HalfOpenPre(g.Kind(n), c.symbolPre, c.scopePre) == Some(PreStacks(EMPTY_SYMBOLS, EMPTY_SCOPES));
      assert ComputeJoin(g, lhs, c, depth) == Ok(t);
      var r := AppendPath(g, p, c, depth).value;
      PostVariablesOccurInPre(g, c, [n], o);
      UnsubstitutedPost(c, t);
      SameConditions(g, c, r, [n], o);
    }
  }

  lemma UnifyWithEmpty(ls: PartialSymbolStack, lc: PartialScopeStack, depth: nat)
    requires ls == SymbolsFromVariable(1) && lc == ScopesFromVariable(1)
    ensures UnifyStacks(ls, lc, EMPTY_SYMBOLS, EMPTY_SCOPES, depth) ==
            Ok(Tables(map[1 := EMPTY_SYMBOLS], map[1 := EMPTY_SCOPES]))
  {
    var noSymbols: SymbolBindings := map[];
    var noScopes: ScopeBindings := map[];
    assert MatchTails(ls, EMPTY_SYMBOLS) == Ok(BindTail(1, EMPTY_SYMBOLS, ls));
    assert AddSymbols(noSymbols, 1, EMPTY_SYMBOLS, noScopes, depth) == Ok(Tables(map[1 := EMPTY_SYMBOLS], noScopes));
    assert MatchScopes(lc, EMPTY_SCOPES) == Ok(Bind(1, EMPTY_SCOPES, lc));
    assert AddScopes(noScopes, 1, EMPTY_SCOPES, depth) == Ok(map[1 := EMPTY_SCOPES]);
  }

  lemma ScopeVariableOccurs(p: PartialScopeStack)
    ensures p.variable.Some? ==> p.variable.value in p.ScopeVariables()
  {
  }

  lemma UnsubstitutedPost(c: PartialPath, t: Tables)
    requires FromEmptyStacks(c)
    requires c.symbolPost.SymbolVariables() <= c.symbolPre.SymbolVariables() && ScopesOfPost(c) <= ScopesOfPre(c)
    ensures SubstStack(c.symbolPost, t.symbols, t.scopes) == c.symbolPost
    ensures SubstScopes(c.scopePost, t.scopes) == c.scopePost
  {
    VariableOccurs(c.symbolPost);
    ScopeVariableOccurs(c.scopePost);
    SubstUntouched(c.symbolPost.symbols, t.scopes);
  }

  // ---------------------------------------------------------------------------------------------
  // Fragment lists

  /** The fragments of a stitched path, oldest first: an initial path and what was appended to it. */
  ghost predicate Appended(g: Graph, fragments: seq<Fragment>, us: seq<Walk>, o: Origin) {
    && |fragments| == |us| > 0
    && StartsWith(g, fragments[0], us[0], o)
    && DescribeAll(g, fragments[1..], us[1..])
    && Consecutive(g, [us[0][0]], us, o)
  }

  ghost predicate StartsWith(g: Graph, f: Fragment, u: Walk, o: Origin) {
    && MayStart(g, u[0], o) && u == [u[0]]
    && InitialPath(g, u[0], o).Ok?
    && f == PathFragment(InitialPath(g, u[0], o).value)
  }

  /** Fragments that no jump comes between: a stitched path, or a later part of one. */
  ghost predicate Appendages(g: Graph, fragments: seq<Fragment>, us: seq<Walk>, o: Origin) {
    && |fragments| == |us| > 0
    && (if o == Anywhere then Describes(g, fragments[0], us[0]) else StartsWith(g, fragments[0], us[0], o))
    && DescribeAll(g, fragments[1..], us[1..])
    && AllPlain(g, us) && Meet(us[0][0], us)
  }

  lemma AppendagesLinked(g: Graph, fragments: seq<Fragment>, us: seq<Walk>, o: Origin)
    requires Appendages(g, fragments, us, o)
    ensures |fragments| == |us| && Linked(us)
  {
  }

  lemma AppendageNodes(g: Graph, fragments: seq<Fragment>, us: seq<Walk>, o: Origin, i: nat)
    requires g.AttachedScopesExist() && Appendages(g, fragments, us, o) && i < |us|
    ensures fragments[i].StartNode() == us[i][0] && fragments[i].EndNode() == Last(us[i])
    ensures !g.Kind(us[i][0]).JumpTo? && !g.Kind(Last(us[i])).JumpTo?
    ensures i > 0 || o == Anywhere ==> Describes(g, fragments[i], us[i])
  {
    if i == 0 {
      if o == Nowhere {
        InitialSummary(g, us[0][0], o);
      }
    } else {
      assert fragments[1..][i - 1] == fragments[i] && us[1..][i - 1] == us[i];
    }
  }

  lemma {:induction false} StitchCons(g: Graph, path: PartialPath, fragments: seq<Fragment>, depth: nat)
    requires fragments != []
    ensures Stitch(g, path, fragments, depth) ==
            match AppendFragment(g, path, fragments[0], depth)
            case Err(e) => Err(e)
            case Ok(p) => Stitch(g, p, fragments[1..], depth)
  {
    var k := |fragments| - 1;
    if k > 0 {
      StitchCons(g, path, fragments[..k], depth);
      assert fragments[..k][1..] == fragments[1..][..k - 1];
    }
  }

  lemma {:induction false} EdgeCountsCons(fragments: seq<Fragment>)
    requires fragments != []
    ensures EdgeCounts(fragments) == EdgeCount(fragments[0]) + EdgeCounts(fragments[1..])
  {
    var k := |fragments| - 1;
    if k > 0 {
      EdgeCountsCons(fragments[..k]);
      assert fragments[..k][1..] == fragments[1..][..k - 1];
    }
  }

  lemma {:induction false} EdgeCountsConcat(a: seq<Fragment>, b: seq<Fragment>)
    ensures EdgeCounts(a + b) == EdgeCounts(a) + EdgeCounts(b)
    decreases |b|
  {
    if b == [] {
      assert a + b == a;
    } else {
      assert (a + b)[..|a + b| - 1] == a + b[..|b| - 1];
      EdgeCountsConcat(a, b[..|b| - 1]);
    }
  }

  /** What is known of paths whose fragments include the initial one, or leave it out. */
  function OriginAt(o: Origin, i: nat): Origin {
    if i == 0 then o else Anywhere
  }

  /** The walks of a stitch that has succeeded can be run one after the other. */
  ghost predicate Runnable(g: Graph, us: seq<Walk>, o: Origin) {
    us != [] && Meet(us[0][0], us) && Feasible(g, SpliceAll([us[0][0]], us), o)
  }

  predicate Linked(us: seq<Walk>) {
    us != [] && Meet(us[0][0], us)
  }

  /** The walk that fragments `i` up to `j` make up. */
  function PartWalk(us: seq<Walk>, i: nat, j: nat): (w: Walk)
    requires Linked(us) && i < j <= |us|
    ensures w[0] == us[i][0] && Last(w) == Last(us[j - 1])
  {
    PartMeets(us, i, j);
    SpliceAll([us[i][0]], us[i..j])
  }

  lemma PartMeets(us: seq<Walk>, i: nat, j: nat)
    requires Linked(us) && i < j <= |us|
    ensures Meet(us[i][0], us[i..j])
  {
    var n := us[0][0];
    assert us == us[..j] + us[j..] && us[..j] == us[..i] + us[i..j];
    SpliceAllConcat([n], us[..j], us[j..]);
    SpliceAllConcat([n], us[..i], us[i..j]);
    MeetAt(n, us, i);
  }

  lemma PartJoin(us: seq<Walk>, i: nat, k: nat, j: nat)
    requires Linked(us) && i < k < j <= |us|
    ensures Last(PartWalk(us, i, k)) == PartWalk(us, k, j)[0]
    ensures Splice(PartWalk(us, i, k), PartWalk(us, k, j)) == PartWalk(us, i, j)
  {
    PartMeets(us, i, k);
    PartMeets(us, k, j);
    PartMeets(us, i, j);
    var n, m := us[i][0], us[k][0];
    assert us[i..j] == us[i..k] + us[k..j];
    SpliceAllConcat([n], us[i..k], us[k..j]);
    MeetAt(n, us[i..j], k - i);
    assert us[i..j][..k - i] == us[i..k];
    var w := PartWalk(us, i, k);
    assert Splice(w, [m]) == w;
    SpliceAllOnto(w, [m], us[k..j]);
  }

  /** `p` is built from fragments `i` up to `j`. */
  ghost predicate Built(g: Graph, fragments: seq<Fragment>, us: seq<Walk>, o: Origin, i: nat, j: nat, p: PartialPath)
    requires Linked(us) && i < j <= |us| == |fragments|
  {
    && Summary(g, p, PartWalk(us, i, j), OriginAt(o, i))
    && Shaped(p, OriginAt(o, i))
    && |p.edges| == EdgeCounts(fragments[i..j])
  }

  lemma RunnablePart(g: Graph, us: seq<Walk>, o: Origin, i: nat, j: nat)
    requires Runnable(g, us, o) && i < j <= |us|
    ensures Meet(us[i][0], us[i..j])
    ensures Feasible(g, PartWalk(us, i, j), OriginAt(o, i))
  {
    var n := us[0][0];
    FeasibleRun(g, [n], us, i, j, o);
    MeetAt(n, us, i);
    if i == 0 {
      FeasibleTake(g, [n], us, j, o);
      assert us[0..j] == us[..j];
    }
  }

  lemma {:induction false} MeetAt(n: NodeHandle, us: seq<Walk>, i: nat)
    requires Meet(n, us) && i < |us|
    ensures EndAt(n, us[..i]) == us[i][0]
  {
    if i < |us| - 1 {
      MeetAt(n, us[..|us| - 1], i);
      assert us[..|us| - 1][..i] == us[..i];
    }
  }

  /** Stitching any block of a runnable list from its start node succeeds and builds the block. */
  lemma BlockBuilds(g: Graph, fragments: seq<Fragment>, us: seq<Walk>, o: Origin, i: nat, j: nat, depth: nat)
    requires g.AttachedScopesExist() && Appendages(g, fragments, us, o) && Runnable(g, us, o)
    requires i < j <= |us|
    ensures FromNode(g, us[i][0]).Ok?
    ensures var r := Stitch(g, FromNode(g, us[i][0]).value, fragments[i..j], depth);
            r.Ok? && Built(g, fragments, us, o, i, j, r.value)
  {
    hide FromNode, Summary, Stitch, Feasible, Runnable, Open, Describes;
    var n := us[i][0];
    RunnablePart(g, us, o, i, j);
    FromNodeSummary(g, n);
    AppendageNodes(g, fragments, us, o, i);
    if i > 0 || o == Anywhere {
      forall k | 0 <= k < j - i
        ensures Describes(g, fragments[i..j][k], us[i..j][k])
      {
        AppendageNodes(g, fragments, us, o, i + k);
      }
      StitchPlain(g, FromNode(g, n).value, [n], fragments[i..j], us[i..j], depth, Anywhere);
    } else {
      FirstBlockBuilds(g, fragments, us, j, depth);
    }
  }

  lemma FirstBlockBuilds(g: Graph, fragments: seq<Fragment>, us: seq<Walk>, j: nat, depth: nat)
    requires g.AttachedScopesExist() && Appendages(g, fragments, us, Nowhere)
    requires 0 < j <= |us| && FromNode(g, us[0][0]).Ok?
    requires Meet(us[0][0], us[0..j]) && Feasible(g, SpliceAll([us[0][0]], us[0..j]), Nowhere)
    ensures var r := Stitch(g, FromNode(g, us[0][0]).value, fragments[0..j], depth);
            r.Ok? && Built(g, fragments, us, Nowhere, 0, j, r.value)
  {
    hide AppendPath, FromNode, InitialPath, Summary, Shaped, Stitch, Feasible;
    var n := us[0][0];
    var block, walks := fragments[0..j], us[0..j];
    AppendInitial(g, n, Nowhere, depth);
    InitialSummary(g, n, Nowhere);
    var first := AppendPath(g, FromNode(g, n).value, InitialPath(g, n, Nowhere).value, depth).value;
    assert block[0] == fragments[0];
    StitchCons(g, FromNode(g, n).value, block, depth);
    assert Stitch(g, FromNode(g, n).value, block, depth) == Stitch(g, first, block[1..], depth);
    EdgeCountsCons(block);
    assert walks == [[n]] + walks[1..];
    SpliceAllFirst(n, walks);
    assert block[1..] == fragments[1..][..j - 1] && walks[1..] == us[1..][..j - 1];
    StitchOntoFirst(g, first, n, Nowhere, block[1..], walks[1..], depth);
  }

  lemma SpliceAllFirst(n: NodeHandle, us: seq<Walk>)
    requires us != [] && us[0] == [n] && Meet(n, us)
    ensures Meet(n, us[1..]) && SpliceAll([n], us) == SpliceAll([n], us[1..])
  {
    assert us == [[n]] + us[1..];
    SpliceAllConcat([n], [[n]], us[1..]);
    assert SpliceAll([n], [[n]]) == [n] && EndAt(n, [[n]]) == n;
  }

  lemma StitchOntoFirst(g: Graph, first: PartialPath, n: NodeHandle, o: Origin, fragments: seq<Fragment>,
                        us: seq<Walk>, depth: nat)
    requires g.AttachedScopesExist()
    requires Summary(g, first, [n], o) && Shaped(first, o) && first.edges == [] && !g.Kind(n).JumpTo?
    requires DescribeAll(g, fragments, us) && AllPlain(g, us) && Meet(n, us) && Feasible(g, SpliceAll([n], us), o)
    ensures var r := Stitch(g, first, fragments, depth);
            && r.Ok? && Summary(g, r.value, SpliceAll([n], us), o) && Shaped(r.value, o)
            && |r.value.edges| == EdgeCounts(fragments)
  {
    StitchPlain(g, first, [n], fragments, us, depth, o);
    if o == Nowhere {
      PlainJourney(g, [n], us, o);
      StitchFromEmptyStacks(g, first, [n], fragments, us, depth, o);
    }
  }

  /** A path from empty stacks stays one. */
  lemma {:induction false} StitchFromEmptyStacks(g: Graph, path: PartialPath, w: Walk, fragments: seq<Fragment>,
                                                 us: seq<Walk>, depth: nat, o: Origin)
    requires g.AttachedScopesExist()
    requires Summary(g, path, w, o) && !g.Kind(Last(w)).JumpTo?
    requires DescribeAll(g, fragments, us) && Consecutive(g, w, us, o)
    requires FromEmptyStacks(path) && Stitch(g, path, fragments, depth).Ok?
    ensures FromEmptyStacks(Stitch(g, path, fragments, depth).value)
    decreases |us|
  {
    hide Summary, Passable, Describes, AppendFragment, FromEmptyStacks, Settle;
    if us != [] {
      var k := |us| - 1;
      StitchFromEmptyStacks(g, path, w, fragments[..k], us[..k], depth, o);
      StitchSummary(g, path, w, fragments[..k], us[..k], depth, o);
      AppendFromEmptyStacks(g, Stitch(g, path, fragments[..k], depth).value, Journey(g, w, us[..k], o),
                            fragments[k], us[k], depth, o);
    }
  }

  lemma AppendFromEmptyStacks(g: Graph, path: PartialPath, w: Walk, f: Fragment, u: Walk, depth: nat, o: Origin)
    requires Summary(g, path, w, o) && Describes(g, f, u) && Last(w) == u[0]
    requires FromEmptyStacks(path) && AppendFragment(g, path, f, depth).Ok?
    ensures FromEmptyStacks(AppendFragment(g, path, f, depth).value)
  {
    PostVariablesOccurInPre(g, path, w, o);
    match f
    case EdgeFragment(e) =>
      VariableOccurs(path.symbolPost);
    case PathFragment(p) =>
      var lhs := path.RenamedApartFrom(p);
      assert FromEmptyStacks(lhs);
  }

  // ---------------------------------------------------------------------------------------------
  // The cycles of a path, by definition

  /** The fragments from the `i`th on, stitched one by one. */
  function SuffixPath(g: Graph, fragments: seq<Fragment>, i: nat, depth: nat): Result<PartialPath, PathResolutionError>
    requires i < |fragments|
  {
    match FromNode(g, fragments[i].StartNode())
    case Err(e) => Err(e)
    case Ok(p) => Stitch(g, p, fragments[i..], depth)
  }

  /** The kind of cycle that the fragments from the `i`th on make up, if any. */
  function CycleOf(g: Graph, fragments: seq<Fragment>, i: nat, depth: nat): Option<Cyclicity>
    requires i < |fragments|
  {
    if fragments[i].StartNode() != fragments[|fragments| - 1].EndNode() then None
    else
      var p := SuffixPath(g, fragments, i, depth);
      if p.Err? || p.value.edges == [] then None
      else
        var kind := IsCyclic(g, p.value, depth);
        if kind.Ok? then kind.value else None
  }

  /** The kinds of all cycles that the fragments from the `k`th or a later one on make up. */
  function CyclesFrom(g: Graph, fragments: seq<Fragment>, k: nat, depth: nat): set<Cyclicity>
    requires k <= |fragments|
  {
    set i | k <= i < |fragments| && CycleOf(g, fragments, i, depth).Some? :: CycleOf(g, fragments, i, depth).value
  }

  lemma CyclesFromStep(g: Graph, fragments: seq<Fragment>, k: nat, depth: nat)
    requires k < |fragments|
    ensures CyclesFrom(g, fragments, k, depth) ==
            CyclesFrom(g, fragments, k + 1, depth) +
            if CycleOf(g, fragments, k, depth).Some? then {CycleOf(g, fragments, k, depth).value} else {}
  {
  }

  lemma NoCyclesBetween(g: Graph, fragments: seq<Fragment>, k: nat, m: nat, depth: nat)
    requires k <= m <= |fragments|
    requires forall i :: k <= i < m ==> fragments[i].StartNode() != fragments[|fragments| - 1].EndNode()
    ensures CyclesFrom(g, fragments, k, depth) == CyclesFrom(g, fragments, m, depth)
  {
  }

  lemma NoCyclesAtEnd(g: Graph, fragments: seq<Fragment>, depth: nat)
    ensures CyclesFrom(g, fragments, |fragments|, depth) == {}
  {
  }

  /** A cycle from empty stacks either leaves them empty but for its own push, or is no cycle. */
  lemma EmptyStacksCycleKind(g: Graph, p: PartialPath, w: Walk, depth: nat)
    requires Summary(g, p, w, Nowhere) && FromEmptyStacks(p)
    requires w[0] == Last(w) && Pushes(g.Kind(w[0]))
    ensures Run(g, w, Stacks([], [])).Some?
    ensures p.scopePost.scopes == Run(g, w, Stacks([], [])).value.scopes
    ensures |p.symbolPost.symbols| == |Run(g, w, Stacks([], [])).value.symbols|
    ensures IsCyclic(g, p, depth) ==
            Ok(if |p.symbolPost.symbols| == 1 && p.scopePost.scopes == [] then Some(Free) else None)
  {
    PostVariablesOccurInPre(g, p, w, Nowhere);
    VariableOccurs(p.symbolPost);
    ScopeVariableOccurs(p.scopePost);
    assert Run(g, w, Before(p, NOTHING)) == Some(After(p, NOTHING));
    HalfOpenLeft(g, p, w, Nowhere);
    var rhs := p.RenamedApartFrom(p);
    var ls := LeftPost(g, p);
    assert rhs.symbolPre == EMPTY_SYMBOLS && rhs.scopePre == EMPTY_SCOPES;
    UnifyClosedWithEmpty(ls, p.scopePost, depth);
    assert ComputeJoin(g, p, rhs, depth) == UnifyStacks(ls, p.scopePost, EMPTY_SYMBOLS, EMPTY_SCOPES, depth);
  }

  lemma UnifyClosedWithEmpty(ls: PartialSymbolStack, lc: PartialScopeStack, depth: nat)
    requires ls.variable.None? && lc.variable.None?
    ensures UnifyStacks(ls, lc, EMPTY_SYMBOLS, EMPTY_SCOPES, depth) ==
            if ls.symbols == [] then if lc.scopes == [] then Ok(Tables(map[], map[])) else Err(ScopeStackUnsatisfied)
            else Err(SymbolStackUnsatisfied)
  {
    var noScopes: ScopeBindings := map[];
    var symbols := UnifySymbols(ls, EMPTY_SYMBOLS, [], map[], noScopes, depth);
    assert MatchTails(ls, EMPTY_SYMBOLS) ==
           if ls.symbols == [] then Ok(TailsEqual(ls)) else Err(SymbolStackUnsatisfied);
    assert MatchScopes(lc, EMPTY_SCOPES) ==
           if lc.scopes == [] then Ok(AlreadyEqual(lc)) else Err(ScopeStackUnsatisfied);
  }

  /** However a suffix has been built, it is of the kind that its definition says. */
  lemma BuiltKind(g: Graph, fragments: seq<Fragment>, us: seq<Walk>, o: Origin, i: nat, p: PartialPath, depth: nat)
    requires g.AttachedScopesExist() && Appendages(g, fragments, us, o) && Runnable(g, us, o)
    requires i < |us| && us[i][0] == Last(us[|us| - 1])
    requires Built(g, fragments, us, o, i, |us|, p)
    ensures IsCyclic(g, p, depth).Ok?
    ensures CycleOf(g, fragments, i, depth) == if p.edges == [] then None else IsCyclic(g, p, depth).value
  {
    hide Summary, Shaped, IsCyclic, SuffixPath, PartWalk, Runnable;
    var q := SuffixBuilt(g, fragments, us, o, i, depth);
    AppendageNodes(g, fragments, us, o, i);
    AppendageNodes(g, fragments, us, o, |us| - 1);
    SameKind(g, PartWalk(us, i, |us|), OriginAt(o, i), p, q, depth);
  }

  lemma SuffixBuilt(g: Graph, fragments: seq<Fragment>, us: seq<Walk>, o: Origin, i: nat, depth: nat)
    returns (q: PartialPath)
    requires g.AttachedScopesExist() && Appendages(g, fragments, us, o) && Runnable(g, us, o) && i < |us|
    ensures SuffixPath(g, fragments, i, depth) == Ok(q) && Built(g, fragments, us, o, i, |us|, q)
  {
    hide FromNode, Summary, Stitch, Runnable, Shaped;
    BlockBuilds(g, fragments, us, o, i, |us|, depth);
    AppendageNodes(g, fragments, us, o, i);
    assert fragments[i..] == fragments[i..|us|];
    q := SuffixPath(g, fragments, i, depth).value;
  }

  lemma SameKind(g: Graph, w: Walk, o: Origin, p: PartialPath, q: PartialPath, depth: nat)
    requires Summary(g, p, w, o) && Shaped(p, o) && Summary(g, q, w, o) && Shaped(q, o)
    requires w[0] == Last(w) && (o == Nowhere ==> Pushes(g.Kind(w[0])))
    ensures IsCyclic(g, p, depth).Ok? && IsCyclic(g, p, depth) == IsCyclic(g, q, depth)
  {
    if o == Anywhere {
      CycleKindOfWalk(g, p, q, w, depth, depth);
      CycleKind(g, p, w, depth);
    } else {
      EmptyStacksCycleKind(g, p, w, depth);
      EmptyStacksCycleKind(g, q, w, depth);
    }
  }

  /** Putting a block in front of a later suffix that starts where the block ends. */
  lemma JoinBlocks(g: Graph, fragments: seq<Fragment>, us: seq<Walk>, o: Origin, i: nat, k: nat,
                   prefix: PartialPath, cycle: PartialPath, depth: nat)
    requires g.AttachedScopesExist() && Appendages(g, fragments, us, o) && Runnable(g, us, o)
    requires i < k < |us|
    requires Built(g, fragments, us, o, i, k, prefix) && Built(g, fragments, us, o, k, |us|, cycle)
    ensures var r := AppendPath(g, prefix, cycle, depth);
            r.Ok? && Built(g, fragments, us, o, i, |us|, r.value)
  {
    RunnablePart(g, us, o, i, |us|);
    AppendageNodes(g, fragments, us, o, k);
    AppendageNodes(g, fragments, us, o, |us| - 1);
    JoinParts(g, fragments, us, o, i, k, prefix, cycle, depth);
  }

  lemma JoinParts(g: Graph, fragments: seq<Fragment>, us: seq<Walk>, o: Origin, i: nat, k: nat,
                  prefix: PartialPath, cycle: PartialPath, depth: nat)
    requires g.AttachedScopesExist() && Linked(us) && i < k < |us| == |fragments|
    requires Feasible(g, PartWalk(us, i, |us|), OriginAt(o, i))
    requires !g.Kind(us[k][0]).JumpTo? && !g.Kind(Last(us[|us| - 1])).JumpTo?
    requires Built(g, fragments, us, o, i, k, prefix) && Built(g, fragments, us, o, k, |us|, cycle)
    ensures var r := AppendPath(g, prefix, cycle, depth);
            r.Ok? && Built(g, fragments, us, o, i, |us|, r.value)
  {
    hide Summary, PartWalk, AppendPath, Linked, Feasible;
    PartJoin(us, i, k, |us|);
    assert fragments[i..|us|] == fragments[i..k] + fragments[k..|us|];
    EdgeCountsConcat(fragments[i..k], fragments[k..|us|]);
    AppendBuilt(g, prefix, PartWalk(us, i, k), cycle, PartWalk(us, k, |us|), OriginAt(o, i), depth);
  }

  lemma AppendBuilt(g: Graph, path: PartialPath, w: Walk, next: PartialPath, u: Walk, o: Origin, depth: nat)
    requires g.AttachedScopesExist()
    requires Summary(g, path, w, o) && Shaped(path, o) && Summary(g, next, u, Anywhere) && Open(next)
    requires Last(w) == u[0] && !g.Kind(u[0]).JumpTo? && !g.Kind(Last(u)).JumpTo?
    requires Feasible(g, Splice(w, u), o)
    ensures var r := AppendPath(g, path, next, depth);
            && r.Ok? && Summary(g, r.value, Splice(w, u), o) && Shaped(r.value, o)
            && |r.value.edges| == |path.edges| + |next.edges|
  {
    AppendPathSummary(g, path, w, next, u, depth, o);
    if o == Nowhere {
      assert Describes(g, PathFragment(next), u);
      AppendFromEmptyStacks(g, path, w, PathFragment(next), u, depth, o);
    }
  }

  /** The first time round, there is no later suffix: the block is joined to the bare end node. */
  lemma JoinEndNode(g: Graph, fragments: seq<Fragment>, us: seq<Walk>, o: Origin, i: nat, prefix: PartialPath,
                    depth: nat)
    requires g.AttachedScopesExist() && Appendages(g, fragments, us, o) && Runnable(g, us, o)
    requires i < |us| && Built(g, fragments, us, o, i, |us|, prefix)
    ensures FromNode(g, Last(us[|us| - 1])).Ok?
    ensures var r := AppendPath(g, prefix, FromNode(g, Last(us[|us| - 1])).value, depth);
            r.Ok? && Built(g, fragments, us, o, i, |us|, r.value)
  {
    var end := Last(us[|us| - 1]);
    FromNodeSummary(g, end);
    RunnablePart(g, us, o, i, |us|);
    AppendageNodes(g, fragments, us, o, |us| - 1);
    var w := PartWalk(us, i, |us|);
    assert Splice(w, [end]) == w;
    AppendBuilt(g, prefix, w, FromNode(g, end).value, [end], OriginAt(o, i), depth);
  }

  // ---------------------------------------------------------------------------------------------
  // The detector

  /** The position of the last fragment that starts at `end`. */
  function LastStart(fragments: seq<Fragment>, end: NodeHandle): (r: Option<nat>)
    ensures r.Some? ==> r.value < |fragments| && fragments[r.value].StartNode() == end
    ensures r.Some? ==> forall i :: r.value < i < |fragments| ==> fragments[i].StartNode() != end
    ensures r.None? ==> forall i :: 0 <= i < |fragments| ==> fragments[i].StartNode() != end
  {
    if fragments == [] then None
    else if fragments[|fragments| - 1].StartNode() == end then Some(|fragments| - 1)
    else LastStart(fragments[..|fragments| - 1], end)
  }

  /** The fragments of a block, appended to the path of a node. */
  function BlockPath(g: Graph, start: NodeHandle, block: seq<Fragment>, depth: nat)
    : Result<PartialPath, PathResolutionError>
  {
    match FromNode(g, start)
    case Err(e) => Err(e)
    case Ok(p) => Stitch(g, p, block, depth)
  }

  /** The next longer cycle: a block, and the cycle found before. */
  function LongerCycle(g: Graph, end: NodeHandle, block: seq<Fragment>, cycle: Option<PartialPath>, depth: nat)
    : Result<PartialPath, PathResolutionError>
  {
    match BlockPath(g, end, block, depth)
    case Err(e) => Err(e)
    case Ok(prefix) =>
      AppendPath(g, prefix, if cycle.Some? then cycle.value else FromNode(g, end).value, depth)
  }

  /** The kind of cycle that a path is, if it has edges. */
  function KindOf(g: Graph, p: PartialPath, depth: nat): Result<Option<Cyclicity>, PathResolutionError> {
    if p.edges == [] then Ok(None) else IsCyclic(g, p, depth)
  }

  function WithKind(cycles: set<Cyclicity>, kind: Option<Cyclicity>): set<Cyclicity> {
    if kind.Some? then cycles + {kind.value} else cycles
  }

  /** What the remaining fragments add to the kinds found so far. */
  function Rounds(g: Graph, end: NodeHandle, remaining: seq<Fragment>, cycle: Option<PartialPath>,
                  cycles: set<Cyclicity>, depth: nat): Result<set<Cyclicity>, PathResolutionError>
    decreases |remaining|
  {
    match LastStart(remaining, end)
    case None => Ok(cycles)
    case Some(i) =>
      match LongerCycle(g, end, remaining[i..], cycle, depth)
      case Err(e) => Err(e)
      case Ok(p) =>
        match KindOf(g, p, depth)
        case Err(e) => Err(e)
        case Ok(kind) => Rounds(g, end, remaining[..i], Some(p), WithKind(cycles, kind), depth)
  }

  /** What the detector reports. */
  function Detected(g: Graph, fragments: seq<Fragment>, depth: nat): Result<set<Cyclicity>, PathResolutionError> {
    if fragments == [] then Ok({})
    else Rounds(g, fragments[|fragments| - 1].EndNode(), fragments, None, {}, depth)
  }

  /** The length of the shortest suffix of the appendages that starts at `end`; None if there is none. */
  method CycleLength(appendages: seq<Fragment>, end: NodeHandle) returns (r: Option<nat>)
    ensures r.None? ==> LastStart(appendages, end).None?
    ensures r.Some? ==> 0 < r.value <= |appendages| && LastStart(appendages, end) == Some(|appendages| - r.value)
  {
    var counting := appendages;
    var cycleLength := 0;
    while counting != []
      invariant 0 <= cycleLength <= |appendages| && counting == appendages[..|appendages| - cycleLength]
      invariant LastStart(counting, end) == LastStart(appendages, end)
      decreases |counting|
    {
      var appendage := counting[|counting| - 1];
      counting := counting[..|counting| - 1];
      cycleLength := cycleLength + 1;
      if appendage.StartNode() == end {
        return Some(cycleLength);
      }
    }
    return None;
  }

  /** Appends the collected fragments, last collected first, to the path of a node. */
  method BuildPrefix(g: Graph, start: NodeHandle, collected: seq<Fragment>, depth: nat, ghost block: seq<Fragment>)
    returns (r: Result<PartialPath, PathResolutionError>)
    requires |collected| == |block|
    requires forall i :: 0 <= i < |block| ==> collected[i] == block[|block| - 1 - i]
    ensures r == BlockPath(g, start, block, depth)
  {
    hide Stitch, AppendFragment, FromNode;
    r := FromNode(g, start);
    if r.Err? {
      return;
    }
    ghost var first := r.value;
    var prefixAppendages := collected;
    StitchNone(g, first, depth);
    while prefixAppendages != []
      invariant prefixAppendages == collected[..|prefixAppendages|] && |prefixAppendages| <= |collected|
      invariant r.Ok? && Stitch(g, first, block[..|block| - |prefixAppendages|], depth) == r
      decreases |prefixAppendages|
    {
      var appendage := prefixAppendages[|prefixAppendages| - 1];
      ghost var done := |block| - |prefixAppendages|;
      prefixAppendages := prefixAppendages[..|prefixAppendages| - 1];
      r := AppendFragment(g, r.value, appendage, depth);
      StitchNext(g, first, block, done, depth);
      if r.Err? {
        StitchPrefixFails(g, first, block, done + 1, depth);
        return;
      }
    }
    assert block[..|block|] == block;
  }

  lemma StitchNone(g: Graph, path: PartialPath, depth: nat)
    ensures Stitch(g, path, [], depth) == Ok(path)
  {
  }

  lemma StitchNext(g: Graph, path: PartialPath, fragments: seq<Fragment>, k: nat, depth: nat)
    requires k < |fragments| && Stitch(g, path, fragments[..k], depth).Ok?
    ensures Stitch(g, path, fragments[..k + 1], depth) ==
            AppendFragment(g, Stitch(g, path, fragments[..k], depth).value, fragments[k], depth)
  {
    assert fragments[..k + 1][..k] == fragments[..k];
  }

  lemma {:induction false} StitchPrefixFails(g: Graph, path: PartialPath, fragments: seq<Fragment>, k: nat, depth: nat)
    requires k <= |fragments| && Stitch(g, path, fragments[..k], depth).Err?
    ensures Stitch(g, path, fragments, depth) == Stitch(g, path, fragments[..k], depth)
    decreases |fragments|
  {
    if k < |fragments| {
      assert fragments[..|fragments| - 1][..k] == fragments[..k];
      StitchPrefixFails(g, path, fragments[..|fragments| - 1], k, depth);
    } else {
      assert fragments[..k] == fragments;
    }
  }

  /** Moves the last `length` appendages over to a buffer, in reverse. */
  method CollectPrefix(remaining: seq<Fragment>, length: nat) returns (collected: seq<Fragment>, rest: seq<Fragment>)
    requires length <= |remaining|
    ensures rest == remaining[..|remaining| - length]
    ensures |collected| == length
    ensures forall m :: 0 <= m < length ==> collected[m] == remaining[|remaining| - 1 - m]
  {
    collected, rest := [], remaining;
    for n := 0 to length
      invariant rest == remaining[..|remaining| - n]
      invariant |collected| == n
      invariant forall m :: 0 <= m < n ==> collected[m] == remaining[|remaining| - 1 - m]
    {
      collected := collected + [rest[|rest| - 1]];
      rest := rest[..|rest| - 1];
    }
  }

  /** The detector. */
  method DetectCycles(g: Graph, appendages: seq<Fragment>, depth: nat)
    returns (r: Result<set<Cyclicity>, PathResolutionError>)
    ensures r == Detected(g, appendages, depth)
  {
    hide IsCyclic, Stitch, FromNode, AppendPath, LastStart;
    var cycles: set<Cyclicity> := {};
    if appendages == [] {
      return Ok(cycles);
    }
    var end := appendages[|appendages| - 1].EndNode();
    var maybeCyclicPath: Option<PartialPath> := None;
    var remaining := appendages;
    while true
      invariant Rounds(g, end, remaining, maybeCyclicPath, cycles, depth) == Detected(g, appendages, depth)
      decreases |remaining|
    {
      var length := CycleLength(remaining, end);
      if length.None? {
        return Ok(cycles);
      }
      ghost var block := remaining[|remaining| - length.value..];
      var prefixAppendages, rest := CollectPrefix(remaining, length.value);
      var prefix := BuildPrefix(g, end, prefixAppendages, depth, block);
      if prefix.Err? {
        return Err(prefix.error);
      }
      var cyclicPath := if maybeCyclicPath.Some? then maybeCyclicPath.value else FromNode(g, end).value;
      var path := AppendPath(g, prefix.value, cyclicPath, depth);
      if path.Err? {
        return Err(path.error);
      }
      assert LongerCycle(g, end, block, maybeCyclicPath, depth) == path;
      if path.value.edges != [] {
        var kind := IsCyclic(g, path.value, depth);
        if kind.Err? {
          return Err(kind.error);
        }
        if kind.value.Some? {
          cycles := cycles + {kind.value.value};
        }
      }
      remaining, maybeCyclicPath := rest, Some(path.value);
    }
  }

  // ---------------------------------------------------------------------------------------------
  // What it reports

  /** Without jumps in between: one more round builds the next longer cycle. */
  lemma RoundBuilds(g: Graph, fragments: seq<Fragment>, us: seq<Walk>, o: Origin, i: nat, k: nat,
                    cycle: Option<PartialPath>, depth: nat)
    requires g.AttachedScopesExist() && Appendages(g, fragments, us, o) && Runnable(g, us, o)
    requires i < k <= |us| && us[i][0] == Last(us[|us| - 1])
    requires CycleBuilt(g, fragments, us, o, k, cycle)
    ensures var r := LongerCycle(g, us[i][0], fragments[i..k], cycle, depth);
            r.Ok? && Built(g, fragments, us, o, i, |us|, r.value)
  {
    hide AppendPath, Stitch, Built, FromNode, Runnable, PartWalk;
    BlockBuilds(g, fragments, us, o, i, k, depth);
    var prefix := BlockPath(g, us[i][0], fragments[i..k], depth).value;
    if k == |us| {
      JoinEndNode(g, fragments, us, o, i, prefix, depth);
    } else {
      JoinBlocks(g, fragments, us, o, i, k, prefix, cycle.value, depth);
    }
  }

  /** The cycle found so far is built from the fragments from the `k`th on. */
  ghost predicate CycleBuilt(g: Graph, fragments: seq<Fragment>, us: seq<Walk>, o: Origin, k: nat,
                             cycle: Option<PartialPath>)
    requires Linked(us) && k <= |us| == |fragments|
  {
    if k == |us| then cycle.None? else cycle.Some? && Built(g, fragments, us, o, k, |us|, cycle.value)
  }

  lemma {:induction false} RoundsReport(g: Graph, fragments: seq<Fragment>, us: seq<Walk>, o: Origin, k: nat,
                                        cycle: Option<PartialPath>, depth: nat)
    requires g.AttachedScopesExist() && Appendages(g, fragments, us, o) && Runnable(g, us, o)
    requires k <= |us| && CycleBuilt(g, fragments, us, o, k, cycle)
    ensures Rounds(g, fragments[|us| - 1].EndNode(), fragments[..k], cycle, CyclesFrom(g, fragments, k, depth),
                   depth) ==
            Ok(CyclesFrom(g, fragments, 0, depth))
    decreases k
  {
    hide IsCyclic, CycleOf, CyclesFrom, Appendages, Runnable, Built, Linked, LongerCycle;
    AppendagesLinked(g, fragments, us, o);
    AppendageNodes(g, fragments, us, o, |us| - 1);
    var end := fragments[|us| - 1].EndNode();
    match LastStart(fragments[..k], end)
    case None =>
      NoCyclesBetween(g, fragments, 0, k, depth);
    case Some(i) =>
      NoCyclesBetween(g, fragments, i + 1, k, depth);
      CyclesFromStep(g, fragments, i, depth);
      AppendageNodes(g, fragments, us, o, i);
      RoundBuilds(g, fragments, us, o, i, k, cycle, depth);
      assert fragments[..k][i..] == fragments[i..k] && fragments[..k][..i] == fragments[..i];
      var p := LongerCycle(g, end, fragments[i..k], cycle, depth).value;
      BuiltKind(g, fragments, us, o, i, p, depth);
      assert WithKind(CyclesFrom(g, fragments, k, depth), KindOf(g, p, depth).value) ==
             CyclesFrom(g, fragments, i, depth);
      RoundsReport(g, fragments, us, o, i, Some(p), depth);
  }

  /** Fragments in front that do not start at the end make no difference. */
  lemma {:induction false} RoundsAfter(g: Graph, end: NodeHandle, before: seq<Fragment>, remaining: seq<Fragment>,
                                       cycle: Option<PartialPath>, cycles: set<Cyclicity>, depth: nat)
    requires forall i :: 0 <= i < |before| ==> before[i].StartNode() != end
    ensures Rounds(g, end, before + remaining, cycle, cycles, depth) == Rounds(g, end, remaining, cycle, cycles, depth)
    decreases |remaining|
  {
    hide LongerCycle, KindOf, LastStart;
    var all := before + remaining;
    match LastStart(remaining, end)
    case None =>
      assert LastStart(all, end).None?;
    case Some(i) =>
      assert forall k :: 0 <= k < |remaining| ==> all[|before| + k] == remaining[k];
      assert all[|before| + i].StartNode() == end;
      var j := LastStart(all, end).value;
      assert j == |before| + i;
      assert all[j..] == remaining[i..] && all[..j] == before + remaining[..i];
      var p := LongerCycle(g, end, remaining[i..], cycle, depth);
      if p.Ok? && KindOf(g, p.value, depth).Ok? {
        RoundsAfter(g, end, before, remaining[..i], Some(p.value), WithKind(cycles, KindOf(g, p.value, depth).value),
                    depth);
      }
  }

  /** None of the cycles that the fragments make up passes a jump. */
  predicate CyclesAvoidJumps(g: Graph, fragments: seq<Fragment>) {
    forall i, k :: 0 <= i <= k < |fragments| && fragments[i].StartNode() == fragments[|fragments| - 1].EndNode() ==>
      !g.Kind(fragments[k].EndNode()).JumpTo?
  }

  /**
   If the stitcher has appended all fragments with success and none of their cycles passes a jump, the
   detector succeeds too, and reports the kinds of exactly those suffixes that start where the path ends.
   */
  lemma DetectorReports(g: Graph, fragments: seq<Fragment>, us: seq<Walk>, o: Origin, depth: nat)
    requires g.AttachedScopesExist() && Appended(g, fragments, us, o) && Passable(g, Journey(g, [us[0][0]], us, o), o)
    requires CyclesAvoidJumps(g, fragments)
    ensures Detected(g, fragments, depth) == Ok(CyclesFrom(g, fragments, 0, depth))
  {
    hide Rounds, CyclesFrom, CycleOf, StartsWith, Consecutive, Passable, Appendages, Runnable;
    AppendedAt(g, fragments, us, o, 0);
    var m := FirstStart(fragments, fragments[|fragments| - 1].EndNode());
    var end := fragments[|fragments| - 1].EndNode();
    if m == |fragments| {
      NoCyclesBetween(g, fragments, 0, m, depth);
      NoCyclesAtEnd(g, fragments, depth);
      assert fragments == fragments + [];
      RoundsAfter(g, end, fragments, [], None, {}, depth);
      NothingLeft(g, end, {}, depth);
    } else {
      var tail := fragments[m..];
      assert fragments == fragments[..m] + tail;
      RoundsAfter(g, end, fragments[..m], tail, None, {}, depth);
      var o' := OriginAt(o, m);
      TailAppendages(g, fragments, us, o, m);
      NoCyclesAtEnd(g, tail, depth);
      assert tail[..|tail|] == tail;
      RoundsReport(g, tail, us[m..], o', |tail|, None, depth);
      TailCycles(g, fragments, m, depth);
      NoCyclesBetween(g, fragments, 0, m, depth);
    }
  }

  lemma NothingLeft(g: Graph, end: NodeHandle, cycles: set<Cyclicity>, depth: nat)
    ensures Rounds(g, end, [], None, cycles, depth) == Ok(cycles)
  {
  }

  /** The position of the first fragment that starts at `end`, or of the end of the list. */
  function FirstStart(fragments: seq<Fragment>, end: NodeHandle): (r: nat)
    ensures r <= |fragments|
    ensures r < |fragments| ==> fragments[r].StartNode() == end
    ensures forall i :: 0 <= i < r ==> fragments[i].StartNode() != end
  {
    if fragments == [] || fragments[0].StartNode() == end then 0 else 1 + FirstStart(fragments[1..], end)
  }

  lemma AppendedAt(g: Graph, fragments: seq<Fragment>, us: seq<Walk>, o: Origin, k: nat)
    requires g.AttachedScopesExist() && Appended(g, fragments, us, o) && k < |us|
    ensures |fragments| == |us| > 0 && !g.Kind(us[k][0]).JumpTo?
    ensures fragments[k].StartNode() == us[k][0] && fragments[k].EndNode() == Last(us[k])
    ensures k > 0 || o == Anywhere ==> Describes(g, fragments[k], us[k])
  {
    if k == 0 {
      InitialSummary(g, us[0][0], o);
    } else {
      assert fragments[1..][k - 1] == fragments[k] && us[1..][k - 1] == us[k];
    }
  }

  /** From the first fragment that a cycle can start with, no jump comes between the fragments. */
  lemma TailAppendages(g: Graph, fragments: seq<Fragment>, us: seq<Walk>, o: Origin, m: nat)
    requires g.AttachedScopesExist() && Appended(g, fragments, us, o) && Passable(g, Journey(g, [us[0][0]], us, o), o)
    requires CyclesAvoidJumps(g, fragments)
    requires m < |us| == |fragments| && fragments[m].StartNode() == fragments[|fragments| - 1].EndNode()
    ensures Appendages(g, fragments[m..], us[m..], OriginAt(o, m)) && Runnable(g, us[m..], OriginAt(o, m))
  {
    hide Journey, Consecutive, Passable, Describes, InitialPath, SpliceAll, Meet;
    forall k | 0 <= k < |us|
      ensures !g.Kind(us[k][0]).JumpTo? && fragments[k].EndNode() == Last(us[k])
      ensures k > 0 || o == Anywhere ==> Describes(g, fragments[k], us[k])
    {
      AppendedAt(g, fragments, us, o, k);
    }
    forall k | m <= k < |us|
      ensures !g.Kind(Last(us[k])).JumpTo?
    {
      assert !g.Kind(fragments[k].EndNode()).JumpTo?;
    }
    PassableRun(g, [us[0][0]], us, m, |us|, o);
    assert us[m..|us|] == us[m..];
    if m == 0 && o == Nowhere {
      assert us[0..] == us;
      PlainMeet(g, [us[0][0]], us, o);
      PassableFeasible(g, SpliceAll([us[0][0]], us), o);
    } else {
      PassableFeasible(g, SpliceAll([us[m][0]], us[m..]), Anywhere);
    }
  }

  lemma PassableFeasible(g: Graph, w: Walk, o: Origin)
    requires Passable(g, w, o)
    ensures Feasible(g, w, o)
  {
  }

  lemma TailCycles(g: Graph, fragments: seq<Fragment>, m: nat, depth: nat)
    requires m < |fragments|
    ensures CyclesFrom(g, fragments, m, depth) == CyclesFrom(g, fragments[m..], 0, depth)
  {
    hide IsCyclic, Stitch, FromNode;
    var tail := fragments[m..];
    forall i | 0 <= i < |tail|
      ensures CycleOf(g, tail, i, depth) == CycleOf(g, fragments, m + i, depth)
    {
      assert tail[i..] == fragments[m + i..];
    }
    forall kind | kind in CyclesFrom(g, fragments, m, depth)
      ensures kind in CyclesFrom(g, tail, 0, depth)
    {
      var i :| m <= i < |fragments| && CycleOf(g, fragments, i, depth) == Some(kind);
      assert CycleOf(g, tail, i - m, depth) == Some(kind);
    }
    forall kind | kind in CyclesFrom(g, tail, 0, depth)
      ensures kind in CyclesFrom(g, fragments, m, depth)
    {
      var i :| 0 <= i < |tail| && CycleOf(g, tail, i, depth) == Some(kind);
      assert CycleOf(g, fragments, m + i, depth) == Some(kind);
    }
  }

  /** An initial path by itself is no cycle. */
  lemma InitialNotCyclic(g: Graph, n: NodeHandle, o: Origin, depth: nat)
    requires g.AttachedScopesExist() && MayStart(g, n, o)
    ensures InitialPath(g, n, o).Ok?
    ensures Detected(g, [PathFragment(InitialPath(g, n, o).value)], depth) == Ok({})
  {
    hide Detected, IsCyclic, FromNode, AppendPath, InitialPath, Passable, Summary;
    InitialSummary(g, n, o);
    var p := InitialPath(g, n, o).value;
    SummaryOf(g, p, [n], o);
    var fragments, us: seq<Walk> := [PathFragment(p)], [[n]];
    StartPassable(g, p, [n], o);
    InitialAppended(g, p, n, o);
    DetectorReports(g, fragments, us, o, depth);
    AppendInitial(g, n, o, depth);
    StitchCons(g, FromNode(g, n).value, fragments, depth);
    assert fragments[0..] == fragments && fragments[1..] == [];
    var first := AppendPath(g, FromNode(g, n).value, p, depth);
    StitchNone(g, first.value, depth);
    assert AppendFragment(g, FromNode(g, n).value, fragments[0], depth) == first;
    assert SuffixPath(g, fragments, 0, depth) == first;
    assert CycleOf(g, fragments, 0, depth) == None;
    CyclesFromStep(g, fragments, 0, depth);
    NoCyclesAtEnd(g, fragments, depth);
    assert CyclesFrom(g, fragments, 0, depth) == {};
  }

  lemma InitialAppended(g: Graph, p: PartialPath, n: NodeHandle, o: Origin)
    requires MayStart(g, n, o) && InitialPath(g, n, o) == Ok(p) && p.startNode == p.endNode == n
    ensures var fragments, us: seq<Walk> := [PathFragment(p)], [[n]];
            && Appended(g, fragments, us, o) && Journey(g, [n], us, o) == [n] && CyclesAvoidJumps(g, fragments)
  {
    var us: seq<Walk> := [[n]];
    var none: seq<Walk> := [];
    assert us[..|us| - 1] == none && us[1..] == none && Consecutive(g, [n], none, o);
    assert Splice([n], [n]) == [n];
  }
}
