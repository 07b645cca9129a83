/**
 Jumps, in terms of walks alone.  A walk that has come to a jump goes on at once if all its runs agree on
 the scope to go on at, is stuck if none of them has any, and otherwise stays undecided.  Appending an edge
 or a stored path that ends in a jump arrives at a summary of the walk so settled.
 */
module Settling {
  import opened Wrappers
  import opened Graphs
  import opened Patterns
  import opened Unification
  import opened CanonicalUnification
  import opened PartialPaths
  import opened Exactness
  import opened AppendExactness
  import opened Renaming
  import opened Composition
  import opened Concatenation

  /** Some run of the walk ends with this scope stack. */
  ghost predicate EndsWith(g: Graph, w: Walk, o: Origin, c: ScopeStack) {
    exists s :: o.Admits(s) && Run(g, w, s).Some? && Run(g, w, s).value.scopes == c
  }

  /** Every run of the walk ends with scope `t` on top. */
  ghost predicate LeadsTo(g: Graph, w: Walk, o: Origin, t: NodeHandle) {
    forall c :: EndsWith(g, w, o, c) ==> c != [] && c[0] == t
  }

  /** The walk has come to a jump, and its runs all lead on to one scope. */
  ghost predicate Decided(g: Graph, w: Walk, o: Origin) {
    g.Kind(Last(w)).JumpTo? && Feasible(g, w, o) && exists t :: LeadsTo(g, w, o, t)
  }

  /** The walk has come to a jump, and no run of it has a scope to go on at. */
  ghost predicate Stuck(g: Graph, w: Walk, o: Origin) {
    g.Kind(Last(w)).JumpTo? && forall c :: EndsWith(g, w, o, c) ==> c == []
  }

  /** Some stacks can run the walk, and it is not stuck. */
  ghost predicate Passable(g: Graph, w: Walk, o: Origin) {
    Feasible(g, w, o) && !Stuck(g, w, o)
  }

  /** The walk, continued over a decided jump. */
  ghost function Settle(g: Graph, w: Walk, o: Origin): (r: Walk)
    ensures r[0] == w[0]
    ensures !g.Kind(Last(w)).JumpTo? ==> r == w
    ensures r == w || (g.Kind(Last(w)).JumpTo? && r == w + [Last(r)])
  {
    if Decided(g, w, o) then
      var t :| LeadsTo(g, w, o, t);
      w + [t]
    else w
  }

  /** From empty stacks there is one run at most, so every jump is decided or stuck. */
  lemma NowhereUndecided(g: Graph, w: Walk)
    requires Passable(g, w, Nowhere) && g.Kind(Last(w)).JumpTo?
    ensures Run(g, w, Stacks([], [])).Some? && Run(g, w, Stacks([], [])).value.scopes != []
    ensures Settle(g, w, Nowhere) == w + [Run(g, w, Stacks([], [])).value.scopes[0]]
  {
    var s :| Nowhere.Admits(s) && Run(g, w, s).Some?;
    assert EndsWith(g, w, Nowhere, Run(g, w, s).value.scopes);
    assert LeadsTo(g, w, Nowhere, Run(g, w, s).value.scopes[0]);
  }

  /** The scope stacks that a summarised walk ends with are those that its postcondition can stand for. */
  lemma EndsDescribed(g: Graph, p: PartialPath, w: Walk, o: Origin, val: Valuation)
    requires Summary(g, p, w, o)
    ensures EndsWith(g, w, o, EvalScopes(p.scopePost, val))
  {
    hide PostScopesExist, EvalStack, EvalScopes, Run;
    assert Run(g, w, Before(p, val)) == Some(After(p, val));
  }

  lemma DescribedEnds(g: Graph, p: PartialPath, w: Walk, o: Origin, c: ScopeStack) returns (val: Valuation)
    requires Summary(g, p, w, o) && EndsWith(g, w, o, c)
    ensures EvalScopes(p.scopePost, val) == c
  {
    hide PostScopesExist, EvalStack, EvalScopes, Run;
    var s :| o.Admits(s) && Run(g, w, s).Some? && Run(g, w, s).value.scopes == c;
    val :| Before(p, val) == s;
    assert Run(g, w, Before(p, val)) == Some(After(p, val));
  }

  /** A summary knows its jump's target exactly when its walk is decided. */
  lemma KnownIsDecided(g: Graph, p: PartialPath, w: Walk, o: Origin)
    requires Summary(g, p, w, o)
    ensures JumpKnown(g, p) <==> Decided(g, w, o)
    ensures Settled(g, p, w) == Settle(g, w, o)
    ensures Stuck(g, w, o) <==> g.Kind(p.endNode).JumpTo? && p.scopePost.CanOnlyMatchEmpty()
  {
    hide Summary, Exact, Feasible, EndsWith;
    SummaryOf(g, p, w, o);
    EndsDescribed(g, p, w, o, NOTHING);
    forall c | EndsWith(g, w, o, c)
      ensures p.scopePost.scopes != [] ==> c != [] && c[0] == p.scopePost.scopes[0]
      ensures p.scopePost.CanOnlyMatchEmpty() ==> c == []
    {
      var val := DescribedEnds(g, p, w, o, c);
    }
    if p.scopePost.scopes != [] {
      assert LeadsTo(g, w, o, p.scopePost.scopes[0]);
    } else if p.scopePost.variable.Some? {
      var val := Valuation(imap[], imap[p.scopePost.variable.value := [0]]);
      EndsDescribed(g, p, w, o, val);
      assert EvalScopes(p.scopePost, val) == [0];
    }
  }

  /** Resolving the jump at the end of a summary settles its walk, and fails exactly when it is stuck. */
  lemma ResolveSettles(g: Graph, p: PartialPath, w: Walk, o: Origin)
    requires Summary(g, p, w, o)
    ensures var r := ResolveFromPostcondition(g, p);
            && (r.Ok? <==> !Stuck(g, w, o))
            && (r.Ok? ==> Summary(g, r.value, Settle(g, w, o), o) && Feasible(g, Settle(g, w, o), o))
            && (r.Ok? ==> r.value.symbolPre == p.symbolPre && r.value.scopePre == p.scopePre)
            && (r.Ok? ==> |r.value.edges| == |p.edges| + |Settle(g, w, o)| - |w|)
            && (r.Err? ==> r.error == EmptyScopeStack)
  {
    hide Summary, Feasible, Stuck, Decided;
    KnownIsDecided(g, p, w, o);
    ResolveExact(g, p, w, o);
    SummaryOf(g, p, w, o);
    if ResolveFromPostcondition(g, p).Ok? {
      SummaryOf(g, ResolveFromPostcondition(g, p).value, Settle(g, w, o), o);
    }
  }

  lemma SummaryOf(g: Graph, p: PartialPath, w: Walk, o: Origin)
    requires Summary(g, p, w, o)
    ensures p.startNode == w[0] && p.endNode == Last(w) && Feasible(g, w, o) && Exact(g, p, w, o)
  {
    ExactFeasible(g, p, w, o);
  }

  /** A settled walk that can go no further in some sense was so before. */
  lemma SettledPassable(g: Graph, w: Walk, o: Origin)
    requires Feasible(g, Settle(g, w, o), o) && !Stuck(g, Settle(g, w, o), o)
    ensures Passable(g, w, o)
  {
    if Settle(g, w, o) != w {
      var t := Last(Settle(g, w, o));
      var s :| o.Admits(s) && Run(g, w + [t], s).Some?;
      RunExtend(g, w, t, s);
      assert EndsWith(g, w, o, Run(g, w, s).value.scopes);
    }
  }

  /**
   Appending a stored path while stitching: renaming, concatenating and following the jump that it may end
   in extends a summary to one of the settled longer walk.  It fails exactly when no stacks can run that
   walk, or none of them leaves a scope to jump to.
   */
  lemma AppendPathSettles(g: Graph, path: PartialPath, w: Walk, next: PartialPath, u: Walk, depth: nat, o: Origin)
    requires Summary(g, path, w, o) && Summary(g, next, u, Anywhere) && Canonical(next)
    requires Last(w) == u[0] && !g.Kind(Last(w)).JumpTo?
    ensures var r, v := AppendPath(g, path, next, depth), Splice(w, u);
            && (r.Ok? <==> Passable(g, v, o))
            && (r.Ok? ==> Summary(g, r.value, Settle(g, v, o), o) && Feasible(g, Settle(g, v, o), o))
            && (r.Ok? && Canonical(path) ==> Canonical(r.value))
            && (r.Ok? && Open(path) && Open(next) ==> Open(r.value))
            && (r.Ok? ==> |r.value.edges| == |path.edges| + |next.edges| + |Settle(g, v, o)| - |v|)
            && (r.Err? ==> r.error != StackOverflow && r.error != Panic)
  {
    hide Summary, Feasible, Stuck, Settle, Joined, ResolveFromPostcondition, CanonicalStacks;
    var v := Splice(w, u);
    SummaryOf(g, path, w, o);
    SummaryOf(g, next, u, Anywhere);
    var so, co := next.symbolPre.LargestSymbolVariable(), next.LargestScopeVariable();
    OffsetSummary(g, path, w, so, co, o);
    RenamedIsApart(path, next);
    if Canonical(path) {
      OffsetCanonical(path, so, co);
    }
    var lhs := path.RenamedApartFrom(next);
    JoinedSummary(g, lhs, w, next, u, depth, o);
    if Joined(g, lhs, next, depth).Ok? {
      ResolveSettles(g, Joined(g, lhs, next, depth).value, v, o);
    }
  }

  /** The same for an edge. */
  lemma AppendEdgeSettles(g: Graph, path: PartialPath, w: Walk, e: Edge, o: Origin)
    requires g.AttachedScopesExist() && Summary(g, path, w, o)
    requires e.source == path.endNode && !g.Kind(e.source).JumpTo?
    ensures var r, v := AppendEdge(g, path, e), w + [e.sink];
            && (r.Ok? <==> Passable(g, v, o))
            && (r.Ok? ==> Summary(g, r.value, Settle(g, v, o), o) && Feasible(g, Settle(g, v, o), o))
            && (r.Ok? && Canonical(path) ==> Canonical(r.value))
            && (r.Ok? && Open(path) ==> Open(r.value))
            && (r.Ok? ==> |r.value.edges| == |path.edges| + 1 + |Settle(g, v, o)| - |v|)
            && (r.Err? ==> r.error != StackOverflow && r.error != Panic)
  {
    hide Summary, Feasible, Stuck, Settle, ResolveFromPostcondition, CanonicalStacks, AppendNode;
    EnteredSummary(g, path, w, e, o);
    AppendNodeErrors(g.Kind(e.sink), path);
    if Entered(g, path, e).Ok? {
      ResolveSettles(g, Entered(g, path, e).value, w + [e.sink], o);
    }
  }

  lemma AppendNodeErrors(node: Node, p: PartialPath)
    ensures AppendNode(node, p).Err? ==>
              AppendNode(node, p).error != StackOverflow && AppendNode(node, p).error != Panic
  {
  }
}
