/**
 When a partial path is cyclic, and what its cycle does: `PartialPath::is_cyclic` on the summaries
 that path finding builds, and why cycles that strengthen the precondition run out.
 */
module Cyclicity {
  import opened Wrappers
  import opened Graphs
  import opened Patterns
  import opened Unification
  import opened CanonicalUnification
  import opened CanonicalJoin
  import opened PartialPaths
  import opened Exactness
  import opened Renaming
  import opened Composition
  import opened Concatenation

  datatype Cyclicity = Free | StrengthensPrecondition | StrengthensPostcondition

  predicate BindsSymbols(v: Option<Var>, t: Tables) {
    v.Some? && v.value in t.symbols
  }

  predicate BindsScopes(v: Option<Var>, t: Tables) {
    v.Some? && v.value in t.scopes
  }

  /** None if the path does not lead back to its start or cannot be joined to itself. */
  function IsCyclic(g: Graph, p: PartialPath, depth: nat): Result<Option<Cyclicity>, PathResolutionError> {
    if p.startNode != p.endNode then Ok(None)
    else
      var rhs := p.RenamedApartFrom(p);
      match ComputeJoin(g, p, rhs, depth)
      case Err(e) => if e == Panic || e == StackOverflow then Err(e) else Ok(None)
      case Ok(t) =>
        if BindsSymbols(p.symbolPre.variable, t) || BindsScopes(p.scopePre.variable, t)
        then Ok(Some(StrengthensPrecondition))
        else if BindsSymbols(rhs.symbolPost.variable, t) || BindsScopes(rhs.scopePost.variable, t)
        then Ok(Some(StrengthensPostcondition))
        else Ok(Some(Free))
  }

  /** The numbers of symbols in the half-open pre- and postcondition. */
  function OpenPreLength(g: Graph, p: PartialPath): int {
    |p.symbolPre.symbols| - if g.Kind(p.startNode).PopSymbol? || g.Kind(p.startNode).PopScopedSymbol? then 1 else 0
  }

  function OpenPostLength(g: Graph, p: PartialPath): int {
    |p.symbolPost.symbols| - if g.Kind(p.endNode).PushSymbol? || g.Kind(p.endNode).PushScopedSymbol? then 1 else 0
  }

  /** What lies at the bottom of the symbol stack is carried through a walk. */
  lemma {:induction false} MovesFrame(g: Graph, w: Walk, s: Stacks, below: SymbolStack)
    requires Moves(g, w, s).Some?
    ensures var t := Moves(g, w, s).value;
            Moves(g, w, Stacks(s.symbols + below, s.scopes)) == Some(Stacks(t.symbols + below, t.scopes))
    decreases |w|
  {
    if |w| > 1 {
      var front := w[..|w| - 1];
      MovesFrame(g, front, s, below);
      if !g.Kind(w[|w| - 2]).JumpTo? {
        StepFrame(g.Kind(Last(w)), Moves(g, front, s).value, below);
      }
    }
  }

  lemma StepFrame(node: Node, s: Stacks, below: SymbolStack)
    requires Step(node, s).Some?
    ensures var t := Step(node, s).value;
            Step(node, Stacks(s.symbols + below, s.scopes)) == Some(Stacks(t.symbols + below, t.scopes))
  {
    if node.PopSymbol? || node.PopScopedSymbol? {
      assert (s.symbols + below)[1..] == s.symbols[1..] + below;
    } else if node.PushSymbol? || node.PushScopedSymbol? {
      var t := Step(node, s).value;
      assert t.symbols + below == [t.symbols[0]] + (s.symbols + below);
    }
  }

  lemma RunFrame(g: Graph, w: Walk, s: Stacks, below: SymbolStack)
    requires Run(g, w, s).Some?
    ensures var t := Run(g, w, s).value;
            Run(g, w, Stacks(s.symbols + below, s.scopes)) == Some(Stacks(t.symbols + below, t.scopes))
  {
    StepFrame(g.Kind(w[0]), s, below);
    MovesFrame(g, w, Step(g.Kind(w[0]), s).value, below);
  }

  /** So the symbol stack variable of an exact precondition also ends the postcondition. */
  lemma SymbolVariableCarriedThrough(g: Graph, p: PartialPath, w: Walk)
    requires Sound(g, p, w, Anywhere)
    ensures p.symbolPost.variable == p.symbolPre.variable
  {
    PostVariablesOccurInPre(g, p, w, Anywhere);
    assert p.symbolPost.variable.Some? ==> p.symbolPost.variable.value in p.symbolPost.SymbolVariables();
    if p.symbolPre.variable.Some? {
      var below := [ScopedSymbol(0, None)];
      var val := Valuation(imap[p.symbolPre.variable.value := below], imap[]);
      EvalSymbolsAgree(p.symbolPre.symbols, NOTHING, val);
      EvalScopesAgree(p.scopePre, NOTHING, val);
      EvalSymbolsAgree(p.symbolPost.symbols, NOTHING, val);
      assert Run(g, w, Before(p, NOTHING)) == Some(After(p, NOTHING));
      RunFrame(g, w, Before(p, NOTHING), below);
      assert Before(p, val) == Stacks(Before(p, NOTHING).symbols + below, Before(p, NOTHING).scopes);
      assert |After(p, val).symbols| == |After(p, NOTHING).symbols| + 1;
    }
  }

  /** A canonical summary of a closed walk, with a symbol stack variable. */
  ghost predicate OpenCycle(g: Graph, p: PartialPath, w: Walk) {
    && Summary(g, p, w, Anywhere) && Canonical(p) && p.symbolPre.variable.Some?
    && w[0] == Last(w)
  }

  /** Joining a summary to a canonical one with a symbol stack variable: which variable is bound to what. */
  lemma JoinTails(g: Graph, lhs: PartialPath, w: Walk, rhs: PartialPath, u: Walk, depth: nat, o: Origin)
    requires Joinable(g, lhs, w, rhs, u, o) && rhs.symbolPre.variable.Some?
    requires ComputeJoin(g, lhs, rhs, depth).Ok?
    ensures var t := ComputeJoin(g, lhs, rhs, depth).value;
            var ls, rs := LeftPost(g, lhs), RightPre(g, rhs).symbols;
            && |ls.symbols| == OpenPostLength(g, lhs) && |rs.symbols| == OpenPreLength(g, rhs)
            && t.scopes.Keys <= ScopesOfPre(rhs)
            && (if |rs.symbols| <= |ls.symbols|
                then t.symbols == map[rhs.symbolPre.variable.value := Drop(ls, |rs.symbols|)]
                else lhs.symbolPost.variable.Some? &&
                     t.symbols == map[lhs.symbolPost.variable.value := Drop(rs, |ls.symbols|)])
  {
    HalfOpenLeft(g, lhs, w, o);
    HalfOpenRight(g, rhs, u);
    JoinBindings(g, lhs, w, rhs, u, depth, o);
    PostVariablesOccurInPre(g, lhs, w, o);
    HalfOpenSizes(g, lhs, rhs);
    UnifiedSymbolBindings(LeftPost(g, lhs), lhs.scopePost, RightPre(g, rhs).symbols, RightPre(g, rhs).scopes, depth);
    TailBinding(LeftPost(g, lhs), RightPre(g, rhs).symbols, depth);
  }

  lemma HalfOpenSizes(g: Graph, lhs: PartialPath, rhs: PartialPath)
    requires HalfOpenPost(g.Kind(lhs.endNode), lhs.symbolPost).Some?
    requires HalfOpenPre(g.Kind(rhs.startNode), rhs.symbolPre, rhs.scopePre).Some?
    ensures |LeftPost(g, lhs).symbols| == OpenPostLength(g, lhs)
    ensures |RightPre(g, rhs).symbols.symbols| == OpenPreLength(g, rhs)
    ensures LeftPost(g, lhs).variable == lhs.symbolPost.variable
    ensures RightPre(g, rhs).symbols.variable == rhs.symbolPre.variable
  {
  }

  lemma UnifiedSymbolBindings(ls: PartialSymbolStack, lc: PartialScopeStack, rs: PartialSymbolStack,
                              rc: PartialScopeStack, depth: nat)
    requires UnifyStacks(ls, lc, rs, rc, depth).Ok?
    ensures UnifySymbols(ls, rs, [], map[], map[], depth).Ok?
    ensures UnifyStacks(ls, lc, rs, rc, depth).value.symbols ==
            UnifySymbols(ls, rs, [], map[], map[], depth).value.symbols
  {
  }

  /**
   For a cycle that path finding builds, `is_cyclic` reports StrengthensPrecondition exactly when the
   cycle can be run twice in a row and takes more symbols off the stack than it puts there.  If it can
   be run twice but takes no more than it puts, the report is StrengthensPostcondition, never Free.
   */
  lemma CycleKind(g: Graph, p: PartialPath, w: Walk, depth: nat)
    requires OpenCycle(g, p, w)
    ensures IsCyclic(g, p, depth) ==
            if !Feasible(g, Splice(w, w), Anywhere) then Ok(None)
            else if OpenPreLength(g, p) > OpenPostLength(g, p) then Ok(Some(StrengthensPrecondition))
            else Ok(Some(StrengthensPostcondition))
  {
    var rhs := p.RenamedApartFrom(p);
    var so, co := p.symbolPre.LargestSymbolVariable(), p.LargestScopeVariable();
    RenamedIsApart(p, p);
    OffsetSummary(g, p, w, so, co, Anywhere);
    OffsetCanonical(p, so, co);
    assert Joinable(g, p, w, rhs, w, Anywhere);
    SymbolVariableCarriedThrough(g, p, w);
    SymbolVariableCarriedThrough(g, rhs, w);
    JoinedExact(g, p, w, rhs, w, depth, Anywhere);
    if ComputeJoin(g, p, rhs, depth).Ok? {
      JoinTails(g, p, w, rhs, w, depth, Anywhere);
      assert p.scopePre.variable.value in ScopesOfPre(p);
      assert p.symbolPre.variable.value in p.symbolPre.SymbolVariables();
      assert rhs.symbolPre.variable.value in rhs.symbolPre.SymbolVariables();
    }
  }

  /** Two canonical summaries of one cycle are of the same kind. */
  lemma CycleKindOfWalk(g: Graph, p: PartialPath, q: PartialPath, w: Walk, depth: nat, depth': nat)
    requires OpenCycle(g, p, w) && OpenCycle(g, q, w)
    ensures IsCyclic(g, p, depth) == IsCyclic(g, q, depth')
  {
    CycleKind(g, p, w, depth);
    CycleKind(g, q, w, depth');
    SummariesOfSize(g, p, q, w);
    SummariesOfSize(g, q, p, w);
  }

  lemma SummariesOfSize(g: Graph, p: PartialPath, q: PartialPath, w: Walk)
    requires OpenCycle(g, p, w) && OpenCycle(g, q, w)
    ensures |p.symbolPre.symbols| >= |q.symbolPre.symbols|
    ensures |p.symbolPre.symbols| == |q.symbolPre.symbols| ==> |p.symbolPost.symbols| == |q.symbolPost.symbols|
  {
    SymbolVariableCarriedThrough(g, q, w);
    assert Run(g, w, Before(p, NOTHING)) == Some(After(p, NOTHING));
    var val :| Before(q, val) == Before(p, NOTHING);
    assert Run(g, w, Before(q, val)) == Some(After(q, val));
    assert |Before(p, NOTHING).symbols| == |p.symbolPre.symbols|;
    assert |Before(q, val).symbols| == |q.symbolPre.symbols| + |SymbolValue(val, q.symbolPre.variable.value)|;
    assert |After(p, NOTHING).symbols| == |p.symbolPost.symbols|;
    assert |After(q, val).symbols| == |q.symbolPost.symbols| + |SymbolValue(val, q.symbolPre.variable.value)|;
  }

  // ---------------------------------------------------------------------------------------------
  // Cycles that strengthen the precondition run out

  /** A path without precondition variables has none in its postcondition either. */
  ghost predicate Closed(p: PartialPath) {
    p.symbolPre.variable.None? && p.scopePre.variable.None? && p.symbolPre.ScopeVariables() == {}
  }

  /** Appending a cycle to a closed path changes the length of its symbol stack by a fixed amount. */
  lemma AppendCycle(g: Graph, path: PartialPath, w: Walk, p: PartialPath, u: Walk, depth: nat, o: Origin)
    requires Summary(g, path, w, o) && Closed(path)
    requires OpenCycle(g, p, u) && Last(w) == u[0] && !g.Kind(u[0]).JumpTo?
    requires AppendPath(g, path, p, depth).Ok?
    ensures var q := AppendPath(g, path, p, depth).value;
            && Summary(g, q, Splice(w, u), o) && Closed(q)
            && |q.symbolPost.symbols| == |path.symbolPost.symbols| - (OpenPreLength(g, p) - OpenPostLength(g, p))
  {
    var so, co := p.symbolPre.LargestSymbolVariable(), p.LargestScopeVariable();
    var lhs := path.RenamedApartFrom(p);
    OffsetSummary(g, path, w, so, co, o);
    RenamedIsApart(path, p);
    AppendPathSummary(g, path, w, p, u, depth, o);
    ClosedOffset(path, so, co);
    PostVariablesOccurInPre(g, lhs, w, o);
    SymbolVariableCarriedThrough(g, p, u);
    JoinTails(g, lhs, w, p, u, depth, o);
    VariableOccurs(lhs.symbolPost);
    ClosedSubst(lhs, ComputeJoin(g, lhs, p, depth).value);
  }

  lemma VariableOccurs(s: PartialSymbolStack)
    ensures s.variable.Some? ==> s.variable.value in s.SymbolVariables()
  {
  }

  lemma ClosedOffset(p: PartialPath, so: nat, co: nat)
    requires Closed(p)
    ensures Closed(p.WithOffset(so, co))
  {
    var q := p.WithOffset(so, co);
    if v :| v in q.symbolPre.ScopeVariables() {
      OffsetVariables(p.symbolPre, so, co, v);
    }
  }

  lemma ClosedSubst(p: PartialPath, t: Tables)
    requires Closed(p)
    ensures SubstStack(p.symbolPre, t.symbols, t.scopes) == p.symbolPre
    ensures SubstScopes(p.scopePre, t.scopes) == p.scopePre
  {
    SubstUntouched(p.symbolPre.symbols, t.scopes);
  }

  /** The path with the cycle appended `times` times. */
  function Repeat(g: Graph, path: PartialPath, cycle: PartialPath, times: nat, depth: nat)
    : Result<PartialPath, PathResolutionError>
  {
    if times == 0 then Ok(path)
    else
      match Repeat(g, path, cycle, times - 1, depth)
      case Err(e) => Err(e)
      case Ok(p) => AppendPath(g, p, cycle, depth)
  }

  lemma {:induction false} RepeatCycle(g: Graph, path: PartialPath, w: Walk, p: PartialPath, u: Walk,
                                       times: nat, depth: nat, o: Origin) returns (v: Walk)
    requires Summary(g, path, w, o) && Closed(path)
    requires OpenCycle(g, p, u) && Last(w) == u[0] && !g.Kind(u[0]).JumpTo?
    requires Repeat(g, path, p, times, depth).Ok?
    ensures var q := Repeat(g, path, p, times, depth).value;
            && Summary(g, q, v, o) && Closed(q) && Last(v) == u[0]
            && |q.symbolPost.symbols| ==
               |path.symbolPost.symbols| - times * (OpenPreLength(g, p) - OpenPostLength(g, p))
  {
    hide Closed, Summary, AppendPath, OpenPreLength, OpenPostLength;
    if times == 0 {
      v := w;
    } else {
      var front := RepeatCycle(g, path, w, p, u, times - 1, depth, o);
      var q := Repeat(g, path, p, times - 1, depth).value;
      AppendCycle(g, q, front, p, u, depth, o);
      v := Splice(front, u);
    }
  }

  /** A cycle that strengthens the precondition cannot be repeated more often than the stack has symbols. */
  lemma StrengtheningRunsOut(g: Graph, path: PartialPath, w: Walk, p: PartialPath, u: Walk, times: nat, depth: nat,
                             o: Origin)
    requires Summary(g, path, w, o) && Closed(path)
    requires OpenCycle(g, p, u) && Last(w) == u[0] && !g.Kind(u[0]).JumpTo?
    requires IsCyclic(g, p, depth) == Ok(Some(StrengthensPrecondition))
    requires Repeat(g, path, p, times, depth).Ok?
    ensures times <= |path.symbolPost.symbols|
  {
    hide IsCyclic, Summary, Repeat, Closed;
    CycleKind(g, p, u, depth);
    var v := RepeatCycle(g, path, w, p, u, times, depth, o);
    var shrinks := OpenPreLength(g, p) - OpenPostLength(g, p);
    TimesAtLeast(times, shrinks);
  }

  lemma TimesAtLeast(times: nat, k: int)
    requires k >= 1
    ensures times * k >= times
  {
  }
}
