/** Concatenating and stitching partial paths: summaries in, summaries out. */
module Concatenation {
  import opened Wrappers
  import opened Graphs
  import opened Patterns
  import opened Unification
  import opened CanonicalUnification
  import opened CanonicalJoin
  import opened PartialPaths
  import opened Exactness
  import opened AppendExactness
  import opened Renaming
  import opened Composition

  ghost predicate SymbolScopesExist(g: Graph, symbols: seq<PartialScopedSymbol>) {
    forall i :: 0 <= i < |symbols| && symbols[i].scopes.Some? ==> ScopeNodes(g, symbols[i].scopes.value.scopes)
  }

  lemma CanonicalScopesExist(g: Graph, symbols: seq<PartialScopedSymbol>)
    requires CanonicalSymbols(symbols)
    ensures SymbolScopesExist(g, symbols)
  {
    forall i | 0 <= i < |symbols| && symbols[i].scopes.Some?
      ensures ScopeNodes(g, symbols[i].scopes.value.scopes)
    {
      assert symbols[i].scopes.value.IsBare();
    }
  }

  /** Joining brings no scope into the postcondition that neither side had in its own. */
  lemma JoinedScopesExist(g: Graph, lhs: PartialPath, w: Walk, rhs: PartialPath, u: Walk, depth: nat, o: Origin)
    requires Joinable(g, lhs, w, rhs, u, o)
    requires Joined(g, lhs, rhs, depth).Ok?
    ensures PostScopesExist(g, Joined(g, lhs, rhs, depth).value)
  {
    hide ComputeJoin, Exact, Canonical, Solved, Satisfies;
    JoinBindings(g, lhs, w, rhs, u, depth, o);
    HalfOpenRight(g, rhs, u);
    HalfOpenLeft(g, lhs, w, o);
    var t := ComputeJoin(g, lhs, rhs, depth).value;
    var ls, rs := LeftPost(g, lhs), RightPre(g, rhs).symbols;
    assert SymbolScopesExist(g, ls.symbols);
    CanonicalScopesExist(g, rs.symbols);
    forall v | v in t.scopes
      ensures ScopeNodes(g, t.scopes[v].scopes)
    {
      if t.scopes[v] != lhs.scopePost {
        var i :| 0 <= i < |ls.symbols| && ls.symbols[i].scopes == Some(t.scopes[v]);
      }
    }
    forall v | v in t.symbols
      ensures SymbolScopesExist(g, t.symbols[v].symbols)
    {
    }
    SubstScopesExist(g, rhs.symbolPost.symbols, t.scopes);
  }

  lemma SubstScopesExist(g: Graph, symbols: seq<PartialScopedSymbol>, cb: ScopeBindings)
    requires SymbolScopesExist(g, symbols)
    requires forall v :: v in cb ==> ScopeNodes(g, cb[v].scopes)
    ensures SymbolScopesExist(g, SubstSymbols(symbols, cb))
  {
    forall i | 0 <= i < |symbols| && symbols[i].scopes.Some?
      ensures ScopeNodes(g, SubstScopes(symbols[i].scopes.value, cb).scopes)
    {
    }
  }

  /** A substitution that binds none of a stack's scope variables leaves its symbols alone. */
  lemma SubstUntouched(symbols: seq<PartialScopedSymbol>, cb: ScopeBindings)
    requires SymbolsScopeVariables(symbols) !! cb.Keys
    ensures SubstSymbols(symbols, cb) == symbols
  {
    forall i | 0 <= i < |symbols|
      ensures SubstSymbol(symbols[i], cb) == symbols[i]
    {
      assert symbols[i].ScopeVariables() <= SymbolsScopeVariables(symbols);
    }
  }

  lemma CanonicalConcat(a: seq<PartialScopedSymbol>, b: seq<PartialScopedSymbol>)
    requires CanonicalSymbols(a) && CanonicalSymbols(b)
    requires SymbolsScopeVariables(a) !! SymbolsScopeVariables(b)
    ensures CanonicalSymbols(a + b)
  {
    var c := a + b;
    forall i, j | 0 <= i < j < |c| && c[i].scopes.Some? && c[j].scopes.Some?
      ensures c[i].scopes != c[j].scopes
    {
      if i < |a| && j >= |a| {
        assert a[i].ScopeVariables() <= SymbolsScopeVariables(a);
        assert b[j - |a|].ScopeVariables() <= SymbolsScopeVariables(b);
        assert a[i].scopes.value.IsBare();
        assert a[i].scopes.value.variable.value in a[i].ScopeVariables();
      }
    }
  }

  /** Joining two canonical paths gives a canonical path. */
  lemma JoinedCanonical(g: Graph, lhs: PartialPath, w: Walk, rhs: PartialPath, u: Walk, depth: nat, o: Origin)
    requires Joinable(g, lhs, w, rhs, u, o) && Canonical(lhs)
    requires Joined(g, lhs, rhs, depth).Ok?
    ensures Canonical(Joined(g, lhs, rhs, depth).value)
    ensures Open(lhs) && Open(rhs) ==> Open(Joined(g, lhs, rhs, depth).value)
  {
    JoinBindings(g, lhs, w, rhs, u, depth, o);
    HalfOpenRight(g, rhs, u);
    HalfOpenLeft(g, lhs, w, o);
    var t := ComputeJoin(g, lhs, rhs, depth).value;
    var ls, rs := LeftPost(g, lhs), RightPre(g, rhs).symbols;
    SubstUntouched(lhs.symbolPre.symbols, t.scopes);
    assert lhs.scopePre.variable.value in lhs.scopePre.ScopeVariables();
    if lhs.symbolPre.variable.Some? && lhs.symbolPre.variable.value in t.symbols {
      var v := lhs.symbolPre.variable.value;
      assert v in lhs.symbolPre.SymbolVariables();
      var k := |ls.symbols|;
      assert t.symbols[v] == Drop(rs, k);
      DropVariables(rs, k);
      CanonicalSuffix(rs.symbols, k);
      CanonicalConcat(lhs.symbolPre.symbols, rs.symbols[k..]);
      SymbolsScopeVariablesConcat(lhs.symbolPre.symbols, rs.symbols[k..]);
    }
  }

  lemma CanonicalSuffix(symbols: seq<PartialScopedSymbol>, k: nat)
    requires CanonicalSymbols(symbols) && k <= |symbols|
    ensures CanonicalSymbols(symbols[k..])
  {
  }

  /**
   Concatenation is exact composition.  For exact summaries that meet in a node, the right one
   canonical and variables apart, joining succeeds exactly when some stacks can run both walks, the
   join node counted once, and the result relates exactly the stacks that the spliced walk relates.
   */
  lemma JoinedSummary(g: Graph, lhs: PartialPath, w: Walk, rhs: PartialPath, u: Walk, depth: nat, o: Origin)
    requires Joinable(g, lhs, w, rhs, u, o)
    ensures var r := Joined(g, lhs, rhs, depth);
            && (r.Ok? <==> Feasible(g, Splice(w, u), o))
            && (r.Ok? ==> Summary(g, r.value, Splice(w, u), o) && Denotes(g, r.value, Splice(w, u), o))
            && (r.Ok? && Canonical(lhs) ==> Canonical(r.value))
            && (r.Ok? && Open(lhs) && Open(rhs) ==> Open(r.value))
            && (r.Ok? ==> r.value.edges == lhs.edges + rhs.edges)
            && (r.Err? ==> r.error != StackOverflow && r.error != Panic)
  {
    JoinedExact(g, lhs, w, rhs, u, depth, o);
    if Joined(g, lhs, rhs, depth).Ok? {
      JoinedScopesExist(g, lhs, w, rhs, u, depth, o);
      ExactDenotes(g, Joined(g, lhs, rhs, depth).value, Splice(w, u), o);
      if Canonical(lhs) {
        JoinedCanonical(g, lhs, w, rhs, u, depth, o);
      }
    }
  }

  /** Concatenation also follows the jump at the end of the right walk, if its target is known. */
  lemma ConcatenateSummary(g: Graph, lhs: PartialPath, w: Walk, rhs: PartialPath, u: Walk, depth: nat, o: Origin)
    requires Joinable(g, lhs, w, rhs, u, o)
    ensures var r := Concatenate(g, lhs, rhs, depth);
            && (r.Ok? ==>
                  && Joined(g, lhs, rhs, depth).Ok?
                  && Summary(g, r.value, Settled(g, Joined(g, lhs, rhs, depth).value, Splice(w, u)), o))
            && (r.Err? && Feasible(g, Splice(w, u), o) ==>
                  g.Kind(rhs.endNode).JumpTo? && forall n :: !Feasible(g, Splice(w, u) + [n], o))
            && (r.Ok? && Canonical(lhs) ==> Canonical(r.value))
            && (!g.Kind(rhs.endNode).JumpTo? ==>
                  && r == Joined(g, lhs, rhs, depth)
                  && (r.Ok? <==> Feasible(g, Splice(w, u), o)))
  {
    JoinedSummary(g, lhs, w, rhs, u, depth, o);
    if Joined(g, lhs, rhs, depth).Ok? {
      ResolveExact(g, Joined(g, lhs, rhs, depth).value, Splice(w, u), o);
    }
  }

  /**
   Appending a stored path while stitching, away from jumps: renaming and concatenating extends a
   summary of one walk to a summary of the longer walk, and fails exactly when no stacks can run it.
   */
  lemma AppendPathSummary(g: Graph, path: PartialPath, w: Walk, next: PartialPath, u: Walk, depth: nat, o: Origin)
    requires Summary(g, path, w, o) && Summary(g, next, u, Anywhere) && Canonical(next)
    requires Last(w) == u[0] && !g.Kind(Last(w)).JumpTo? && !g.Kind(Last(u)).JumpTo?
    ensures var r := AppendPath(g, path, next, depth);
            && (r.Ok? <==> Feasible(g, Splice(w, u), o))
            && (r.Ok? ==> Summary(g, r.value, Splice(w, u), o) && Denotes(g, r.value, Splice(w, u), o))
            && (r.Ok? && Canonical(path) ==> Canonical(r.value))
            && (r.Ok? && Open(path) && Open(next) ==> Open(r.value))
            && (r.Ok? ==> r.value.edges == path.edges + next.edges)
            && (r.Err? ==> r.error != StackOverflow && r.error != Panic)
  {
    var so, co := next.symbolPre.LargestSymbolVariable(), next.LargestScopeVariable();
    OffsetSummary(g, path, w, so, co, o);
    RenamedIsApart(path, next);
    if Canonical(path) {
      OffsetCanonical(path, so, co);
    }
    JoinedSummary(g, path.RenamedApartFrom(next), w, next, u, depth, o);
  }
}
