/**
 Concatenation where targets of jumps have been chosen.  Joining to a path with a linear precondition succeeds
 exactly when stacks can run both walks; but the result is exact only if its postcondition mentions no variable
 that has gone from its precondition, because bindings are substituted once and may mention bound variables.
 */
module LinearComposition {
  import opened Wrappers
  import opened Graphs
  import opened Patterns
  import opened Unification
  import opened CanonicalUnification
  import opened CanonicalJoin
  import opened LinearUnification
  import opened PartialPaths
  import opened Exactness
  import opened Renaming
  import opened Composition
  import opened Concatenation

  ghost predicate Linear(p: PartialPath) {
    LinearStacks(p.symbolPre, p.scopePre)
  }

  /** Every variable of the postcondition occurs in the precondition. */
  ghost predicate Closing(p: PartialPath) {
    ScopesOfPost(p) <= ScopesOfPre(p)
  }

  lemma HalfOpenLinear(g: Graph, lhs: PartialPath, w: Walk, rhs: PartialPath, u: Walk, o: Origin)
    requires Adjacent(g, lhs, w, rhs, u, o) && Linear(rhs)
    ensures LinearStacks(RightPre(g, rhs).symbols, RightPre(g, rhs).scopes)
  {
    hide Summary, Opens;
    HalfOpened(g, rhs, u);
    var node := g.Kind(rhs.startNode);
    if node.PopSymbol? || node.PopScopedSymbol? {
      LinearTail(rhs.symbolPre.symbols);
      assert Drop(rhs.symbolPre, 1).ScopeVariables() == SymbolsScopeVariables(rhs.symbolPre.symbols[1..]);
      assert rhs.symbolPre.symbols[0].scopes.Some? ==>
          rhs.symbolPre.symbols[0].scopes.value.variable.value in rhs.symbolPre.symbols[0].ScopeVariables();
    }
  }

  /** What `compute_join` finds against a linear precondition. */
  lemma LinearBindings(g: Graph, lhs: PartialPath, w: Walk, rhs: PartialPath, u: Walk, depth: nat, o: Origin)
    requires Adjacent(g, lhs, w, rhs, u, o) && Linear(rhs) && depth > 0
    ensures var r := ComputeJoin(g, lhs, rhs, depth);
            && (r.Err? ==> r.error != StackOverflow && r.error != Panic)
            && (r.Err? ==> forall val :: !Meets(g, lhs, rhs, val))
            && (r.Ok? ==> forall val :: Meets(g, lhs, rhs, val) <==> Satisfies(val, r.value))
            && (r.Ok? ==> LinearTables(r.value, LeftPost(g, lhs), lhs.scopePost, RightPre(g, rhs).symbols))
  {
    hide Adjacent, Linear, UnifyStacks, Equates, Satisfies, LinearTables, LeftPost, RightPre;
    JoinUnifies(g, lhs, w, rhs, u, depth, o);
    HalfOpenLinear(g, lhs, w, rhs, u, o);
    var ls, rs, rc := LeftPost(g, lhs), RightPre(g, rhs).symbols, RightPre(g, rhs).scopes;
    UnifyStacksLinear(ls, lhs.scopePost, rs, rc, depth);
    UnificationErrors(ls, lhs.scopePost, rs, rc, depth);
  }

  /** How the tables of a join relate to the variables of both sides. */
  ghost predicate Bound(t: Tables, lhs: PartialPath, rhs: PartialPath) {
    && (forall x :: x in t.scopes && x in ScopesOfPre(lhs) ==>
          t.scopes[x].scopes != [] && t.scopes[x].variable.Some? && t.scopes[x].variable.value !in t.scopes)
    && (forall x :: x in t.symbols ==> t.symbols[x].SymbolVariables() !! t.symbols.Keys)
    && (forall x :: x in t.symbols && x in lhs.symbolPre.SymbolVariables() ==>
          t.symbols[x].ScopeVariables() !! t.scopes.Keys)
  }

  /** The scopes that a stack of symbols has attached. */
  ghost function AttachedNodes(symbols: seq<PartialScopedSymbol>): set<NodeHandle> {
    set i, n | 0 <= i < |symbols| && symbols[i].scopes.Some? && n in symbols[i].scopes.value.scopes :: n
  }

  lemma StackIsWithin(s: PartialSymbolStack, vars: set<Var>, nodes: set<NodeHandle>)
    requires s.ScopeVariables() <= vars && AttachedNodes(s.symbols) <= nodes
    ensures SymbolsWithin(s.symbols, vars, nodes)
  {
    forall i | 0 <= i < |s.symbols| && s.symbols[i].scopes.Some?
      ensures StackWithin(s.symbols[i].scopes.value, vars, nodes)
    {
      assert s.symbols[i].ScopeVariables() <= s.ScopeVariables();
      assert s.symbols[i].scopes.value.ScopeVariables() == s.symbols[i].ScopeVariables();
    }
  }

  ghost function NodesOf(symbols: PartialSymbolStack, scopes: PartialScopeStack): set<NodeHandle> {
    AttachedNodes(symbols.symbols) + set n | n in scopes.scopes
  }

  lemma JoinWithin(g: Graph, lhs: PartialPath, w: Walk, rhs: PartialPath, u: Walk, depth: nat, o: Origin)
    requires Adjacent(g, lhs, w, rhs, u, o) && ComputeJoin(g, lhs, rhs, depth).Ok?
    ensures var ls, pre := LeftPost(g, lhs), RightPre(g, rhs);
            Within(ComputeJoin(g, lhs, rhs, depth).value.scopes,
                   ls.ScopeVariables() + lhs.scopePost.ScopeVariables() + ScopesOfPre(rhs),
                   NodesOf(LeftPost(g, lhs), lhs.scopePost) + NodesOf(pre.symbols, pre.scopes))
  {
    hide Junction, Opens, UnifyStacks, Meeting, Within, StackWithin, SymbolsWithin;
    HalfOpenLeft(g, lhs, w, o);
    HalfOpened(g, rhs, u);
    var pre := RightPre(g, rhs);
    var vars := LeftPost(g, lhs).ScopeVariables() + lhs.scopePost.ScopeVariables() + ScopesOfPre(rhs);
    var nodes := NodesOf(LeftPost(g, lhs), lhs.scopePost) + NodesOf(pre.symbols, pre.scopes);
    JoinUnifies(g, lhs, w, rhs, u, depth, o);
    StackIsWithin(LeftPost(g, lhs), vars, nodes);
    StackIsWithin(pre.symbols, vars, nodes);
    assert StackWithin(lhs.scopePost, vars, nodes) && StackWithin(pre.scopes, vars, nodes) by {
      ScopesWithin(lhs.scopePost, vars, nodes);
      ScopesWithin(pre.scopes, vars, nodes);
    }
    UnifyStacksWithin(LeftPost(g, lhs), lhs.scopePost, pre.symbols, pre.scopes, vars, nodes, depth);
  }

  lemma ScopesWithin(s: PartialScopeStack, vars: set<Var>, nodes: set<NodeHandle>)
    requires s.ScopeVariables() <= vars && (set n | n in s.scopes) <= nodes
    ensures StackWithin(s, vars, nodes)
  {
    assert forall n :: n in s.scopes ==> n in set m | m in s.scopes;
  }

  lemma JoinBound(g: Graph, lhs: PartialPath, w: Walk, rhs: PartialPath, u: Walk, depth: nat, o: Origin)
    requires Adjacent(g, lhs, w, rhs, u, o) && Linear(rhs) && depth > 0
    requires ComputeJoin(g, lhs, rhs, depth).Ok?
    ensures Bound(ComputeJoin(g, lhs, rhs, depth).value, lhs, rhs)
  {
    hide Meets, Satisfies, Completable, Summary, NodesOf, UnifyStacks, ComputeJoin, StackWithin, MatchTails;
    var t := ComputeJoin(g, lhs, rhs, depth).value;
    LinearBindings(g, lhs, w, rhs, u, depth, o);
    JoinWithin(g, lhs, w, rhs, u, depth, o);
    JoinVariables(g, lhs, w, rhs, u, o);
    var ls, rs := LeftPost(g, lhs), RightPre(g, rhs).symbols;
    var k := Min(|ls.symbols|, |rs.symbols|);
    var tails := MatchTails(Drop(ls, k), Drop(rs, k)).value;
    if tails.BindTail? {
      TailUnbound(Drop(ls, k), Drop(rs, k));
    }
    assert Drop(rs, k).ScopeVariables() == SymbolsScopeVariables(rs.symbols[k..]);
    forall x | x in t.scopes && x in ScopesOfPre(lhs)
      ensures t.scopes[x].scopes != [] && t.scopes[x].variable.Some? && t.scopes[x].variable.value !in t.scopes
    {
      assert x in ls.ScopeVariables() + lhs.scopePost.ScopeVariables();
    }
  }

  lemma JoinVariables(g: Graph, lhs: PartialPath, w: Walk, rhs: PartialPath, u: Walk, o: Origin)
    requires Adjacent(g, lhs, w, rhs, u, o)
    ensures var ls, rs := LeftPost(g, lhs), RightPre(g, rhs).symbols;
            && ls.SymbolVariables() == lhs.symbolPost.SymbolVariables() <= lhs.symbolPre.SymbolVariables()
            && rs.SymbolVariables() == rhs.symbolPre.SymbolVariables()
            && ls.SymbolVariables() !! rs.SymbolVariables()
            && ls.ScopeVariables() <= lhs.symbolPost.ScopeVariables()
            && ScopesOfPost(lhs) <= ScopesOfPre(lhs) && ScopesOfPre(lhs) !! ScopesOfPre(rhs)
            && lhs.symbolPre.SymbolVariables() !! rhs.symbolPre.SymbolVariables()
  {
    hide Junction, Opens, Meeting;
    HalfOpenLeft(g, lhs, w, o);
    HalfOpened(g, rhs, u);
    PostVariablesOccurInPre(g, lhs, w, o);
  }

  // ---------------------------------------------------------------------------------------------
  // Substituting once

  /** For a variable that is unbound, or bound to unbound ones only, substituting once gives what it stands for. */
  lemma ThroughSolution(t: Tables, c: Valuation, val: Valuation, v: Var)
    requires Solves(c, val, t)
    ensures (v in t.scopes ==> t.scopes[v].ScopeVariables() !! t.scopes.Keys) ==>
              ScopeValue(Through(val, t.symbols, t.scopes), v) == ScopeValue(c, v)
    ensures (v in t.symbols ==>
               t.symbols[v].SymbolVariables() !! t.symbols.Keys && t.symbols[v].ScopeVariables() !! t.scopes.Keys) ==>
              SymbolValue(Through(val, t.symbols, t.scopes), v) == SymbolValue(c, v)
  {
    hide EvalStack, EvalScopes;
    if v in t.scopes && t.scopes[v].ScopeVariables() !! t.scopes.Keys {
      EvalScopesAgree(t.scopes[v], val, c);
    }
    if v in t.symbols && t.symbols[v].SymbolVariables() !! t.symbols.Keys &&
       t.symbols[v].ScopeVariables() !! t.scopes.Keys {
      EvalStackAgree(t.symbols[v], val, c);
    }
  }

  lemma ThroughLeft(t: Tables, lhs: PartialPath, rhs: PartialPath, c: Valuation, val: Valuation)
    requires Bound(t, lhs, rhs) && Solves(c, val, t)
    ensures Before(lhs, Through(val, t.symbols, t.scopes)) == Before(lhs, c)
  {
    hide Through, Solves, EvalStack, EvalScopes;
    forall v: Var {
      ThroughSolution(t, c, val, v);
    }
    EvalStackAgree(lhs.symbolPre, Through(val, t.symbols, t.scopes), c);
    EvalScopesAgree(lhs.scopePre, Through(val, t.symbols, t.scopes), c);
  }

  lemma SubstVariables(s: PartialScopeStack, cb: ScopeBindings)
    ensures SubstScopes(s, cb).ScopeVariables() ==
            if s.variable.Some? && s.variable.value in cb then cb[s.variable.value].ScopeVariables()
            else s.ScopeVariables()
  {
  }

  /** The scope variables after a substitution: unbound ones, and those of what bound ones are bound to. */
  lemma SubstStackVariables(s: PartialSymbolStack, t: Tables, v: Var)
    ensures var symbols := SymbolsScopeVariables(SubstSymbols(s.symbols, t.scopes));
            && (v in s.ScopeVariables() && v !in t.scopes ==> v in symbols)
            && (forall x :: x in s.ScopeVariables() && x in t.scopes && v in t.scopes[x].ScopeVariables() ==>
                  v in symbols)
            && (v in symbols && v in t.scopes ==>
                  exists x :: x in s.ScopeVariables() && x in t.scopes && v in t.scopes[x].ScopeVariables())
    ensures SubstStack(s, t.symbols, t.scopes).ScopeVariables() ==
            SymbolsScopeVariables(SubstSymbols(s.symbols, t.scopes)) +
            if s.variable.Some? && s.variable.value in t.symbols then t.symbols[s.variable.value].ScopeVariables()
            else {}
  {
    var after := SubstSymbols(s.symbols, t.scopes);
    forall i | 0 <= i < |s.symbols| && s.symbols[i].scopes.Some?
      ensures after[i].ScopeVariables() == SubstScopes(s.symbols[i].scopes.value, t.scopes).ScopeVariables()
    {
      assert after[i] == SubstSymbol(s.symbols[i], t.scopes);
    }
    SubstMembers(s.symbols, t.scopes, v);
    if s.variable.Some? && s.variable.value in t.symbols {
      SymbolsScopeVariablesConcat(after, t.symbols[s.variable.value].symbols);
    }
  }

  lemma SubstMembers(symbols: seq<PartialScopedSymbol>, cb: ScopeBindings, v: Var)
    ensures var after := SymbolsScopeVariables(SubstSymbols(symbols, cb));
            && (v in SymbolsScopeVariables(symbols) && v !in cb ==> v in after)
            && (forall x :: x in SymbolsScopeVariables(symbols) && x in cb && v in cb[x].ScopeVariables() ==>
                  v in after)
            && (v in after && v in cb ==>
                  exists x :: x in SymbolsScopeVariables(symbols) && x in cb && v in cb[x].ScopeVariables())
  {
    var after := SubstSymbols(symbols, cb);
    forall i | 0 <= i < |symbols|
      ensures after[i] == SubstSymbol(symbols[i], cb)
    {
    }
    forall x | x in SymbolsScopeVariables(symbols)
      ensures x !in cb && x == v ==> v in SymbolsScopeVariables(after)
      ensures x in cb && v in cb[x].ScopeVariables() ==> v in SymbolsScopeVariables(after)
    {
      var i :| 0 <= i < |symbols| && x in symbols[i].ScopeVariables();
      SubstVariables(symbols[i].scopes.value, cb);
      assert after[i].ScopeVariables() == SubstScopes(symbols[i].scopes.value, cb).ScopeVariables();
    }
    if v in SymbolsScopeVariables(after) && v in cb {
      var i :| 0 <= i < |after| && v in after[i].ScopeVariables();
      SubstVariables(symbols[i].scopes.value, cb);
      var x := symbols[i].scopes.value.variable.value;
      assert x in symbols[i].ScopeVariables();
      assert x in SymbolsScopeVariables(symbols) && x in cb && v in cb[x].ScopeVariables();
    }
  }

  /** No bound variable is left in the precondition of a join. */
  lemma JoinedPreUnbound(t: Tables, lhs: PartialPath, rhs: PartialPath, v: Var)
    requires Bound(t, lhs, rhs) && v in t.scopes
    ensures v !in SubstStack(lhs.symbolPre, t.symbols, t.scopes).ScopeVariables()
    ensures v !in SubstScopes(lhs.scopePre, t.scopes).ScopeVariables()
  {
    hide SubstStack;
    SubstStackVariables(lhs.symbolPre, t, v);
    SubstVariables(lhs.scopePre, t.scopes);
    assert lhs.symbolPre.variable.Some? ==> lhs.symbolPre.variable.value in lhs.symbolPre.SymbolVariables();
    assert lhs.scopePre.variable.Some? ==> lhs.scopePre.variable.value in ScopesOfPre(lhs);
  }

  /** If the result is closing, no variable of the right postcondition is bound to a bound one. */
  lemma ThroughRight(g: Graph, lhs: PartialPath, rhs: PartialPath, u: Walk, t: Tables, depth: nat, c: Valuation,
                     val: Valuation)
    requires Sound(g, rhs, u, Anywhere) && ComputeJoin(g, lhs, rhs, depth) == Ok(t)
    requires Bound(t, lhs, rhs) && Solves(c, val, t) && Closing(Joined(g, lhs, rhs, depth).value)
    ensures After(rhs, Through(val, t.symbols, t.scopes)) == After(rhs, c)
  {
    hide Through, Solves, EvalStack, EvalScopes, Sound, SubstStack, SubstScopes, ComputeJoin;
    var q := Joined(g, lhs, rhs, depth).value;
    var through := Through(val, t.symbols, t.scopes);
    forall v | v in t.scopes
      ensures v !in ScopesOfPost(q)
    {
      JoinedPreUnbound(t, lhs, rhs, v);
    }
    forall x | x in ScopesOfPost(rhs)
      ensures ScopeValue(through, x) == ScopeValue(c, x)
    {
      forall v | x in t.scopes && v in t.scopes[x].ScopeVariables()
        ensures v in ScopesOfPost(q)
      {
        SubstStackVariables(rhs.symbolPost, t, v);
        SubstVariables(rhs.scopePost, t.scopes);
        assert rhs.scopePost.variable.Some? ==> rhs.scopePost.ScopeVariables() == {rhs.scopePost.variable.value};
      }
      ThroughSolution(t, c, val, x);
    }
    forall x | x in rhs.symbolPost.SymbolVariables()
      ensures SymbolValue(through, x) == SymbolValue(c, x)
    {
      SubstStackVariables(rhs.symbolPost, t, x);
      ThroughSolution(t, c, val, x);
    }
    EvalStackAgree(rhs.symbolPost, through, c);
    EvalScopesAgree(rhs.scopePost, through, c);
  }

  /** Every solution of the tables is a run of both walks. */
  lemma SolutionRuns(g: Graph, lhs: PartialPath, w: Walk, rhs: PartialPath, u: Walk, depth: nat, o: Origin,
                     val: Valuation) returns (c: Valuation)
    requires Adjacent(g, lhs, w, rhs, u, o) && Linear(rhs) && depth > 0
    requires ComputeJoin(g, lhs, rhs, depth).Ok?
    ensures Solves(c, val, ComputeJoin(g, lhs, rhs, depth).value)
    ensures o.Admits(Before(lhs, c)) && Run(g, Splice(w, u), Before(lhs, c)) == Some(After(rhs, c))
  {
    hide Adjacent, ComputeJoin, Linear, LinearTables, Satisfies, Meets, Before, After, Splice, Run;
    var t := ComputeJoin(g, lhs, rhs, depth).value;
    LinearBindings(g, lhs, w, rhs, u, depth, o);
    JoinVariables(g, lhs, w, rhs, u, o);
    c := TablesSolved(t, LeftPost(g, lhs), lhs.scopePost, RightPre(g, rhs).symbols, val);
    assert Meets(g, lhs, rhs, c);
    MeetingRuns(g, lhs, w, rhs, u, c, o);
  }

  /**
   Joining to a linear precondition succeeds exactly when stacks can run both walks, and is exact exactly if the
   result is closing.
   */
  lemma JoinedLinear(g: Graph, lhs: PartialPath, w: Walk, rhs: PartialPath, u: Walk, depth: nat, o: Origin)
    requires Adjacent(g, lhs, w, rhs, u, o) && Linear(rhs) && depth > 0
    ensures var r := Joined(g, lhs, rhs, depth);
            && (r.Err? ==> r.error != StackOverflow && r.error != Panic)
            && (r.Ok? <==> Feasible(g, Splice(w, u), o))
            && (r.Ok? ==> (Exact(g, r.value, Splice(w, u), o) <==> Closing(r.value)))
  {
    hide LinearTables, Satisfies, Closing, Bound, ComputeJoin, Linear;
    LinearBindings(g, lhs, w, rhs, u, depth, o);
    match ComputeJoin(g, lhs, rhs, depth)
    case Err(_) =>
      if Feasible(g, Splice(w, u), o) {
        var s :| o.Admits(s) && Run(g, Splice(w, u), s).Some?;
        var val := RunMeets(g, lhs, w, rhs, u, s, o);
      }
    case Ok(t) =>
      var q := Joined(g, lhs, rhs, depth).value;
      var c := SolutionRuns(g, lhs, w, rhs, u, depth, o, NOTHING);
      if Closing(q) {
        JoinedSound(g, lhs, w, rhs, u, depth, o);
        JoinedComplete(g, lhs, w, rhs, u, depth, o);
      }
      if Exact(g, q, Splice(w, u), o) {
        ExactCloses(g, q, Splice(w, u), o);
      }
  }

  lemma ExactCloses(g: Graph, p: PartialPath, w: Walk, o: Origin)
    requires Exact(g, p, w, o)
    ensures Closing(p)
  {
    PostVariablesOccurInPre(g, p, w, o);
  }

  lemma JoinedSound(g: Graph, lhs: PartialPath, w: Walk, rhs: PartialPath, u: Walk, depth: nat, o: Origin)
    requires Adjacent(g, lhs, w, rhs, u, o) && Linear(rhs) && depth > 0
    requires Joined(g, lhs, rhs, depth).Ok? && Closing(Joined(g, lhs, rhs, depth).value)
    ensures Sound(g, Joined(g, lhs, rhs, depth).value, Splice(w, u), o)
  {
    hide Linear, Closing, Bound, ComputeJoin, Solves, Through, Splice;
    var q, t := Joined(g, lhs, rhs, depth).value, ComputeJoin(g, lhs, rhs, depth).value;
    JoinBound(g, lhs, w, rhs, u, depth, o);
    forall val: Valuation
      ensures o.Admits(Before(q, val)) && Run(g, Splice(w, u), Before(q, val)) == Some(After(q, val))
    {
      var c := SolutionRuns(g, lhs, w, rhs, u, depth, o, val);
      EvalJoined(g, lhs, rhs, depth, t, val);
      ThroughLeft(t, lhs, rhs, c, val);
      ThroughRight(g, lhs, rhs, u, t, depth, c, val);
    }
  }

  lemma JoinedComplete(g: Graph, lhs: PartialPath, w: Walk, rhs: PartialPath, u: Walk, depth: nat, o: Origin)
    requires Adjacent(g, lhs, w, rhs, u, o) && Linear(rhs) && depth > 0 && Joined(g, lhs, rhs, depth).Ok?
    ensures Complete(g, Joined(g, lhs, rhs, depth).value, Splice(w, u), o)
  {
    hide Linear, ComputeJoin, LinearTables, Satisfies, Through, Splice;
    var q, t := Joined(g, lhs, rhs, depth).value, ComputeJoin(g, lhs, rhs, depth).value;
    LinearBindings(g, lhs, w, rhs, u, depth, o);
    forall s | o.Admits(s) && Run(g, Splice(w, u), s).Some?
      ensures exists val :: Before(q, val) == s
    {
      var val := RunMeets(g, lhs, w, rhs, u, s, o);
      EvalJoined(g, lhs, rhs, depth, t, val);
      forall v: Var {
        SatisfyingIsThrough(val, t, v);
      }
      EvalStackAgree(lhs.symbolPre, val, Through(val, t.symbols, t.scopes));
      EvalScopesAgree(lhs.scopePre, val, Through(val, t.symbols, t.scopes));
    }
  }

  // ---------------------------------------------------------------------------------------------
  // What joining keeps

  /** What variables of the left are bound to, share no variable with one another or with the left precondition. */
  ghost predicate BoundApart(t: Tables, lhs: PartialPath) {
    && (forall x :: x in t.scopes && x in ScopesOfPre(lhs) ==>
          t.scopes[x].variable.Some? && t.scopes[x].variable.value !in ScopesOfPre(lhs))
    && (forall x, y :: x in t.scopes && y in t.scopes && x in ScopesOfPre(lhs) && y in ScopesOfPre(lhs) && x != y ==>
          t.scopes[x].variable != t.scopes[y].variable)
    && (forall x :: x in t.symbols && x in lhs.symbolPre.SymbolVariables() ==>
          && LinearSymbols(t.symbols[x].symbols)
          && t.symbols[x].ScopeVariables() !! ScopesOfPre(lhs)
          && forall v :: v in t.scopes ==> t.scopes[v].ScopeVariables() !! t.symbols[x].ScopeVariables())
  }

  lemma JoinBoundApart(g: Graph, lhs: PartialPath, w: Walk, rhs: PartialPath, u: Walk, depth: nat, o: Origin)
    requires Adjacent(g, lhs, w, rhs, u, o) && Linear(rhs) && depth > 0
    requires ComputeJoin(g, lhs, rhs, depth).Ok?
    ensures BoundApart(ComputeJoin(g, lhs, rhs, depth).value, lhs)
  {
    hide Adjacent, Linear, LinearTables, Satisfies, Meets, Within, ComputeJoin, LinearStacks, NodesOf;
    var t := ComputeJoin(g, lhs, rhs, depth).value;
    LinearBindings(g, lhs, w, rhs, u, depth, o);
    JoinWithin(g, lhs, w, rhs, u, depth, o);
    JoinVariables(g, lhs, w, rhs, u, o);
    HalfOpenLinear(g, lhs, w, rhs, u, o);
    RightVariables(g, lhs, w, rhs, u, o);
    var ls, rs := LeftPost(g, lhs), RightPre(g, rhs).symbols;
    var nodes := NodesOf(ls, lhs.scopePost) + NodesOf(rs, RightPre(g, rhs).scopes);
    ScopesBoundApart(t, lhs, ls, rs, ScopesOfPre(rhs), nodes);
    SymbolsBoundApart(t, lhs, ls, rs, ScopesOfPre(rhs), RightPre(g, rhs).scopes);
  }

  lemma RightVariables(g: Graph, lhs: PartialPath, w: Walk, rhs: PartialPath, u: Walk, o: Origin)
    requires Adjacent(g, lhs, w, rhs, u, o)
    ensures RightPre(g, rhs).symbols.ScopeVariables() <= ScopesOfPre(rhs)
  {
    hide Opens;
    HalfOpened(g, rhs, u);
  }

  lemma ScopesBoundApart(t: Tables, lhs: PartialPath, ls: PartialSymbolStack, rs: PartialSymbolStack, right: set<Var>,
                         nodes: set<NodeHandle>)
    requires LinearTables(t, ls, lhs.scopePost, rs)
    requires Within(t.scopes, ls.ScopeVariables() + lhs.scopePost.ScopeVariables() + right, nodes)
    requires ls.ScopeVariables() <= lhs.symbolPost.ScopeVariables()
    requires ScopesOfPost(lhs) <= ScopesOfPre(lhs) && ScopesOfPre(lhs) !! right
    ensures forall x :: x in t.scopes && x in ScopesOfPre(lhs) ==>
              t.scopes[x].variable.Some? && t.scopes[x].variable.value !in ScopesOfPre(lhs)
    ensures forall x, y ::
              x in t.scopes && y in t.scopes && x in ScopesOfPre(lhs) && y in ScopesOfPre(lhs) && x != y ==>
              t.scopes[x].variable != t.scopes[y].variable
  {
    hide Completable, MatchTails;
    var left := ls.ScopeVariables() + lhs.scopePost.ScopeVariables();
    forall x | x in t.scopes && x in ScopesOfPre(lhs)
      ensures x in left
      ensures t.scopes[x].variable.Some? && t.scopes[x].variable.value !in ScopesOfPre(lhs)
    {
      assert x in left;
      assert t.scopes[x].variable.value in t.scopes[x].ScopeVariables();
    }
  }

  lemma SymbolsBoundApart(t: Tables, lhs: PartialPath, ls: PartialSymbolStack, rs: PartialSymbolStack, right: set<Var>,
                          rc: PartialScopeStack)
    requires LinearTables(t, ls, lhs.scopePost, rs) && LinearStacks(rs, rc) && rs.ScopeVariables() <= right
    requires ls.SymbolVariables() <= lhs.symbolPre.SymbolVariables()
    requires lhs.symbolPre.SymbolVariables() !! rs.SymbolVariables() && ScopesOfPre(lhs) !! right
    ensures forall x :: x in t.symbols && x in lhs.symbolPre.SymbolVariables() ==>
              && LinearSymbols(t.symbols[x].symbols)
              && t.symbols[x].ScopeVariables() !! ScopesOfPre(lhs)
              && forall v :: v in t.scopes ==> t.scopes[v].ScopeVariables() !! t.symbols[x].ScopeVariables()
  {
    hide Completable, MatchTails, LinearSymbols;
    var k := Min(|ls.symbols|, |rs.symbols|);
    LinearPartsDisjoint(rs.symbols, k);
    LinearSuffix(rs.symbols, k);
    var tails := MatchTails(Drop(ls, k), Drop(rs, k)).value;
    if tails.BindTail? {
      TailUnbound(Drop(ls, k), Drop(rs, k));
      assert Drop(rs, k).ScopeVariables() == SymbolsScopeVariables(rs.symbols[k..]);
    }
  }

  lemma LinearSuffix(symbols: seq<PartialScopedSymbol>, k: nat)
    requires LinearSymbols(symbols) && k <= |symbols|
    ensures LinearSymbols(symbols[k..])
  {
  }

  lemma LinearConcat(a: seq<PartialScopedSymbol>, b: seq<PartialScopedSymbol>)
    requires LinearSymbols(a) && LinearSymbols(b) && SymbolsScopeVariables(a) !! SymbolsScopeVariables(b)
    ensures LinearSymbols(a + b)
  {
    var c := a + b;
    forall i, j | 0 <= i < j < |c| && c[i].scopes.Some? && c[j].scopes.Some?
      ensures c[i].scopes.value.variable != c[j].scopes.value.variable
    {
      if i < |a| && j >= |a| {
        assert c[i].scopes.value.variable.value in a[i].ScopeVariables();
        assert b[j - |a|].ScopeVariables() <= SymbolsScopeVariables(b);
      }
    }
  }

  lemma LinearSubst(lhs: PartialPath, t: Tables)
    requires LinearSymbols(lhs.symbolPre.symbols) && BoundApart(t, lhs)
    ensures LinearSymbols(SubstSymbols(lhs.symbolPre.symbols, t.scopes))
  {
    var before, after := lhs.symbolPre.symbols, SubstSymbols(lhs.symbolPre.symbols, t.scopes);
    forall i | 0 <= i < |before| && after[i].scopes.Some?
      ensures before[i].scopes.Some? && before[i].scopes.value.variable.value in ScopesOfPre(lhs)
      ensures after[i].scopes.value == SubstScopes(before[i].scopes.value, t.scopes)
      ensures after[i].scopes.value.variable.Some?
    {
      assert before[i].scopes.value.variable.value in before[i].ScopeVariables();
    }
  }

  /** A join of linear paths is linear. */
  lemma JoinedIsLinear(g: Graph, lhs: PartialPath, w: Walk, rhs: PartialPath, u: Walk, depth: nat, o: Origin)
    requires Adjacent(g, lhs, w, rhs, u, o) && Linear(lhs) && Linear(rhs) && depth > 0
    requires Joined(g, lhs, rhs, depth).Ok?
    ensures Linear(Joined(g, lhs, rhs, depth).value)
  {
    hide Adjacent, ComputeJoin;
    var q, t := Joined(g, lhs, rhs, depth).value, ComputeJoin(g, lhs, rhs, depth).value;
    JoinBoundApart(g, lhs, w, rhs, u, depth, o);
    LinearSubst(lhs, t);
    var after := SubstSymbols(lhs.symbolPre.symbols, t.scopes);
    AfterVariables(lhs, t);
    if lhs.symbolPre.variable.Some? && lhs.symbolPre.variable.value in t.symbols {
      var x := lhs.symbolPre.variable.value;
      assert x in lhs.symbolPre.SymbolVariables();
      LinearConcat(after, t.symbols[x].symbols);
      SymbolsScopeVariablesConcat(after, t.symbols[x].symbols);
    }
    assert lhs.scopePre.variable.value in lhs.scopePre.ScopeVariables();
  }

  /** The variables of the left precondition after the substitution, its symbol variable apart. */
  lemma AfterVariables(lhs: PartialPath, t: Tables)
    requires Linear(lhs) && BoundApart(t, lhs)
    ensures var after := SymbolsScopeVariables(SubstSymbols(lhs.symbolPre.symbols, t.scopes));
            && SubstScopes(lhs.scopePre, t.scopes).variable.Some?
            && SubstScopes(lhs.scopePre, t.scopes).variable.value !in after
            && (forall x :: x in t.symbols && x in lhs.symbolPre.SymbolVariables() ==>
                  after !! t.symbols[x].ScopeVariables() &&
                  SubstScopes(lhs.scopePre, t.scopes).variable.value !in t.symbols[x].ScopeVariables())
  {
    var before, after := lhs.symbolPre.symbols, SubstSymbols(lhs.symbolPre.symbols, t.scopes);
    assert lhs.scopePre.variable.value in ScopesOfPre(lhs);
    forall i | 0 <= i < |before| && after[i].scopes.Some?
      ensures before[i].scopes.value.variable.Some?
      ensures before[i].scopes.value.variable.value in lhs.symbolPre.ScopeVariables()
      ensures after[i].scopes.value == SubstScopes(before[i].scopes.value, t.scopes)
    {
      assert before[i].scopes.value.variable.value in before[i].ScopeVariables();
    }
    forall x, v | x in t.symbols && x in lhs.symbolPre.SymbolVariables() && v in SymbolsScopeVariables(after)
      ensures v !in t.symbols[x].ScopeVariables()
    {
      var i :| 0 <= i < |after| && v in after[i].ScopeVariables();
      SubstVariables(before[i].scopes.value, t.scopes);
    }
    SubstVariables(lhs.scopePre, t.scopes);
  }

  /** The scopes that a precondition demands exist and are exported. */
  ghost predicate PreScopesExist(g: Graph, p: PartialPath) {
    SymbolScopesExist(g, p.symbolPre.symbols) && ScopeNodes(g, p.scopePre.scopes)
  }

  ghost predicate AllExported(g: Graph, nodes: set<NodeHandle>) {
    forall n :: n in nodes ==> g.Kind(n).IsExportedScope()
  }

  lemma NodesExported(g: Graph, symbols: PartialSymbolStack, scopes: PartialScopeStack)
    requires SymbolScopesExist(g, symbols.symbols) && ScopeNodes(g, scopes.scopes)
    ensures AllExported(g, NodesOf(symbols, scopes))
  {
  }

  lemma HalfOpenScopesExist(g: Graph, lhs: PartialPath, w: Walk, rhs: PartialPath, u: Walk, o: Origin)
    requires Adjacent(g, lhs, w, rhs, u, o) && PreScopesExist(g, rhs)
    ensures SymbolScopesExist(g, LeftPost(g, lhs).symbols) && ScopeNodes(g, lhs.scopePost.scopes)
    ensures SymbolScopesExist(g, RightPre(g, rhs).symbols.symbols) && ScopeNodes(g, RightPre(g, rhs).scopes.scopes)
  {
    hide Junction, Opens, Meeting;
    HalfOpenLeft(g, lhs, w, o);
    HalfOpened(g, rhs, u);
  }

  /** What the tables of a join bind variables to mentions exported scopes only. */
  lemma BoundScopesExist(g: Graph, lhs: PartialPath, w: Walk, rhs: PartialPath, u: Walk, depth: nat, o: Origin)
    requires Adjacent(g, lhs, w, rhs, u, o) && Linear(rhs) && depth > 0
    requires PreScopesExist(g, rhs) && ComputeJoin(g, lhs, rhs, depth).Ok?
    ensures var t := ComputeJoin(g, lhs, rhs, depth).value;
            && (forall v :: v in t.scopes ==> ScopeNodes(g, t.scopes[v].scopes))
            && (forall v :: v in t.symbols ==> SymbolScopesExist(g, t.symbols[v].symbols))
  {
    hide Adjacent, Linear, Satisfies, Meets, ComputeJoin, NodesOf, Ordered, Completable, LeftPost, RightPre;
    var t := ComputeJoin(g, lhs, rhs, depth).value;
    LinearBindings(g, lhs, w, rhs, u, depth, o);
    JoinWithin(g, lhs, w, rhs, u, depth, o);
    HalfOpenScopesExist(g, lhs, w, rhs, u, o);
    var ls, pre := LeftPost(g, lhs), RightPre(g, rhs);
    NodesExported(g, ls, lhs.scopePost);
    NodesExported(g, pre.symbols, pre.scopes);
    forall v | v in t.scopes
      ensures ScopeNodes(g, t.scopes[v].scopes)
    {
      assert StackWithin(t.scopes[v], ls.ScopeVariables() + lhs.scopePost.ScopeVariables() + ScopesOfPre(rhs),
                         NodesOf(ls, lhs.scopePost) + NodesOf(pre.symbols, pre.scopes));
    }
  }

  lemma JoinedNodesExist(g: Graph, lhs: PartialPath, w: Walk, rhs: PartialPath, u: Walk, depth: nat, o: Origin)
    requires Adjacent(g, lhs, w, rhs, u, o) && Linear(rhs) && depth > 0
    requires PreScopesExist(g, rhs) && Joined(g, lhs, rhs, depth).Ok?
    ensures PostScopesExist(g, Joined(g, lhs, rhs, depth).value)
    ensures PreScopesExist(g, lhs) ==> PreScopesExist(g, Joined(g, lhs, rhs, depth).value)
  {
    hide ComputeJoin, Exact, Linear;
    var t := ComputeJoin(g, lhs, rhs, depth).value;
    BoundScopesExist(g, lhs, w, rhs, u, depth, o);
    assert SymbolScopesExist(g, rhs.symbolPost.symbols);
    SubstScopesExist(g, rhs.symbolPost.symbols, t.scopes);
    if PreScopesExist(g, lhs) {
      SubstScopesExist(g, lhs.symbolPre.symbols, t.scopes);
    }
  }

  /** What path finding has built after choosing targets: linear, open, and with scopes that exist. */
  ghost predicate Chosen(g: Graph, p: PartialPath) {
    Linear(p) && p.symbolPre.variable.Some? && PreScopesExist(g, p)
  }

  /** Concatenation with a path for which targets have been chosen. */
  lemma JoinedChosen(g: Graph, lhs: PartialPath, w: Walk, rhs: PartialPath, u: Walk, depth: nat, o: Origin)
    requires Adjacent(g, lhs, w, rhs, u, o) && Chosen(g, rhs) && depth > 0
    ensures var r := Joined(g, lhs, rhs, depth);
            && (r.Err? ==> r.error != StackOverflow && r.error != Panic)
            && (r.Ok? <==> Feasible(g, Splice(w, u), o))
            && (r.Ok? ==> (Summary(g, r.value, Splice(w, u), o) <==> Closing(r.value)))
            && (r.Ok? && Chosen(g, lhs) ==> Chosen(g, r.value))
            && (r.Ok? ==> r.value.edges == lhs.edges + rhs.edges)
  {
    hide ComputeJoin, Closing, Exact;
    JoinedLinear(g, lhs, w, rhs, u, depth, o);
    if Joined(g, lhs, rhs, depth).Ok? {
      JoinedNodesExist(g, lhs, w, rhs, u, depth, o);
      if Chosen(g, lhs) {
        JoinedIsLinear(g, lhs, w, rhs, u, depth, o);
        JoinedOpen(g, lhs, w, rhs, u, depth, o);
      }
    }
  }

  lemma JoinedOpen(g: Graph, lhs: PartialPath, w: Walk, rhs: PartialPath, u: Walk, depth: nat, o: Origin)
    requires Adjacent(g, lhs, w, rhs, u, o) && Chosen(g, lhs) && Chosen(g, rhs) && depth > 0
    requires Joined(g, lhs, rhs, depth).Ok?
    ensures Joined(g, lhs, rhs, depth).value.symbolPre.variable.Some?
  {
    hide ComputeJoin, Adjacent, Satisfies, Meets, Linear, PreScopesExist, Ordered, Completable, LeftPost, RightPre;
    LinearBindings(g, lhs, w, rhs, u, depth, o);
    JoinVariables(g, lhs, w, rhs, u, o);
    var ls, rs := LeftPost(g, lhs), RightPre(g, rhs).symbols;
    var k := Min(|ls.symbols|, |rs.symbols|);
    assert lhs.symbolPre.variable.value in lhs.symbolPre.SymbolVariables();
    assert rhs.symbolPre.variable.value in rs.SymbolVariables();
    if MatchTails(Drop(ls, k), Drop(rs, k)).value.BindTail? {
      TailUnbound(Drop(ls, k), Drop(rs, k));
    }
  }
}
