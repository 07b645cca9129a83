/**
 Choosing the target of a jump.  A path that waits at a jump is led on by demanding the target of its scope
 stack; the scopes attached in its postcondition are left as they are.  So the outcome summarises the longer walk
 exactly if none of them ends in the variable that has been waited for.
 */
module ChosenJumps {
  import opened Wrappers
  import opened Graphs
  import opened Patterns
  import opened Unification
  import opened CanonicalUnification
  import opened LinearUnification
  import opened PartialPaths
  import opened Exactness
  import opened AppendExactness
  import opened Renaming
  import opened Composition
  import opened Concatenation
  import opened LinearComposition
  import opened Settling
  import opened Stitching
  import opened CycleDetection

  /** The path has come to a jump, and any exported scope may be its target. */
  predicate Waits(g: Graph, p: PartialPath) {
    g.Kind(p.endNode).JumpTo? && p.scopePost.scopes == [] && p.scopePost.variable.Some?
  }

  /** None of the attached scope lists ends in the variable that the path waits for. */
  ghost predicate ChoosesFreely(g: Graph, p: PartialPath) {
    Waits(g, p) ==> p.scopePost.variable.value !in p.symbolPost.ScopeVariables()
  }

  /** Of the chosen target's effect, in terms of what the original path's variables stand for. */
  lemma EvalChosen(p: PartialPath, n: NodeHandle, val: Valuation)
    requires p.scopePost.variable.Some?
    ensures var v := p.scopePost.variable.value;
            var cb: ScopeBindings := map[v := PartialScopeStack([n], Some(v))];
            var before := WithScopes(val, v, [n] + ScopeValue(val, v));
            && EvalStack(SubstStack(p.symbolPre, map[], cb), val) == EvalStack(p.symbolPre, before)
            && EvalScopes(SubstScopes(p.scopePre, cb), val) == EvalScopes(p.scopePre, before)
  {
    hide Through, WithScopes, EvalStack, EvalScopes;
    var v := p.scopePost.variable.value;
    var cb: ScopeBindings := map[v := PartialScopeStack([n], Some(v))];
    var before := WithScopes(val, v, [n] + ScopeValue(val, v));
    EvalSubstStack(p.symbolPre, val, map[], cb);
    EvalSubstScopes(p.scopePre, val, map[], cb);
    forall w: Var
      ensures ScopeValue(Through(val, map[], cb), w) == ScopeValue(before, w)
      ensures SymbolValue(Through(val, map[], cb), w) == SymbolValue(before, w)
    {
      WithScopesValue(val, v, [n] + ScopeValue(val, v));
      ChosenValue(val, v, n, w);
    }
    EvalStackAgree(p.symbolPre, Through(val, map[], cb), before);
    EvalScopesAgree(p.scopePre, Through(val, map[], cb), before);
  }

  lemma ChosenValue(val: Valuation, v: Var, n: NodeHandle, w: Var)
    ensures var through := Through(val, map[], map[v := PartialScopeStack([n], Some(v))]);
            && SymbolValue(through, w) == SymbolValue(val, w)
            && ScopeValue(through, w) == if w == v then [n] + ScopeValue(val, v) else ScopeValue(val, w)
  {
  }

  /** After a target has been chosen freely, the path has come to it, and has taken it off the scope stack. */
  lemma FreeChoiceSound(g: Graph, p: PartialPath, w: Walk, n: NodeHandle, o: Origin, val: Valuation)
    requires Summary(g, p, w, o) && Waits(g, p) && g.Kind(n).IsExportedScope()
    requires p.scopePost.variable.value !in p.symbolPost.ScopeVariables()
    ensures var q := ResolveToNode(g, p, n).value;
            o.Admits(Before(q, val)) && Run(g, w + [n], Before(q, val)) == Some(After(q, val))
  {
    hide EvalStack, WithScopes, SubstStack, SubstScopes, Run;
    var v := p.scopePost.variable.value;
    var before := WithScopes(val, v, [n] + ScopeValue(val, v));
    EvalChosen(p, n, val);
    WithScopesValue(val, v, [n] + ScopeValue(val, v));
    EvalStackAgree(p.symbolPost, val, before);
    RunExtend(g, w, n, Before(p, before));
    assert Run(g, w, Before(p, before)) == Some(After(p, before));
    assert EvalScopes(p.scopePost, before) == [n] + ScopeValue(val, v);
    assert ([n] + ScopeValue(val, v))[1..] == ScopeValue(val, v) == EvalScopes(p.scopePost, val);
  }

  lemma ChoiceComplete(g: Graph, p: PartialPath, w: Walk, n: NodeHandle, o: Origin, s: Stacks) returns (val: Valuation)
    requires Summary(g, p, w, o) && Waits(g, p) && o.Admits(s) && Run(g, w + [n], s).Some?
    ensures Before(ResolveToNode(g, p, n).value, val) == s
  {
    hide EvalStack, WithScopes, SubstStack, SubstScopes, Run;
    RunExtend(g, w, n, s);
    var v := p.scopePost.variable.value;
    var c :| Before(p, c) == s;
    assert Run(g, w, Before(p, c)) == Some(After(p, c));
    var rest := ScopeValue(c, v)[1..];
    assert EvalScopes(p.scopePost, c) == ScopeValue(c, v) == [n] + rest;
    val := WithScopes(c, v, rest);
    EvalChosen(p, n, val);
    var before := WithScopes(val, v, [n] + rest);
    WithScopesValue(c, v, rest);
    WithScopesValue(val, v, [n] + rest);
    EvalStackAgree(p.symbolPre, before, c);
    EvalScopesAgree(p.scopePre, before, c);
  }

  /** An attached list that ends in the variable lacks the scope that the precondition gains. */
  lemma AttachedChoiceUnsound(g: Graph, p: PartialPath, w: Walk, n: NodeHandle, o: Origin)
    requires Summary(g, p, w, o) && Waits(g, p)
    requires p.scopePost.variable.value in p.symbolPost.ScopeVariables()
    ensures !Sound(g, ResolveToNode(g, p, n).value, w + [n], o)
  {
    hide WithScopes, SubstStack, SubstScopes, Run;
    var q := ResolveToNode(g, p, n).value;
    var v := p.scopePost.variable.value;
    var before := WithScopes(NOTHING, v, [n] + []);
    EvalChosen(p, n, NOTHING);
    WithScopesValue(NOTHING, v, [n] + []);
    RunExtend(g, w, n, Before(p, before));
    assert Run(g, w, Before(p, before)) == Some(After(p, before));
    var symbols := p.symbolPost.symbols;
    var i :| 0 <= i < |symbols| && v in symbols[i].ScopeVariables();
    assert EvalStack(p.symbolPost, before)[i] == EvalSymbol(symbols[i], before);
    assert EvalStack(p.symbolPost, NOTHING)[i] == EvalSymbol(symbols[i], NOTHING);
    assert |EvalScopes(symbols[i].scopes.value, before)| == |EvalScopes(symbols[i].scopes.value, NOTHING)| + 1;
    assert Before(q, NOTHING) == Before(p, before);
  }

  /** Choosing a target is exact exactly if no attached scope list ends in the variable that is waited for. */
  lemma ResolveToNodeExact(g: Graph, p: PartialPath, w: Walk, n: NodeHandle, o: Origin)
    requires Summary(g, p, w, o) && Waits(g, p) && g.Kind(n).IsExportedScope()
    ensures ResolveToNode(g, p, n).Ok?
    ensures Summary(g, ResolveToNode(g, p, n).value, w + [n], o) <==> ChoosesFreely(g, p)
  {
    hide Before, After, ResolveToNode, Run;
    ChoiceKeepsPost(g, p, n);
    var q := ResolveToNode(g, p, n).value;
    if ChoosesFreely(g, p) {
      forall val: Valuation
        ensures o.Admits(Before(q, val)) && Run(g, w + [n], Before(q, val)) == Some(After(q, val))
      {
        FreeChoiceSound(g, p, w, n, o, val);
      }
      forall s | o.Admits(s) && Run(g, w + [n], s).Some?
        ensures exists val :: Before(q, val) == s
      {
        var val := ChoiceComplete(g, p, w, n, o, s);
      }
    } else {
      AttachedChoiceUnsound(g, p, w, n, o);
    }
  }

  lemma ChoiceKeepsPost(g: Graph, p: PartialPath, n: NodeHandle)
    requires Waits(g, p)
    ensures ResolveToNode(g, p, n).Ok?
    ensures var q := ResolveToNode(g, p, n).value;
            && q.startNode == p.startNode && q.endNode == n && q.edges == p.edges
            && q.symbolPost == p.symbolPost && q.scopePost == p.scopePost
  {
  }

  /** Choosing a target keeps preconditions linear. */
  lemma ChoiceKeeps(g: Graph, p: PartialPath, n: NodeHandle)
    requires Waits(g, p) && Chosen(g, p) && g.Kind(n).IsExportedScope()
    ensures Chosen(g, ResolveToNode(g, p, n).value)
  {
    var v := p.scopePost.variable.value;
    var cb: ScopeBindings := map[v := PartialScopeStack([n], Some(v))];
    var q := ResolveToNode(g, p, n).value;
    var before, after := p.symbolPre.symbols, SubstSymbols(p.symbolPre.symbols, cb);
    assert q.symbolPre.symbols == after;
    forall i | 0 <= i < |before|
      ensures after[i].ScopeVariables() == before[i].ScopeVariables()
      ensures after[i].scopes.Some? <==> before[i].scopes.Some?
      ensures after[i].scopes.Some? ==> after[i].scopes.value.variable == before[i].scopes.value.variable
    {
      assert after[i] == SubstSymbol(before[i], cb);
    }
    assert SymbolsScopeVariables(after) == SymbolsScopeVariables(before);
    SubstScopesExist(g, before, cb);
  }

  // ---------------------------------------------------------------------------------------------
  // Appending after a choice

  /** Once the target has been chosen, appending goes on as if the path had ended there all along. */
  lemma AppendAfterChoice(g: Graph, p: PartialPath, f: Fragment, depth: nat)
    requires Waits(g, p) && !g.Kind(f.StartNode()).JumpTo?
    ensures AppendFragment(g, p, f, depth) ==
            AppendFragment(g, ResolveToNode(g, p, f.StartNode()).value, f, depth)
  {
  }

  lemma NodePathChosen(g: Graph, n: NodeHandle)
    requires g.AttachedScopesExist()
    ensures FromNode(g, n).Ok? && Chosen(g, FromNode(g, n).value)
  {
    FromNodeSummary(g, n);
    OpenIsChosen(g, FromNode(g, n).value);
  }

  lemma OpenIsChosen(g: Graph, p: PartialPath)
    requires Open(p)
    ensures Chosen(g, p)
  {
    CanonicalIsLinear(p.symbolPre, p.scopePre);
    CanonicalScopesExist(g, p.symbolPre.symbols);
  }

  /** Renaming keeps all this. */
  lemma OffsetChosen(g: Graph, p: PartialPath, so: nat, co: nat)
    requires Chosen(g, p)
    ensures Chosen(g, p.WithOffset(so, co))
  {
    var q := p.WithOffset(so, co);
    forall i | 0 <= i < |p.symbolPre.symbols|
      ensures q.symbolPre.symbols[i] == p.symbolPre.symbols[i].WithOffset(co)
    {
    }
    if q.scopePre.variable.value in q.symbolPre.ScopeVariables() {
      OffsetVariables(p.symbolPre, so, co, q.scopePre.variable.value);
    }
  }

  /** Entering a node keeps a precondition linear. */
  lemma EnteredChosen(g: Graph, p: PartialPath, e: Edge)
    requires Chosen(g, p) && Entered(g, p, e).Ok?
    ensures Chosen(g, Entered(g, p, e).value)
  {
    var q := Entered(g, p, e).value;
    if q.symbolPre != p.symbolPre {
      var k := |p.symbolPre.symbols|;
      var c := q.symbolPre.symbols[k];
      SymbolsScopeVariablesConcat(p.symbolPre.symbols, [c]);
      assert [c][0] == c;
      assert forall v :: v in c.ScopeVariables() ==> v == p.LargestScopeVariable() + 1;
      forall i, j | 0 <= i < j <= k && q.symbolPre.symbols[i].scopes.Some? && q.symbolPre.symbols[j].scopes.Some?
        ensures q.symbolPre.symbols[i].scopes.value.variable != q.symbolPre.symbols[j].scopes.value.variable
      {
        if j == k {
          assert p.symbolPre.symbols[i].ScopeVariables() <= p.symbolPre.ScopeVariables();
          assert p.symbolPre.symbols[i].scopes.value.variable.value in p.symbolPre.symbols[i].ScopeVariables();
        }
      }
    }
  }

  lemma ResolvedChosen(g: Graph, p: PartialPath)
    requires Chosen(g, p) && ResolveFromPostcondition(g, p).Ok?
    ensures Chosen(g, ResolveFromPostcondition(g, p).value)
  {
  }

  /** Appending a fragment to a path that ends at no jump keeps its precondition linear. */
  lemma AppendedChosen(g: Graph, p: PartialPath, w: Walk, f: Fragment, u: Walk, depth: nat)
    requires Summary(g, p, w, Anywhere) && Chosen(g, p) && Describes(g, f, u) && Last(w) == u[0] && depth > 0
    requires AppendFragment(g, p, f, depth).Ok?
    ensures Chosen(g, AppendFragment(g, p, f, depth).value)
  {
    hide Chosen, Summary, Entered, Joined, Open, ResolveFromPostcondition;
    assert !g.Kind(p.endNode).JumpTo? by {
      SummaryOf(g, p, w, Anywhere);
    }
    match f
    case EdgeFragment(e) =>
      EnteredChosen(g, p, e);
      ResolvedChosen(g, Entered(g, p, e).value);
    case PathFragment(next) =>
      OpenIsChosen(g, next);
      RenamedJoin(g, p, w, next, u, depth, Anywhere);
      ResolvedChosen(g, Joined(g, p.RenamedApartFrom(next), next, depth).value);
  }

  /** Renaming apart and joining, in one step. */
  lemma RenamedJoin(g: Graph, p: PartialPath, w: Walk, next: PartialPath, u: Walk, depth: nat, o: Origin)
    requires Summary(g, p, w, o) && Summary(g, next, u, Anywhere) && Chosen(g, next)
    requires Last(w) == u[0] && depth > 0
    ensures var r := Joined(g, p.RenamedApartFrom(next), next, depth);
            && (r.Err? ==> r.error != StackOverflow && r.error != Panic)
            && (r.Ok? <==> Feasible(g, Splice(w, u), o))
            && (r.Ok? ==> (Summary(g, r.value, Splice(w, u), o) <==> Closing(r.value)))
            && (r.Ok? && Chosen(g, p) ==> Chosen(g, r.value))
            && (r.Ok? ==> r.value.edges == p.edges + next.edges)
  {
    hide Joined, Chosen, Closing, Summary;
    var so, co := next.symbolPre.LargestSymbolVariable(), next.LargestScopeVariable();
    OffsetSummary(g, p, w, so, co, o);
    RenamedIsApart(p, next);
    if Chosen(g, p) {
      OffsetChosen(g, p, so, co);
    }
    JoinedChosen(g, p.RenamedApartFrom(next), w, next, u, depth, o);
  }
}
