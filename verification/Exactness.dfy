/**
 A partial path is an exact summary of a walk when its pre- and postconditions relate precisely the
 stacks that the walk, run concretely, relates.  Lifting a node and appending edges produce exact
 summaries, and fail exactly when no stacks can complete the walk.
 */
module Exactness {
  import opened Wrappers
  import opened Graphs
  import opened Patterns
  import opened Unification
  import opened CanonicalUnification
  import opened PartialPaths

  ghost function Before(p: PartialPath, val: Valuation): Stacks {
    Stacks(EvalStack(p.symbolPre, val), EvalScopes(p.scopePre, val))
  }

  ghost function After(p: PartialPath, val: Valuation): Stacks {
    Stacks(EvalStack(p.symbolPost, val), EvalScopes(p.scopePost, val))
  }

  /** The relation between stacks that a partial path denotes. */
  ghost predicate Relates(p: PartialPath, s: Stacks, t: Stacks) {
    exists val :: Before(p, val) == s && After(p, val) == t
  }

  ghost predicate Sound(g: Graph, p: PartialPath, w: Walk, o: Origin) {
    forall val :: o.Admits(Before(p, val)) && Run(g, w, Before(p, val)) == Some(After(p, val))
  }

  ghost predicate Complete(g: Graph, p: PartialPath, w: Walk, o: Origin) {
    forall s :: o.Admits(s) && Run(g, w, s).Some? ==> exists val :: Before(p, val) == s
  }

  ghost predicate Exact(g: Graph, p: PartialPath, w: Walk, o: Origin) {
    Sound(g, p, w, o) && Complete(g, p, w, o)
  }

  ghost predicate ScopeNodes(g: Graph, scopes: seq<NodeHandle>) {
    forall n :: n in scopes ==> g.Kind(n).IsExportedScope()
  }

  /** Every scope that the postcondition mentions is an exported scope node. */
  ghost predicate PostScopesExist(g: Graph, p: PartialPath) {
    && ScopeNodes(g, p.scopePost.scopes)
    && forall i :: 0 <= i < |p.symbolPost.symbols| && p.symbolPost.symbols[i].scopes.Some? ==>
         ScopeNodes(g, p.symbolPost.symbols[i].scopes.value.scopes)
  }

  ghost predicate Summary(g: Graph, p: PartialPath, w: Walk, o: Origin) {
    && p.startNode == w[0]
    && p.endNode == Last(w)
    && Exact(g, p, w, o)
    && PostScopesExist(g, p)
  }

  ghost predicate Canonical(p: PartialPath) {
    CanonicalStacks(p.symbolPre, p.scopePre)
  }

  /** Canonical, and indifferent to what lies at the bottom of the symbol stack. */
  ghost predicate Open(p: PartialPath) {
    Canonical(p) && p.symbolPre.variable.Some?
  }

  /** Exactness as an equality of relations. */
  lemma ExactRelates(g: Graph, p: PartialPath, w: Walk, s: Stacks, t: Stacks, o: Origin)
    requires Exact(g, p, w, o)
    ensures Relates(p, s, t) <==> o.Admits(s) && Run(g, w, s) == Some(t)
  {
    if o.Admits(s) && Run(g, w, s) == Some(t) {
      var val :| Before(p, val) == s;
      assert Run(g, w, Before(p, val)) == Some(After(p, val));
    }
  }

  /** The path relates exactly the stacks that the walk takes to one another, from admitted ones. */
  ghost predicate Denotes(g: Graph, p: PartialPath, w: Walk, o: Origin) {
    forall s, t :: Relates(p, s, t) <==> o.Admits(s) && Run(g, w, s) == Some(t)
  }

  lemma ExactDenotes(g: Graph, p: PartialPath, w: Walk, o: Origin)
    requires Exact(g, p, w, o)
    ensures Denotes(g, p, w, o)
  {
    forall s, t {
      ExactRelates(g, p, w, s, t, o);
    }
  }

  const NOTHING := Valuation(imap[], imap[])

  lemma ExactFeasible(g: Graph, p: PartialPath, w: Walk, o: Origin)
    requires Sound(g, p, w, o)
    ensures Feasible(g, w, o)
  {
    assert Run(g, w, Before(p, NOTHING)).Some?;
  }

  ghost function ScopesOfPre(p: PartialPath): set<Var> {
    p.symbolPre.ScopeVariables() + p.scopePre.ScopeVariables()
  }

  ghost function ScopesOfPost(p: PartialPath): set<Var> {
    p.symbolPost.ScopeVariables() + p.scopePost.ScopeVariables()
  }

  /** Valuations that give the precondition the same stacks must do so for the postcondition. */
  lemma Deterministic(g: Graph, p: PartialPath, w: Walk, a: Valuation, b: Valuation, o: Origin)
    requires Before(p, a) == Before(p, b) && After(p, a) != After(p, b)
    ensures !Sound(g, p, w, o)
  {
    var r := Run(g, w, Before(p, a));
    assert r != Some(After(p, a)) || r != Some(After(p, b));
  }

  lemma UnboundSymbolVariable(g: Graph, p: PartialPath, w: Walk, v: Var, o: Origin)
    requires v in p.symbolPost.SymbolVariables() && v !in p.symbolPre.SymbolVariables()
    ensures !Sound(g, p, w, o)
  {
    var val := Valuation(imap[v := [ScopedSymbol(0, None)]], imap[]);
    EvalStackAgree(p.symbolPre, NOTHING, val);
    assert |EvalStack(p.symbolPost, val)| == |EvalStack(p.symbolPost, NOTHING)| + 1;
    Deterministic(g, p, w, NOTHING, val, o);
  }

  lemma UnboundScopeVariable(g: Graph, p: PartialPath, w: Walk, v: Var, o: Origin)
    requires v in ScopesOfPost(p) && v !in ScopesOfPre(p)
    ensures !Sound(g, p, w, o)
  {
    var val := Valuation(imap[], imap[v := [0]]);
    EvalStackAgree(p.symbolPre, NOTHING, val);
    EvalScopesAgree(p.scopePre, NOTHING, val);
    DistinguishedByScope(p, v);
    Deterministic(g, p, w, NOTHING, val, o);
  }

  /** An exact postcondition mentions only variables that occur in the precondition. */
  lemma PostVariablesOccurInPre(g: Graph, p: PartialPath, w: Walk, o: Origin)
    requires Sound(g, p, w, o)
    ensures p.symbolPost.SymbolVariables() <= p.symbolPre.SymbolVariables()
    ensures ScopesOfPost(p) <= ScopesOfPre(p)
  {
    forall v | v in p.symbolPost.SymbolVariables()
      ensures v in p.symbolPre.SymbolVariables()
    {
      if v !in p.symbolPre.SymbolVariables() {
        UnboundSymbolVariable(g, p, w, v, o);
      }
    }
    forall v | v in ScopesOfPost(p)
      ensures v in ScopesOfPre(p)
    {
      if v !in ScopesOfPre(p) {
        UnboundScopeVariable(g, p, w, v, o);
      }
    }
  }

  lemma DistinguishedByScope(p: PartialPath, v: Var)
    requires v in ScopesOfPost(p)
    ensures After(p, Valuation(imap[], imap[v := [0]])) != After(p, NOTHING)
  {
    var val := Valuation(imap[], imap[v := [0]]);
    if v in p.scopePost.ScopeVariables() {
      assert |EvalScopes(p.scopePost, val)| == |EvalScopes(p.scopePost, NOTHING)| + 1;
    } else {
      var symbols := p.symbolPost.symbols;
      var i :| 0 <= i < |symbols| && v in symbols[i].ScopeVariables();
      assert |EvalScopes(symbols[i].scopes.value, val)| == |EvalScopes(symbols[i].scopes.value, NOTHING)| + 1;
      assert EvalStack(p.symbolPost, val)[i] == EvalSymbol(symbols[i], val);
      assert EvalStack(p.symbolPost, NOTHING)[i] == EvalSymbol(symbols[i], NOTHING);
    }
  }

  // ---------------------------------------------------------------------------------------------
  // Entering a node

  /** Under `below`, path `p` starts as `q` does under `val`, and the node then takes it where `q` ends. */
  ghost predicate StepsTo(node: Node, p: PartialPath, below: Valuation, q: PartialPath, val: Valuation) {
    Before(p, below) == Before(q, val) && Step(node, After(p, below)) == Some(After(q, val))
  }

  ghost predicate StartsAlike(q: PartialPath, above: Valuation, p: PartialPath, val: Valuation) {
    Before(q, above) == Before(p, val)
  }

  ghost predicate Lowers(node: Node, p: PartialPath, q: PartialPath, val: Valuation) {
    exists below :: StepsTo(node, p, below, q, val)
  }

  ghost predicate Lifts(q: PartialPath, p: PartialPath, val: Valuation) {
    exists above :: StartsAlike(q, above, p, val)
  }

  /** What entering a node must achieve: the postcondition takes the node's step, or none can. */
  ghost predicate Enters(node: Node, p: PartialPath, r: Result<PartialPath, PathResolutionError>) {
    match r
    case Err(_) => forall val :: Step(node, After(p, val)).None?
    case Ok(q) =>
      && (forall val :: Lowers(node, p, q, val))
      && (forall val :: Step(node, After(p, val)).Some? ==> Lifts(q, p, val))
  }

  /** The node takes its step without touching the precondition. */
  lemma EntersPlainly(node: Node, p: PartialPath, q: PartialPath)
    requires q.symbolPre == p.symbolPre && q.scopePre == p.scopePre
    requires forall val :: Step(node, After(p, val)) == Some(After(q, val))
    ensures Enters(node, p, Ok(q))
  {
    forall val
      ensures Lowers(node, p, q, val) && Lifts(q, p, val)
    {
      assert StepsTo(node, p, val, q, val) && StartsAlike(q, val, p, val);
    }
  }

  /** A pop finds its symbol on the postcondition, or finds another symbol there. */
  lemma EntersPop(node: Node, p: PartialPath)
    requires node.PopSymbol? || node.PopScopedSymbol?
    requires p.symbolPost.symbols != []
    ensures Enters(node, p, AppendNode(node, p))
  {
    var top := p.symbolPost.symbols[0];
    assert p.symbolPost.symbols == [top] + p.symbolPost.symbols[1..];
    forall val
      ensures EvalStack(p.symbolPost, val) == [EvalSymbol(top, val)] + EvalStack(Drop(p.symbolPost, 1), val)
    {
      EvalSymbolsConcat([top], p.symbolPost.symbols[1..], val);
    }
    var r := AppendNode(node, p);
    if r.Ok? {
      forall val
        ensures Step(node, After(p, val)) == Some(After(r.value, val))
      {
        var s := EvalStack(p.symbolPost, val);
        assert s[1..] == EvalStack(Drop(p.symbolPost, 1), val);
      }
      EntersPlainly(node, p, r.value);
    }
  }

  /** A pop on a postcondition that is a bare variable adds the symbol `c` to the precondition. */
  ghost predicate PopsVariable(node: Node, p: PartialPath, q: PartialPath, c: PartialScopedSymbol) {
    && (node.PopSymbol? || node.PopScopedSymbol?)
    && p.symbolPost.symbols == [] && p.symbolPost.variable.Some?
    && p.symbolPost.variable == p.symbolPre.variable
    && c.symbol == node.symbol
    && ScopesOfPost(p) <= ScopesOfPre(p)
    && (if node.PopSymbol? then c.scopes.None? && q.scopePost == p.scopePost
        else c.scopes.Some? && c.scopes.value.IsBare() && q.scopePost == c.scopes.value &&
             c.scopes.value.variable.value !in ScopesOfPre(p))
    && q.symbolPre == Pushed(p.symbolPre, c) && q.scopePre == p.scopePre && q.symbolPost == p.symbolPost
  }

  lemma EvalPushed(s: PartialSymbolStack, c: PartialScopedSymbol, val: Valuation)
    requires s.variable.Some?
    ensures EvalStack(Pushed(s, c), val) ==
            EvalSymbols(s.symbols, val) + ([EvalSymbol(c, val)] + SymbolValue(val, s.variable.value))
  {
    EvalSymbolsConcat(s.symbols, [c], val);
    assert EvalSymbols([c], val) == [EvalSymbol(c, val)];
  }

  lemma StepPopped(node: Node, c: ScopedSymbol, rest: SymbolStack, scopes: ScopeStack)
    requires node.PopSymbol? || node.PopScopedSymbol?
    requires c.symbol == node.symbol && (c.scopes.Some? <==> node.PopScopedSymbol?)
    ensures Step(node, Stacks([c] + rest, scopes)) ==
            Some(Stacks(rest, if c.scopes.Some? then c.scopes.value else scopes))
  {
    assert ([c] + rest)[1..] == rest;
  }

  lemma PopVariableBelow(node: Node, p: PartialPath, q: PartialPath, c: PartialScopedSymbol, val: Valuation)
    returns (below: Valuation)
    requires PopsVariable(node, p, q, c)
    ensures StepsTo(node, p, below, q, val)
  {
    hide Step;
    var v := p.symbolPost.variable.value;
    var popped := [EvalSymbol(c, val)] + SymbolValue(val, v);
    below := Valuation(val.symbols[v := popped], val.scopes);
    EvalPushed(p.symbolPre, c, val);
    EvalSymbolsAgree(p.symbolPre.symbols, val, below);
    EvalScopesAgree(p.scopePre, val, below);
    EvalScopesAgree(p.scopePost, val, below);
    assert Before(p, below) == Before(q, val);
    assert EvalStack(p.symbolPost, below) == popped;
    assert EvalStack(q.symbolPost, val) == SymbolValue(val, v);
    StepPopped(node, EvalSymbol(c, val), SymbolValue(val, v), EvalScopes(p.scopePost, val));
  }

  lemma PopVariableAbove(node: Node, p: PartialPath, q: PartialPath, c: PartialScopedSymbol, val: Valuation)
    returns (above: Valuation)
    requires PopsVariable(node, p, q, c)
    requires Step(node, After(p, val)).Some?
    ensures StartsAlike(q, above, p, val)
  {
    var v := p.symbolPost.variable.value;
    var s := SymbolValue(val, v);
    assert EvalStack(p.symbolPost, val) == s;
    assert s != [] && s[0].symbol == c.symbol && (s[0].scopes.Some? <==> c.scopes.Some?);
    above := Unpopped(c, s, v, val);
    PopVariableRestored(node, p, q, c, val, s, above);
  }

  /** The popped symbol goes back to the pattern that stands for it, the rest to the variable. */
  ghost function Unpopped(c: PartialScopedSymbol, s: SymbolStack, v: Var, val: Valuation): Valuation
    requires s != [] && (s[0].scopes.Some? <==> c.scopes.Some?)
    requires c.scopes.Some? ==> c.scopes.value.IsBare()
  {
    Valuation(val.symbols[v := s[1..]],
              if c.scopes.Some? then val.scopes[c.scopes.value.variable.value := s[0].scopes.value] else val.scopes)
  }

  lemma PopVariableRestored(node: Node, p: PartialPath, q: PartialPath, c: PartialScopedSymbol, val: Valuation,
                            s: SymbolStack, above: Valuation)
    requires PopsVariable(node, p, q, c)
    requires s == SymbolValue(val, p.symbolPost.variable.value) && s != []
    requires s[0].symbol == c.symbol && (s[0].scopes.Some? <==> c.scopes.Some?)
    requires above == Unpopped(c, s, p.symbolPost.variable.value, val)
    ensures StartsAlike(q, above, p, val)
  {
    hide Step;
    EvalPushed(p.symbolPre, c, above);
    EvalSymbolsAgree(p.symbolPre.symbols, val, above);
    EvalScopesAgree(p.scopePre, val, above);
    if c.scopes.Some? {
      assert EvalScopes(c.scopes.value, above) == s[0].scopes.value;
    }
    assert EvalSymbol(c, above) == s[0];
    assert [s[0]] + s[1..] == s;
  }

  lemma EntersPopVariable(node: Node, p: PartialPath, q: PartialPath, c: PartialScopedSymbol)
    requires PopsVariable(node, p, q, c)
    ensures Enters(node, p, Ok(q))
  {
    forall val
      ensures Lowers(node, p, q, val)
    {
      var below := PopVariableBelow(node, p, q, c, val);
    }
    forall val | Step(node, After(p, val)).Some?
      ensures Lifts(q, p, val)
    {
      var above := PopVariableAbove(node, p, q, c, val);
    }
  }

  lemma EntersPush(node: Node, p: PartialPath)
    requires node.PushSymbol? || node.PushScopedSymbol?
    ensures Enters(node, p, AppendNode(node, p))
  {
    var r := AppendNode(node, p);
    if r.Ok? {
      var c := r.value.symbolPost.symbols[0];
      forall val
        ensures Step(node, After(p, val)) == Some(After(r.value, val))
      {
        EvalSymbolsConcat([c], p.symbolPost.symbols, val);
        assert EvalSymbols([c], val) == [EvalSymbol(c, val)];
        assert EvalStack(r.value.symbolPost, val) == [EvalSymbol(c, val)] + EvalStack(p.symbolPost, val);
        if node.PushScopedSymbol? {
          assert EvalScopes(c.scopes.value, val) == [node.scope.value] + EvalScopes(p.scopePost, val);
        }
      }
      EntersPlainly(node, p, r.value);
    }
  }

  lemma AppendNodeEnters(node: Node, p: PartialPath)
    requires p.symbolPost.SymbolVariables() <= p.symbolPre.SymbolVariables()
    requires ScopesOfPost(p) <= ScopesOfPre(p)
    ensures Enters(node, p, AppendNode(node, p))
  {
    if node.PopScopedSymbol? || node.PopSymbol? {
      if p.symbolPost.symbols != [] {
        EntersPop(node, p);
      } else if p.symbolPost.variable.Some? {
        assert p.symbolPost.variable.value in p.symbolPost.SymbolVariables();
        var q := AppendNode(node, p).value;
        EntersPopVariable(node, p, q, q.symbolPre.symbols[|p.symbolPre.symbols|]);
      }
    } else if node.PushScopedSymbol? || node.PushSymbol? {
      EntersPush(node, p);
    } else {
      var q := AppendNode(node, p).value;
      forall val
        ensures Step(node, After(p, val)) == Some(After(q, val))
      {
        assert EvalScopes(EMPTY_SCOPES, val) == [];
      }
      EntersPlainly(node, p, q);
    }
  }
}
