/**
 Unification against a linear right-hand side: every attached scope list ends in a variable of its own, but may
 have scopes above it, as the preconditions of paths do once the target of a jump has been chosen for them.  Then
 a variable of the left may be bound as well, and bindings may mention variables that are bound themselves.
 */
module LinearUnification {
  import opened Wrappers
  import opened Graphs
  import opened Patterns
  import opened Unification
  import opened CanonicalUnification
  import opened CanonicalJoin

  ghost predicate LinearSymbols(symbols: seq<PartialScopedSymbol>) {
    && (forall i :: 0 <= i < |symbols| && symbols[i].scopes.Some? ==> symbols[i].scopes.value.variable.Some?)
    && (forall i, j :: 0 <= i < j < |symbols| && symbols[i].scopes.Some? && symbols[j].scopes.Some? ==>
          symbols[i].scopes.value.variable != symbols[j].scopes.value.variable)
  }

  ghost predicate LinearStacks(symbols: PartialSymbolStack, scopes: PartialScopeStack) {
    && LinearSymbols(symbols.symbols)
    && scopes.variable.Some?
    && scopes.variable.value !in symbols.ScopeVariables()
  }

  lemma CanonicalIsLinear(symbols: PartialSymbolStack, scopes: PartialScopeStack)
    requires CanonicalStacks(symbols, scopes)
    ensures LinearStacks(symbols, scopes)
  {
    var s := symbols.symbols;
    forall i, j | 0 <= i < j < |s| && s[i].scopes.Some? && s[j].scopes.Some?
      ensures s[i].scopes.value.variable != s[j].scopes.value.variable
    {
      assert s[i].scopes.value.IsBare() && s[j].scopes.value.IsBare();
    }
  }

  // ---------------------------------------------------------------------------------------------
  // Bindings on the way

  /**
   `left` are the scope variables of the left side, `unmet` those of the right that have not been met yet.  A
   variable of the left is bound to scopes above an unbound variable of the right, which no other one is bound to.
   */
  ghost predicate Ordered(b: ScopeBindings, left: set<Var>, unmet: set<Var>) {
    && left !! unmet && b.Keys !! unmet
    && (forall v :: v in b ==> b[v].ScopeVariables() !! unmet)
    && (forall x :: x in b && x in left ==>
          b[x].scopes != [] && b[x].variable.Some? && b[x].variable.value !in left && b[x].variable.value !in b)
    && (forall x, y :: x in b && y in b && x in left && y in left && x != y ==> b[x].variable != b[y].variable)
  }

  ghost predicate AgreesOutside(a: Valuation, b: Valuation, keys: set<Var>) {
    && (forall v :: SymbolValue(a, v) == SymbolValue(b, v))
    && (forall v :: v !in keys ==> ScopeValue(a, v) == ScopeValue(b, v))
  }

  ghost predicate Completes(c: Valuation, val: Valuation, b: ScopeBindings) {
    AgreesOutside(val, c, b.Keys) && SatisfiesScopes(c, b)
  }

  ghost predicate HasCompletion(val: Valuation, b: ScopeBindings) {
    exists c :: Completes(c, val, b)
  }

  /** Whatever the unbound variables stand for, the bound ones can be chosen to satisfy the bindings. */
  ghost predicate Completable(b: ScopeBindings) {
    forall val :: HasCompletion(val, b)
  }

  ghost function WithScopes(val: Valuation, v: Var, scopes: ScopeStack): Valuation {
    Valuation(val.symbols, val.scopes[v := scopes])
  }

  lemma WithScopesValue(val: Valuation, v: Var, scopes: ScopeStack)
    ensures ScopeValue(WithScopes(val, v, scopes), v) == scopes
    ensures forall w :: w != v ==> ScopeValue(WithScopes(val, v, scopes), w) == ScopeValue(val, w)
    ensures forall w :: SymbolValue(WithScopes(val, v, scopes), w) == SymbolValue(val, w)
  {
  }

  /** A variable that the bindings do not mention can be bound to anything but itself. */
  lemma CompletableFresh(b: ScopeBindings, v: Var, s: PartialScopeStack)
    requires Completable(b) && v !in b && s.variable != Some(v)
    requires forall w :: w in b ==> v !in b[w].ScopeVariables()
    ensures Completable(b[v := s])
  {
    hide Completes;
    var after := b[v := s];
    forall val: Valuation
      ensures HasCompletion(val, after)
    {
      assert HasCompletion(val, b);
      var c :| Completes(c, val, b);
      CompletesFresh(c, val, b, v, s);
    }
  }

  lemma CompletesFresh(c: Valuation, val: Valuation, b: ScopeBindings, v: Var, s: PartialScopeStack)
    requires Completes(c, val, b) && v !in b && s.variable != Some(v)
    requires forall w :: w in b ==> v !in b[w].ScopeVariables()
    ensures Completes(WithScopes(c, v, EvalScopes(s, c)), val, b[v := s])
  {
    hide WithScopes, SymbolValue, ScopeValue;
    var d := WithScopes(c, v, EvalScopes(s, c));
    WithScopesValue(c, v, EvalScopes(s, c));
    var after := b[v := s];
    forall w | w in after
      ensures ScopeValue(d, w) == EvalScopes(after[w], d)
    {
      assert after[w].variable.Some? ==> after[w].variable.value in after[w].ScopeVariables();
    }
  }

  /** A variable that is not bound can be bound to a stack that ends in another unbound one. */
  lemma CompletableUnbound(b: ScopeBindings, x: Var, s: PartialScopeStack)
    requires Completable(b) && x !in b
    requires s.variable.Some? && s.variable != Some(x) && s.variable.value !in b
    ensures Completable(b[x := s])
  {
    hide Completes;
    var after := b[x := s];
    forall val: Valuation
      ensures HasCompletion(val, after)
    {
      var chosen := WithScopes(val, x, EvalScopes(s, val));
      assert HasCompletion(chosen, b);
      var c :| Completes(c, chosen, b);
      CompletesUnbound(c, val, b, x, s);
    }
  }

  lemma CompletesUnbound(c: Valuation, val: Valuation, b: ScopeBindings, x: Var, s: PartialScopeStack)
    requires Completes(c, WithScopes(val, x, EvalScopes(s, val)), b) && x !in b
    requires s.variable.Some? && s.variable != Some(x) && s.variable.value !in b
    ensures Completes(c, val, b[x := s])
  {
    hide WithScopes, SymbolValue, ScopeValue;
    WithScopesValue(val, x, EvalScopes(s, val));
    assert ScopeValue(c, x) == EvalScopes(s, val) == EvalScopes(s, c);
  }

  /** What matching against a stack with a variable of its own comes to. */
  lemma MatchShape(l: PartialScopeStack, r: PartialScopeStack)
    requires r.variable.Some? && l.variable != r.variable && MatchScopes(l, r).Ok?
    ensures var m := MatchScopes(l, r).value;
            && m.Bind?
            && (if m.variable == r.variable.value
                then m.bound.variable == l.variable && (l.variable.Some? ==> m.stack == l)
                else && l.variable == Some(m.variable)
                     && m.bound.variable == r.variable && m.bound.scopes != [] && m.stack == r)
  {
    StripScopesShape(l.scopes, r.scopes);
  }

  /** What one stack adds to the bindings, as far as valuations are concerned. */
  ghost predicate Refines(after: ScopeBindings, b: ScopeBindings, l: PartialScopeStack, r: PartialScopeStack) {
    forall val :: SatisfiesScopes(val, after) <==> SatisfiesScopes(val, b) && EvalScopes(l, val) == EvalScopes(r, val)
  }

  lemma RefinesByOne(b: ScopeBindings, l: PartialScopeStack, r: PartialScopeStack)
    requires MatchScopes(l, r).Ok? && MatchScopes(l, r).value.Bind? && MatchScopes(l, r).value.variable !in b
    ensures Refines(b[MatchScopes(l, r).value.variable := MatchScopes(l, r).value.bound], b, l, r)
  {
    hide EvalScopes, SatisfiesScopes;
    var m := MatchScopes(l, r).value;
    var after := b[m.variable := m.bound];
    forall val: Valuation
      ensures SatisfiesScopes(val, after) <==>
              SatisfiesScopes(val, b) && EvalScopes(l, val) == EvalScopes(r, val)
    {
      EvalMatched(l, r, val);
      SatisfiesAdded(val, b, m.variable, m.bound);
    }
  }

  ghost predicate StepOutcome(u: Result<ScopesUnified, PathResolutionError>, l: PartialScopeStack,
                              r: PartialScopeStack, b: ScopeBindings, left: set<Var>, unmet: set<Var>)
  {
    && (u.Err? ==> u.error == ScopeStackUnsatisfied)
    && (u.Err? ==> forall val :: !(SatisfiesScopes(val, b) && EvalScopes(l, val) == EvalScopes(r, val)))
    && (u.Ok? ==> b.Keys <= u.value.scopes.Keys)
    && (u.Ok? ==> Ordered(u.value.scopes, left, unmet) && Completable(u.value.scopes))
    && (u.Ok? ==> Refines(u.value.scopes, b, l, r))
  }

  /** Unifying any stack of the left with one of the right that has not been met yet. */
  lemma UnifyScopesLinear(l: PartialScopeStack, r: PartialScopeStack, b: ScopeBindings, left: set<Var>,
                          unmet: set<Var>, depth: nat)
    requires Ordered(b, left, unmet) && Completable(b) && depth > 0
    requires l.ScopeVariables() <= left && r.variable.Some? && r.variable.value in unmet
    ensures StepOutcome(UnifyScopes(l, r, b, depth), l, r, b, left, unmet - {r.variable.value})
  {
    hide Completable, Refines;
    var v := r.variable.value;
    assert l.variable.Some? ==> l.variable.value in l.ScopeVariables();
    if MatchScopes(l, r).Err? {
      forall val: Valuation
        ensures EvalScopes(l, val) != EvalScopes(r, val)
      {
        EvalMatched(l, r, val);
      }
    } else {
      MatchShape(l, r);
      var m := MatchScopes(l, r).value;
      if m.variable !in b {
        RefinesByOne(b, l, r);
        if m.variable == v {
          CompletableFresh(b, v, m.bound);
        } else {
          CompletableUnbound(b, m.variable, m.bound);
        }
      } else {
        UnifyBoundLinear(l, r, b, left, unmet, depth);
      }
    }
  }

  /** The variable of the left is bound already: its binding and the new demand are unified in turn. */
  lemma UnifyBoundLinear(l: PartialScopeStack, r: PartialScopeStack, b: ScopeBindings, left: set<Var>,
                         unmet: set<Var>, depth: nat)
    requires Ordered(b, left, unmet) && Completable(b) && depth > 0
    requires l.ScopeVariables() <= left && r.variable.Some? && r.variable.value in unmet
    requires MatchScopes(l, r).Ok? && MatchScopes(l, r).value.Bind? && MatchScopes(l, r).value.variable in b
    ensures StepOutcome(UnifyScopes(l, r, b, depth), l, r, b, left, unmet - {r.variable.value})
  {
    hide Completable, Refines;
    assert l.variable.Some? ==> l.variable.value in l.ScopeVariables();
    MatchShape(l, r);
    var m := MatchScopes(l, r).value;
    var x, v := m.variable, r.variable.value;
    var demand, known := m.bound, b[x];
    assert UnifyScopes(l, r, b, depth) ==
           match UnifyScopes(demand, known, b, depth - 1)
           case Err(e) => Err(e)
           case Ok(ScopesUnified(unified, after)) => Ok(ScopesUnified(m.stack, after[x := unified]));
    if MatchScopes(demand, known).Err? {
      forall val: Valuation
        ensures !(SatisfiesScopes(val, b) && EvalScopes(l, val) == EvalScopes(r, val))
      {
        EvalMatched(l, r, val);
        EvalMatched(demand, known, val);
      }
    } else {
      MatchShape(demand, known);
      var n := MatchScopes(demand, known).value;
      RefinesByOne(b, demand, known);
      var middle := b[n.variable := n.bound];
      assert UnifyScopes(demand, known, b, depth - 1) == Ok(ScopesUnified(n.stack, middle));
      var after := middle[x := n.stack];
      assert UnifyScopes(l, r, b, depth).value.scopes == after;
      assert Refines(middle, b, demand, known);
      if n.variable == v {
        assert after == middle;
        CompletableFresh(b, v, n.bound);
      } else {
        CompletableUnbound(b, n.variable, n.bound);
        Rebound(middle, x, n.variable, demand, known);
      }
      RefinesInTurn(after, middle, b, l, r, x, demand, known);
    }
  }

  /** Replacing a variable's binding by an equal one, given the binding that makes them equal. */
  lemma Rebound(b: ScopeBindings, x: Var, v: Var, demand: PartialScopeStack, known: PartialScopeStack)
    requires x in b && v in b && x != v && b[x] == known
    requires MatchScopes(demand, known).Ok? && MatchScopes(demand, known).value.Bind?
    requires v == MatchScopes(demand, known).value.variable && b[v] == MatchScopes(demand, known).value.bound
    ensures forall val :: SatisfiesScopes(val, b[x := demand]) <==> SatisfiesScopes(val, b)
    ensures Completable(b) ==> Completable(b[x := demand])
  {
    hide SatisfiesScopes, AgreesOutside;
    var after := b[x := demand];
    forall val: Valuation
      ensures SatisfiesScopes(val, after) <==> SatisfiesScopes(val, b)
    {
      ReboundSatisfied(val, b, x, v, demand, known);
    }
    if Completable(b) {
      forall val: Valuation
        ensures HasCompletion(val, after)
      {
        assert HasCompletion(val, b);
        var c :| Completes(c, val, b);
        assert after.Keys == b.Keys;
        assert Completes(c, val, after);
      }
    }
  }

  lemma ReboundSatisfied(val: Valuation, b: ScopeBindings, x: Var, v: Var, demand: PartialScopeStack,
                         known: PartialScopeStack)
    requires x in b && v in b && x != v && b[x] == known
    requires MatchScopes(demand, known).Ok? && MatchScopes(demand, known).value.Bind?
    requires v == MatchScopes(demand, known).value.variable && b[v] == MatchScopes(demand, known).value.bound
    ensures SatisfiesScopes(val, b[x := demand]) <==> SatisfiesScopes(val, b)
  {
    hide EvalScopes, ScopeValue, MatchScopes;
    var after := b[x := demand];
    EvalMatched(demand, known, val);
    if SatisfiesScopes(val, after) {
      assert ScopeValue(val, v) == EvalScopes(after[v], val) && ScopeValue(val, x) == EvalScopes(after[x], val);
      forall w | w in b
        ensures ScopeValue(val, w) == EvalScopes(b[w], val)
      {
        assert w in after;
      }
    }
    if SatisfiesScopes(val, b) {
      assert ScopeValue(val, v) == EvalScopes(b[v], val) && ScopeValue(val, x) == EvalScopes(b[x], val);
    }
  }

  lemma RefinesInTurn(after: ScopeBindings, middle: ScopeBindings, b: ScopeBindings, l: PartialScopeStack,
                      r: PartialScopeStack, x: Var, demand: PartialScopeStack, known: PartialScopeStack)
    requires MatchScopes(l, r).Ok? && MatchScopes(l, r).value.Bind?
    requires x == MatchScopes(l, r).value.variable && demand == MatchScopes(l, r).value.bound
    requires x in b && b[x] == known && Refines(middle, b, demand, known)
    requires forall val :: SatisfiesScopes(val, after) <==> SatisfiesScopes(val, middle)
    ensures Refines(after, b, l, r)
  {
    forall val
      ensures SatisfiesScopes(val, after) <==> SatisfiesScopes(val, b) && EvalScopes(l, val) == EvalScopes(r, val)
    {
      EvalMatched(l, r, val);
      if SatisfiesScopes(val, b) {
        assert ScopeValue(val, x) == EvalScopes(known, val);
      }
    }
  }

  // ---------------------------------------------------------------------------------------------
  // Where bindings come from

  /** The bindings mention these variables and scopes only. */
  ghost predicate Within(b: ScopeBindings, vars: set<Var>, nodes: set<NodeHandle>) {
    b.Keys <= vars && forall v :: v in b ==> StackWithin(b[v], vars, nodes)
  }

  ghost predicate StackWithin(s: PartialScopeStack, vars: set<Var>, nodes: set<NodeHandle>) {
    s.ScopeVariables() <= vars && forall n :: n in s.scopes ==> n in nodes
  }

  lemma MatchWithin(l: PartialScopeStack, r: PartialScopeStack, vars: set<Var>, nodes: set<NodeHandle>)
    requires StackWithin(l, vars, nodes) && StackWithin(r, vars, nodes) && MatchScopes(l, r).Ok?
    ensures var m := MatchScopes(l, r).value;
            StackWithin(m.stack, vars, nodes) && (m.Bind? ==> m.variable in vars && StackWithin(m.bound, vars, nodes))
  {
    StripScopesShape(l.scopes, r.scopes);
    assert l.variable.Some? ==> l.variable.value in l.ScopeVariables();
    assert r.variable.Some? ==> r.variable.value in r.ScopeVariables();
  }

  lemma {:induction false} UnifyScopesWithin(l: PartialScopeStack, r: PartialScopeStack, b: ScopeBindings,
                                             vars: set<Var>, nodes: set<NodeHandle>, depth: nat)
    requires StackWithin(l, vars, nodes) && StackWithin(r, vars, nodes) && Within(b, vars, nodes)
    requires UnifyScopes(l, r, b, depth).Ok?
    ensures Within(UnifyScopes(l, r, b, depth).value.scopes, vars, nodes)
    ensures StackWithin(UnifyScopes(l, r, b, depth).value.stack, vars, nodes)
    decreases depth
  {
    hide StackWithin;
    MatchWithin(l, r, vars, nodes);
    var m := MatchScopes(l, r).value;
    if m.Bind? && m.variable in b {
      UnifyScopesWithin(m.bound, b[m.variable], b, vars, nodes, depth - 1);
    }
  }

  // ---------------------------------------------------------------------------------------------
  // Symbol stacks

  lemma LinearTail(symbols: seq<PartialScopedSymbol>)
    requires LinearSymbols(symbols) && symbols != []
    ensures LinearSymbols(symbols[1..])
    ensures symbols[0].ScopeVariables() !! SymbolsScopeVariables(symbols[1..])
    ensures SymbolsScopeVariables(symbols) == symbols[0].ScopeVariables() + SymbolsScopeVariables(symbols[1..])
  {
    TailVariables(symbols);
    forall v | v in SymbolsScopeVariables(symbols[1..])
      ensures v !in symbols[0].ScopeVariables()
    {
      var i :| 0 <= i < |symbols[1..]| && v in symbols[1..][i].ScopeVariables();
      assert symbols[1..][i] == symbols[i + 1];
    }
  }

  ghost predicate SymbolOutcome(u: Result<SymbolUnified, PathResolutionError>, x: PartialScopedSymbol,
                                y: PartialScopedSymbol, b: ScopeBindings, left: set<Var>, unmet: set<Var>)
  {
    && (u.Err? ==> u.error != StackOverflow)
    && (u.Err? ==> forall val :: !(SatisfiesScopes(val, b) && EvalSymbol(x, val) == EvalSymbol(y, val)))
    && (u.Ok? ==> b.Keys <= u.value.scopes.Keys)
    && (u.Ok? ==> Ordered(u.value.scopes, left, unmet) && Completable(u.value.scopes))
    && (u.Ok? ==> forall val :: SatisfiesScopes(val, u.value.scopes) <==>
                                SatisfiesScopes(val, b) && EvalSymbol(x, val) == EvalSymbol(y, val))
  }

  lemma UnifySymbolLinear(x: PartialScopedSymbol, y: PartialScopedSymbol, b: ScopeBindings, left: set<Var>,
                          unmet: set<Var>, depth: nat)
    requires Ordered(b, left, unmet) && Completable(b) && depth > 0
    requires x.ScopeVariables() <= left && y.ScopeVariables() <= unmet
    requires y.scopes.Some? ==> y.scopes.value.variable.Some?
    ensures SymbolOutcome(UnifySymbol(x, y, b, depth), x, y, b, left, unmet - y.ScopeVariables())
  {
    hide Completable, UnifyScopes, SatisfiesScopes, EvalScopes;
    if x.symbol == y.symbol && x.scopes.Some? && y.scopes.Some? {
      UnifyScopesLinear(x.scopes.value, y.scopes.value, b, left, unmet, depth);
      assert y.ScopeVariables() == {y.scopes.value.variable.value};
    }
  }

  ghost predicate SymbolsOutcome(u: Result<SymbolsUnified, PathResolutionError>, l: PartialSymbolStack,
                                 r: PartialSymbolStack, b: ScopeBindings, left: set<Var>, unmet: set<Var>)
  {
    var k := Min(|l.symbols|, |r.symbols|);
    var tails := MatchTails(Drop(l, k), Drop(r, k));
    && (u.Err? ==> u.error != StackOverflow)
    && (u.Err? ==> forall val :: !(SatisfiesScopes(val, b) && EvalStack(l, val) == EvalStack(r, val)))
    && (u.Ok? ==> tails.Ok?)
    && (u.Ok? ==> u.value.symbols ==
                  if tails.value.BindTail? then map[tails.value.variable := tails.value.bound] else map[])
    && (u.Ok? ==> b.Keys <= u.value.scopes.Keys)
    && (u.Ok? ==> Ordered(u.value.scopes, left, unmet - SymbolsScopeVariables(r.symbols[..k])))
    && (u.Ok? ==> Completable(u.value.scopes))
    && (u.Ok? ==> forall val ::
          SatisfiesSymbols(val, u.value.symbols) && SatisfiesScopes(val, u.value.scopes) <==>
          SatisfiesScopes(val, b) && EvalStack(l, val) == EvalStack(r, val))
  }

  lemma EvalHead(s: PartialSymbolStack, val: Valuation)
    requires s.symbols != []
    ensures EvalStack(s, val) == [EvalSymbol(s.symbols[0], val)] + EvalStack(Drop(s, 1), val)
  {
    EvalDrop(s, 1, val);
    assert EvalSymbols(s.symbols[..1], val) == [EvalSymbol(s.symbols[0], val)];
  }

  lemma EvalHeads(l: PartialSymbolStack, r: PartialSymbolStack, val: Valuation)
    requires l.symbols != [] && r.symbols != []
    ensures EvalStack(l, val) == EvalStack(r, val) <==>
            && EvalSymbol(l.symbols[0], val) == EvalSymbol(r.symbols[0], val)
            && EvalStack(Drop(l, 1), val) == EvalStack(Drop(r, 1), val)
  {
    hide EvalStack, EvalSymbol;
    EvalHead(l, val);
    EvalHead(r, val);
    assert EvalStack(l, val)[1..] == EvalStack(Drop(l, 1), val) && EvalStack(r, val)[1..] == EvalStack(Drop(r, 1), val);
  }

  lemma {:induction false} UnifySymbolsLinear(l: PartialSymbolStack, r: PartialSymbolStack,
                                              head: seq<PartialScopedSymbol>, b: ScopeBindings, left: set<Var>,
                                              unmet: set<Var>, depth: nat)
    requires Ordered(b, left, unmet) && Completable(b) && depth > 0
    requires LinearSymbols(r.symbols) && l.SymbolVariables() !! r.SymbolVariables()
    requires l.ScopeVariables() <= left && r.ScopeVariables() <= unmet
    ensures SymbolsOutcome(UnifySymbols(l, r, head, map[], b, depth), l, r, b, left, unmet)
    decreases |l.symbols|
  {
    hide Ordered, Completable, EvalStack, SatisfiesScopes, LinearSymbols, UnifySymbol;
    if l.symbols == [] || r.symbols == [] {
      TailsLinear(l, r, head, b, left, unmet, depth);
    } else {
      TailVariables(l.symbols);
      LinearTail(r.symbols);
      HeadVariables(r.symbols);
      UnifySymbolLinear(l.symbols[0], r.symbols[0], b, left, unmet, depth);
      var u := UnifySymbol(l.symbols[0], r.symbols[0], b, depth);
      if u.Err? {
        forall val: Valuation
          ensures !(SatisfiesScopes(val, b) && EvalStack(l, val) == EvalStack(r, val))
        {
          EvalHeads(l, r, val);
        }
      } else {
        UnifySymbolsLinear(Drop(l, 1), Drop(r, 1), head + [u.value.symbol], u.value.scopes, left,
                           unmet - r.symbols[0].ScopeVariables(), depth);
        SymbolsOutcomeCons(u.value.scopes, l, r, head + [u.value.symbol], b, left, unmet, depth);
      }
    }
  }

  lemma HeadVariables(symbols: seq<PartialScopedSymbol>)
    requires LinearSymbols(symbols) && symbols != []
    ensures symbols[0].scopes.Some? ==> symbols[0].scopes.value.variable.Some?
  {
  }

  lemma TailsLinear(l: PartialSymbolStack, r: PartialSymbolStack, head: seq<PartialScopedSymbol>, b: ScopeBindings,
                    left: set<Var>, unmet: set<Var>, depth: nat)
    requires l.symbols == [] || r.symbols == []
    requires Ordered(b, left, unmet) && Completable(b) && l.SymbolVariables() !! r.SymbolVariables()
    ensures SymbolsOutcome(UnifySymbols(l, r, head, map[], b, depth), l, r, b, left, unmet)
  {
    hide Ordered, Completable, EvalStack, SatisfiesScopes;
    assert Drop(l, 0) == l && Drop(r, 0) == r;
    forall val: Valuation
      ensures EvalStack(l, val) == EvalStack(r, val) <==>
              && MatchTails(l, r).Ok?
              && (MatchTails(l, r).value.BindTail? ==>
                    SymbolValue(val, MatchTails(l, r).value.variable) == EvalStack(MatchTails(l, r).value.bound, val))
    {
      EvalTails(l, r, val);
    }
    assert r.symbols[..0] == [];
    assert unmet - SymbolsScopeVariables([]) == unmet;
  }

  lemma SymbolsOutcomeCons(middle: ScopeBindings, l: PartialSymbolStack, r: PartialSymbolStack,
                           head: seq<PartialScopedSymbol>, b: ScopeBindings, left: set<Var>, unmet: set<Var>,
                           depth: nat)
    requires l.symbols != [] && r.symbols != []
    requires UnifySymbol(l.symbols[0], r.symbols[0], b, depth).Ok?
    requires middle == UnifySymbol(l.symbols[0], r.symbols[0], b, depth).value.scopes
    requires SymbolOutcome(UnifySymbol(l.symbols[0], r.symbols[0], b, depth), l.symbols[0], r.symbols[0], b, left,
                           unmet - r.symbols[0].ScopeVariables())
    requires SymbolsOutcome(UnifySymbols(Drop(l, 1), Drop(r, 1), head, map[], middle, depth), Drop(l, 1), Drop(r, 1),
                            middle, left, unmet - r.symbols[0].ScopeVariables())
    ensures SymbolsOutcome(UnifySymbols(Drop(l, 1), Drop(r, 1), head, map[], middle, depth), l, r, b, left, unmet)
  {
    hide Ordered, Completable, EvalStack, SatisfiesScopes, SatisfiesSymbols, UnifySymbol, UnifySymbols, EvalSymbol,
      MatchTails;
    var l1, r1 := Drop(l, 1), Drop(r, 1);
    var k := Min(|l1.symbols|, |r1.symbols|);
    assert Drop(l1, k) == Drop(l, k + 1) && Drop(r1, k) == Drop(r, k + 1);
    var met := r.symbols[..k + 1];
    assert met[1..] == r1.symbols[..k] && met[0] == r.symbols[0];
    TailVariables(met);
    var rest := unmet - r.symbols[0].ScopeVariables();
    assert rest - SymbolsScopeVariables(r1.symbols[..k]) == unmet - SymbolsScopeVariables(met);
    forall val: Valuation
      ensures EvalStack(l, val) == EvalStack(r, val) <==>
              && EvalSymbol(l.symbols[0], val) == EvalSymbol(r.symbols[0], val)
              && EvalStack(l1, val) == EvalStack(r1, val)
    {
      EvalHeads(l, r, val);
    }
  }

  // ---------------------------------------------------------------------------------------------
  // Both stacks

  /** The shape of the tables that come of it; `rest` are the symbols of the right that are left over. */
  ghost predicate LinearTables(t: Tables, ls: PartialSymbolStack, lc: PartialScopeStack, rs: PartialSymbolStack)
  {
    var k := Min(|ls.symbols|, |rs.symbols|);
    var tails := MatchTails(Drop(ls, k), Drop(rs, k));
    && Ordered(t.scopes, ls.ScopeVariables() + lc.ScopeVariables(), SymbolsScopeVariables(rs.symbols[k..]))
    && Completable(t.scopes)
    && tails.Ok?
    && t.symbols == if tails.value.BindTail? then map[tails.value.variable := tails.value.bound] else map[]
  }

  lemma NothingBound(left: set<Var>, unmet: set<Var>)
    requires left !! unmet
    ensures Ordered(map[], left, unmet) && Completable(map[])
    ensures forall val :: SatisfiesScopes(val, map[])
  {
    var none: ScopeBindings := map[];
    forall val: Valuation
      ensures HasCompletion(val, none)
    {
      assert Completes(val, val, none);
    }
  }

  lemma LinearPartsDisjoint(symbols: seq<PartialScopedSymbol>, k: nat)
    requires LinearSymbols(symbols) && k <= |symbols|
    ensures SymbolsScopeVariables(symbols[..k]) !! SymbolsScopeVariables(symbols[k..])
    ensures SymbolsScopeVariables(symbols) == SymbolsScopeVariables(symbols[..k]) + SymbolsScopeVariables(symbols[k..])
  {
    assert symbols == symbols[..k] + symbols[k..];
    SymbolsScopeVariablesConcat(symbols[..k], symbols[k..]);
    forall v, w | v in SymbolsScopeVariables(symbols[..k]) && w in SymbolsScopeVariables(symbols[k..])
      ensures v != w
    {
      var i :| 0 <= i < k && v in symbols[..k][i].ScopeVariables();
      var j :| 0 <= j < |symbols| - k && w in symbols[k..][j].ScopeVariables();
      assert symbols[i].scopes.value.variable != symbols[k + j].scopes.value.variable;
    }
  }

  lemma OrderedFewer(b: ScopeBindings, left: set<Var>, unmet: set<Var>, fewer: set<Var>)
    requires Ordered(b, left, unmet) && fewer <= unmet
    ensures Ordered(b, left, fewer)
  {
  }

  /**
   Against linear stacks with variables of their own, and with any room on the call stack, unification fails
   exactly when no valuation equates both sides; otherwise it comes to bindings that exactly those satisfy.
   */
  lemma UnifyStacksLinear(ls: PartialSymbolStack, lc: PartialScopeStack, rs: PartialSymbolStack, rc: PartialScopeStack,
                          depth: nat)
    requires LinearStacks(rs, rc) && Apart(ls, lc, rs, rc) && depth > 0
    ensures var u := UnifyStacks(ls, lc, rs, rc, depth);
            && (u.Err? ==> u.error != StackOverflow)
            && (u.Err? ==> forall val :: !Equates(val, ls, lc, rs, rc))
            && (u.Ok? ==> forall val :: Equates(val, ls, lc, rs, rc) <==> Satisfies(val, u.value))
            && (u.Ok? ==> LinearTables(u.value, ls, lc, rs))
  {
    hide UnifySymbols, UnifyScopes, SatisfiesScopes, SatisfiesSymbols, EvalStack, EvalScopes, Ordered, Completable,
      LinearSymbols;
    var left, unmet := ls.ScopeVariables() + lc.ScopeVariables(), rs.ScopeVariables() + rc.ScopeVariables();
    var k := Min(|ls.symbols|, |rs.symbols|);
    NothingBound(left, unmet);
    assert rc.ScopeVariables() == {rc.variable.value};
    UnifySymbolsLinear(ls, rs, [], map[], left, unmet, depth);
    LinearPartsDisjoint(rs.symbols, k);
    var u := UnifySymbols(ls, rs, [], map[], map[], depth);
    if u.Ok? {
      var met := unmet - SymbolsScopeVariables(rs.symbols[..k]);
      UnifyScopesLinear(lc, rc, u.value.scopes, left, met, depth);
      var v := UnifyScopes(lc, rc, u.value.scopes, depth);
      if v.Ok? {
        OrderedFewer(v.value.scopes, left, met - {rc.variable.value}, SymbolsScopeVariables(rs.symbols[k..]));
      }
    }
  }

  /** A valuation that satisfies the tables, and leaves the unbound variables alone. */
  ghost predicate Solves(c: Valuation, val: Valuation, t: Tables) {
    && Satisfies(c, t)
    && (forall v :: v !in t.symbols ==> SymbolValue(c, v) == SymbolValue(val, v))
    && (forall v :: v !in t.scopes ==> ScopeValue(c, v) == ScopeValue(val, v))
  }

  lemma TailUnbound(l: PartialSymbolStack, r: PartialSymbolStack)
    requires l.symbols == [] || r.symbols == []
    requires MatchTails(l, r).Ok? && MatchTails(l, r).value.BindTail? && l.SymbolVariables() !! r.SymbolVariables()
    ensures MatchTails(l, r).value.variable !in MatchTails(l, r).value.bound.SymbolVariables()
    ensures MatchTails(l, r).value.variable in l.SymbolVariables() + r.SymbolVariables()
    ensures MatchTails(l, r).value.variable in l.SymbolVariables() ==>
              MatchTails(l, r).value.bound == r && l.symbols == []
    ensures MatchTails(l, r).value.variable in r.SymbolVariables() && l.variable.Some? ==>
              MatchTails(l, r).value.bound == l && r.symbols == []
  {
    assert l.variable.Some? ==> l.variable.value in l.SymbolVariables();
    assert r.variable.Some? ==> r.variable.value in r.SymbolVariables();
  }

  lemma TablesSolved(t: Tables, ls: PartialSymbolStack, lc: PartialScopeStack, rs: PartialSymbolStack, val: Valuation)
    returns (c: Valuation)
    requires LinearTables(t, ls, lc, rs) && ls.SymbolVariables() !! rs.SymbolVariables()
    ensures Solves(c, val, t)
  {
    hide EvalStack, EvalScopes, MatchTails, Ordered, Solves, Completes;
    assert HasCompletion(val, t.scopes);
    var d :| Completes(d, val, t.scopes);
    var k := Min(|ls.symbols|, |rs.symbols|);
    var tails := MatchTails(Drop(ls, k), Drop(rs, k)).value;
    if tails.BindTail? {
      TailUnbound(Drop(ls, k), Drop(rs, k));
      c := Valuation(d.symbols[tails.variable := EvalStack(tails.bound, d)], d.scopes);
      TailSolved(t, tails.variable, tails.bound, d, val);
    } else {
      c := d;
      NoTailSolved(t, d, val);
    }
  }

  lemma NoTailSolved(t: Tables, d: Valuation, val: Valuation)
    requires Completes(d, val, t.scopes) && t.symbols == map[]
    ensures Solves(d, val, t)
  {
  }

  lemma TailSolved(t: Tables, v: Var, bound: PartialSymbolStack, d: Valuation, val: Valuation)
    requires Completes(d, val, t.scopes) && t.symbols == map[v := bound] && v !in bound.SymbolVariables()
    ensures Solves(Valuation(d.symbols[v := EvalStack(bound, d)], d.scopes), val, t)
  {
    hide EvalStack, EvalScopes;
    var c := Valuation(d.symbols[v := EvalStack(bound, d)], d.scopes);
    EvalStackAgree(bound, d, c);
    forall w | w in t.scopes
      ensures ScopeValue(c, w) == EvalScopes(t.scopes[w], c)
    {
      EvalScopesAgree(t.scopes[w], d, c);
    }
  }

  ghost predicate SymbolsWithin(symbols: seq<PartialScopedSymbol>, vars: set<Var>, nodes: set<NodeHandle>) {
    forall i :: 0 <= i < |symbols| && symbols[i].scopes.Some? ==> StackWithin(symbols[i].scopes.value, vars, nodes)
  }

  lemma {:induction false} UnifySymbolsWithin(l: PartialSymbolStack, r: PartialSymbolStack,
                                              head: seq<PartialScopedSymbol>, b: ScopeBindings, vars: set<Var>,
                                              nodes: set<NodeHandle>, depth: nat)
    requires SymbolsWithin(l.symbols, vars, nodes) && SymbolsWithin(r.symbols, vars, nodes) && Within(b, vars, nodes)
    requires UnifySymbols(l, r, head, map[], b, depth).Ok?
    ensures Within(UnifySymbols(l, r, head, map[], b, depth).value.scopes, vars, nodes)
    decreases |l.symbols|
  {
    hide StackWithin, UnifyScopes, MatchTails;
    if l.symbols != [] && r.symbols != [] {
      var x, y := l.symbols[0], r.symbols[0];
      if x.scopes.Some? && y.scopes.Some? {
        UnifyScopesWithin(x.scopes.value, y.scopes.value, b, vars, nodes, depth);
      }
      var u := UnifySymbol(x, y, b, depth).value;
      UnifySymbolsWithin(Drop(l, 1), Drop(r, 1), head + [u.symbol], u.scopes, vars, nodes, depth);
    }
  }

  /** Unification brings in no variables and no scopes of its own. */
  lemma UnifyStacksWithin(ls: PartialSymbolStack, lc: PartialScopeStack, rs: PartialSymbolStack, rc: PartialScopeStack,
                          vars: set<Var>, nodes: set<NodeHandle>, depth: nat)
    requires SymbolsWithin(ls.symbols, vars, nodes) && SymbolsWithin(rs.symbols, vars, nodes)
    requires StackWithin(lc, vars, nodes) && StackWithin(rc, vars, nodes)
    requires UnifyStacks(ls, lc, rs, rc, depth).Ok?
    ensures Within(UnifyStacks(ls, lc, rs, rc, depth).value.scopes, vars, nodes)
  {
    hide StackWithin, UnifyScopes, UnifySymbols;
    UnifySymbolsWithin(ls, rs, [], map[], vars, nodes, depth);
    UnifyScopesWithin(lc, rc, UnifySymbols(ls, rs, [], map[], map[], depth).value.scopes, vars, nodes, depth);
  }
}
