/**
 What comes of joining paths whose variables are not apart.  If the right precondition is not canonical, a
 variable can be unified with itself twice, and then `add` and `unify` call each other for ever.  If it is,
 unification ends, but may find bindings that go round in circles, or that substituting once does not solve.
 */
module SharedVariables {
  import opened Wrappers
  import opened Graphs
  import opened Patterns
  import opened Unification
  import opened CanonicalUnification
  import opened CanonicalJoin
  import opened PartialPaths

  ghost predicate SelfBound(b: ScopeBindings, v: Var) {
    v in b && b[v] == ScopesFromVariable(v)
  }

  /** A variable unified with itself is bound to itself. */
  lemma UnifyWithItself(v: Var, b: ScopeBindings, depth: nat)
    requires v !in b
    ensures var u := UnifyScopes(ScopesFromVariable(v), ScopesFromVariable(v), b, depth);
            u.Ok? && SelfBound(u.value.scopes, v)
  {
  }

  /**
   Binding a self-bound variable again: an error if the new stack ends in that variable after some
   scopes, and otherwise an overflow however much room the call stack has.
   */
  lemma {:induction false} SelfBoundNeverBinds(b: ScopeBindings, v: Var, s: PartialScopeStack, depth: nat)
    requires SelfBound(b, v)
    ensures AddScopes(b, v, s, depth) ==
            Err(if depth > 0 && s.scopes != [] && s.variable == Some(v) then ScopeStackUnsatisfied else StackOverflow)
  {
    if depth > 0 && !(s.scopes != [] && s.variable == Some(v)) {
      var m := MatchScopes(s, b[v]);
      assert StripScopes(s.scopes, []) == Some(Rests(s.scopes, []));
      assert m.Ok? && m.value.Bind? && m.value.variable == v;
      assert m.value.bound.scopes != [] ==> m.value.bound.variable != Some(v);
      SelfBoundNeverBinds(b, v, m.value.bound, depth - 1);
    }
  }

  /** A path that keeps its scope stack, below the symbol `x` with the scopes of variable `v` attached. */
  function Keeping(n: NodeHandle, x: Symbol, v: Var): PartialPath {
    var symbols := PartialSymbolStack([PartialScopedSymbol(x, Some(ScopesFromVariable(v)))], None);
    PartialPath(n, n, symbols, ScopesFromVariable(v), symbols, ScopesFromVariable(v), [])
  }

  /** Unifying stacks of one symbol each, without symbol stack variables. */
  lemma UnifyOnlySymbols(a: PartialScopedSymbol, b: PartialScopedSymbol, cb: ScopeBindings, depth: nat)
    requires UnifySymbol(a, b, cb, depth).Ok?
    ensures var u := UnifySymbol(a, b, cb, depth).value;
            UnifySymbols(PartialSymbolStack([a], None), PartialSymbolStack([b], None), [], map[], cb, depth) ==
            Ok(SymbolsUnified(PartialSymbolStack([u.symbol], None), map[], u.scopes))
  {
    var u := UnifySymbol(a, b, cb, depth).value;
    var noSymbols: SymbolBindings := map[];
    assert Drop(PartialSymbolStack([a], None), 1) == EMPTY_SYMBOLS &&
           Drop(PartialSymbolStack([b], None), 1) == EMPTY_SYMBOLS;
    assert UnifySymbols(EMPTY_SYMBOLS, EMPTY_SYMBOLS, [u.symbol], noSymbols, u.scopes, depth) ==
           Ok(SymbolsUnified(Prepend([u.symbol], EMPTY_SYMBOLS), noSymbols, u.scopes));
    assert [] + [u.symbol] == [u.symbol] && [u.symbol] + [] == [u.symbol];
  }

  /** Variables `l` and `r`, unified twice. */
  function UnifyTwice(l: Var, r: Var, depth: nat): Result<ScopesUnified, PathResolutionError> {
    match UnifyScopes(ScopesFromVariable(l), ScopesFromVariable(r), map[], depth)
    case Err(e) => Err(e)
    case Ok(ScopesUnified(_, b)) => UnifyScopes(ScopesFromVariable(l), ScopesFromVariable(r), b, depth)
  }

  lemma UnifiedTwice(l: Var, r: Var, depth: nat)
    ensures l == r ==> UnifyTwice(l, r, depth) == Err(StackOverflow)
    ensures l != r && depth > 0 ==> UnifyTwice(l, r, depth).Ok?
  {
    var left, right := ScopesFromVariable(l), ScopesFromVariable(r);
    var b: ScopeBindings := map[r := left];
    assert UnifyScopes(left, right, map[], depth) == Ok(ScopesUnified(left, b));
    if l == r {
      SelfBoundNeverBinds(b, r, left, depth);
    } else if depth > 0 {
      assert UnifyScopes(left, left, b, depth - 1) == Ok(ScopesUnified(left, b[l := left]));
      assert AddScopes(b, r, left, depth).Ok?;
    }
  }

  /** Joining two such paths unifies their variables twice: for the symbol, and for the scope stack. */
  lemma JoinKeeping(g: Graph, n: NodeHandle, x: Symbol, l: Var, r: Var, depth: nat)
    requires g.Kind(n) == Scope(true)
    ensures var join := ComputeJoin(g, Keeping(n, x, l), Keeping(n, x, r), depth);
            var twice := UnifyTwice(l, r, depth);
            if twice.Err? then join == Err(twice.error) else join == Ok(Tables(map[], twice.value.scopes))
  {
    var lhs, rhs := Keeping(n, x, l), Keeping(n, x, r);
    var noScopes: ScopeBindings := map[];
    assert UnifyScopes(ScopesFromVariable(l), ScopesFromVariable(r), noScopes, depth) ==
           Ok(ScopesUnified(ScopesFromVariable(l), map[r := ScopesFromVariable(l)]));
    UnifyOnlySymbols(lhs.symbolPost.symbols[0], rhs.symbolPre.symbols[0], map[], depth);
  }

  /** Joining such paths overflows exactly when they share their variable, as long as the call stack has any room. */
  lemma KeepingOverflows(g: Graph, n: NodeHandle, x: Symbol, l: Var, r: Var, depth: nat)
    requires g.Kind(n) == Scope(true) && depth > 0
    ensures ComputeJoin(g, Keeping(n, x, l), Keeping(n, x, r), depth) == Err(StackOverflow) <==> l == r
  {
    JoinKeeping(g, n, x, l, r, depth);
    UnifiedTwice(l, r, depth);
  }

  /**
   `concatenate` is documented to bind the variables that both sides have in common to the same values.
   It does not: joined to itself, such a path overflows, although every valuation makes both sides equal;
   renamed apart first, as `append_to` does, it joins.
   */
  lemma SharedVariablesOverflow(g: Graph, n: NodeHandle, x: Symbol, v: Var, depth: nat)
    requires g.Kind(n) == Scope(true)
    ensures Concatenate(g, Keeping(n, x, v), Keeping(n, x, v), depth) == Err(StackOverflow)
    ensures depth > 0 ==> AppendPath(g, Keeping(n, x, v), Keeping(n, x, v), depth).Ok?
  {
    hide UnifySymbols, UnifyScopes, UnifyTwice;
    var p := Keeping(n, x, v);
    assert LargestAttached(p.symbolPre.symbols) <= v by {
      assert p.symbolPre.symbols[0].ScopeVariables() == {v};
    }
    var renamed := p.RenamedApartFrom(p);
    assert renamed == Keeping(n, x, v + v);
    JoinKeeping(g, n, x, v, v, depth);
    UnifiedTwice(v, v, depth);
    JoinKeeping(g, n, x, v + v, v, depth);
    UnifiedTwice(v + v, v, depth);
  }

  // ---------------------------------------------------------------------------------------------
  // Against canonical preconditions, whatever variables are shared

  /** A bare variable that is not bound yet takes what it is unified with, unless that is itself below some scopes. */
  lemma UnifyWithBare(l: PartialScopeStack, r: PartialScopeStack, b: ScopeBindings, depth: nat)
    requires r.IsBare() && r.variable.value !in b
    ensures var u := UnifyScopes(l, r, b, depth);
            if l.scopes != [] && l.variable == r.variable then u == Err(ScopeStackUnsatisfied)
            else u.Ok? && u.value.scopes == b[r.variable.value := l]
  {
    assert StripScopes(l.scopes, []) == Some(Rests(l.scopes, []));
  }

  lemma {:induction false} CanonicalNeverOverflows(l: PartialSymbolStack, r: PartialSymbolStack,
                                                   head: seq<PartialScopedSymbol>, cb: ScopeBindings, depth: nat)
    requires CanonicalSymbols(r.symbols) && r.ScopeVariables() !! cb.Keys
    ensures var u := UnifySymbols(l, r, head, map[], cb, depth);
            && (u.Err? ==> u.error != StackOverflow)
            && (u.Ok? ==> u.value.scopes.Keys <= cb.Keys + r.ScopeVariables())
    decreases |l.symbols|
  {
    if l.symbols != [] && r.symbols != [] {
      HeadVariableDistinct(r.symbols);
      TailVariables(r.symbols);
      var u := UnifySymbol(l.symbols[0], r.symbols[0], cb, depth);
      HeadNeverOverflows(l.symbols[0], r.symbols[0], cb, depth);
      if u.Ok? {
        CanonicalNeverOverflows(Drop(l, 1), Drop(r, 1), head + [u.value.symbol], u.value.scopes, depth);
      }
    }
  }

  lemma HeadNeverOverflows(a: PartialScopedSymbol, b: PartialScopedSymbol, cb: ScopeBindings, depth: nat)
    requires (b.scopes.Some? ==> b.scopes.value.IsBare()) && b.ScopeVariables() !! cb.Keys
    ensures var u := UnifySymbol(a, b, cb, depth);
            && (u.Err? ==> u.error != StackOverflow)
            && (u.Ok? ==> u.value.scopes.Keys <= cb.Keys + b.ScopeVariables())
  {
    if a.scopes.Some? && b.scopes.Some? {
      UnifyWithBare(a.scopes.value, b.scopes.value, cb, depth);
    }
  }

  /** So joining to a canonical precondition never overflows, apart or not. */
  lemma JoinNeverOverflows(ls: PartialSymbolStack, lc: PartialScopeStack, rs: PartialSymbolStack, rc: PartialScopeStack,
                           depth: nat)
    requires CanonicalStacks(rs, rc)
    ensures UnifyStacks(ls, lc, rs, rc, depth).Err? ==> UnifyStacks(ls, lc, rs, rc, depth).error != StackOverflow
  {
    CanonicalNeverOverflows(ls, rs, [], map[], depth);
    var u := UnifySymbols(ls, rs, [], map[], map[], depth);
    if u.Ok? {
      UnifyWithBare(lc, rc, u.value.scopes, depth);
    }
  }

  // ---------------------------------------------------------------------------------------------
  // One symbol with scopes attached, and a scope stack: exactly when sharing does harm

  function OneSymbol(x: Symbol, scopes: PartialScopeStack): PartialSymbolStack {
    PartialSymbolStack([PartialScopedSymbol(x, Some(scopes))], None)
  }

  /** Left, the symbol with scopes `l` above the scope stack `m`; right, with variables `a` and `b`. */
  function UnifyPair(x: Symbol, l: PartialScopeStack, m: PartialScopeStack, a: Var, b: Var, depth: nat)
    : Result<Tables, PathResolutionError>
  {
    UnifyStacks(OneSymbol(x, l), m, OneSymbol(x, ScopesFromVariable(a)), ScopesFromVariable(b), depth)
  }

  /** The stack is the variable below some scopes. */
  predicate Below(v: Var, s: PartialScopeStack) {
    s.scopes != [] && s.variable == Some(v)
  }

  lemma UnifyPairIs(x: Symbol, l: PartialScopeStack, m: PartialScopeStack, a: Var, b: Var, depth: nat)
    requires a != b
    ensures UnifyPair(x, l, m, a, b, depth) ==
            if Below(a, l) || Below(b, m) then Err(ScopeStackUnsatisfied) else Ok(Tables(map[], map[a := l, b := m]))
  {
    var none: ScopeBindings := map[];
    UnifyWithBare(l, ScopesFromVariable(a), none, depth);
    var left, right := PartialScopedSymbol(x, Some(l)), PartialScopedSymbol(x, Some(ScopesFromVariable(a)));
    if Below(a, l) {
      assert UnifySymbol(left, right, none, depth) == Err(ScopeStackUnsatisfied);
    } else {
      assert none[a := l] == map[a := l];
      UnifyOnlySymbols(left, right, none, depth);
      UnifyWithBare(m, ScopesFromVariable(b), map[a := l], depth);
      assert (map[a := l])[b := m] == map[a := l, b := m];
    }
  }

  /** Both sides are equal. */
  ghost predicate PairEquated(val: Valuation, l: PartialScopeStack, m: PartialScopeStack, a: Var, b: Var) {
    ScopeValue(val, a) == EvalScopes(l, val) && ScopeValue(val, b) == EvalScopes(m, val)
  }

  lemma PairEquates(x: Symbol, l: PartialScopeStack, m: PartialScopeStack, a: Var, b: Var, val: Valuation)
    ensures Equates(val, OneSymbol(x, l), m, OneSymbol(x, ScopesFromVariable(a)), ScopesFromVariable(b)) <==>
            PairEquated(val, l, m, a, b)
  {
    assert forall s: SymbolStack :: s + [] == s;
    assert EvalScopes(ScopesFromVariable(a), val) == ScopeValue(val, a);
    assert EvalScopes(ScopesFromVariable(b), val) == ScopeValue(val, b);
    var left, right := EvalStack(OneSymbol(x, l), val), EvalStack(OneSymbol(x, ScopesFromVariable(a)), val);
    assert left[0] == ScopedSymbol(x, Some(EvalScopes(l, val)));
    assert right[0] == ScopedSymbol(x, Some(ScopeValue(val, a)));
    if EvalScopes(l, val) == ScopeValue(val, a) {
      assert left == right;
    }
  }

  /** Each variable is to stand for the other one, and there are scopes in between. */
  predicate Circular(l: PartialScopeStack, m: PartialScopeStack, a: Var, b: Var) {
    l.variable == Some(b) && m.variable == Some(a) && (l.scopes != [] || m.scopes != [])
  }

  lemma PairSolvable(l: PartialScopeStack, m: PartialScopeStack, a: Var, b: Var)
    requires a != b
    ensures (exists val :: PairEquated(val, l, m, a, b)) <==> !Below(a, l) && !Below(b, m) && !Circular(l, m, a, b)
  {
    if val :| PairEquated(val, l, m, a, b) {
      assert |ScopeValue(val, a)| == |EvalScopes(l, val)| && |ScopeValue(val, b)| == |EvalScopes(m, val)|;
    }
    if !Below(a, l) && !Below(b, m) && !Circular(l, m, a, b) {
      var va := if l.variable == Some(b) then l.scopes + m.scopes else l.scopes;
      var vb := if m.variable == Some(a) then m.scopes + l.scopes else m.scopes;
      var val := Valuation(imap[], imap[a := va, b := vb]);
      assert ScopeValue(val, a) == va && ScopeValue(val, b) == vb;
      assert forall s: ScopeStack :: s + [] == s;
      assert PairEquated(val, l, m, a, b);
    }
  }

  /**
   Unification finds what no valuation can equate exactly when the bindings go round in a circle; this takes
   variables that both sides share.  It never misses what some valuation equates.
   */
  lemma FoundOrNot(x: Symbol, l: PartialScopeStack, m: PartialScopeStack, a: Var, b: Var, depth: nat)
    requires a != b
    ensures var solvable := exists val :: PairEquated(val, l, m, a, b);
            && (solvable ==> UnifyPair(x, l, m, a, b, depth).Ok?)
            && (UnifyPair(x, l, m, a, b, depth).Ok? && !solvable <==> Circular(l, m, a, b))
  {
    hide PairEquated;
    UnifyPairIs(x, l, m, a, b, depth);
    PairSolvable(l, m, a, b);
  }

  /** Nothing that a variable is bound to needs substituting again. */
  predicate Untangled(l: PartialScopeStack, m: PartialScopeStack, a: Var, b: Var) {
    && (l.variable == Some(b) ==> m == ScopesFromVariable(b))
    && (m.variable == Some(a) ==> l == ScopesFromVariable(a))
  }

  /** What the variables stand for once the bindings are substituted solves the bindings, for every valuation. */
  ghost predicate OnceIsEnough(t: Tables) {
    forall val :: Satisfies(Through(val, t.symbols, t.scopes), t)
  }

  /** Of the bindings found, substituting once is enough exactly when they are not tangled up. */
  lemma OnceIsEnoughWhen(x: Symbol, l: PartialScopeStack, m: PartialScopeStack, a: Var, b: Var, depth: nat)
    requires a != b && UnifyPair(x, l, m, a, b, depth).Ok?
    ensures OnceIsEnough(UnifyPair(x, l, m, a, b, depth).value) <==> Untangled(l, m, a, b)
  {
    UnifyPairIs(x, l, m, a, b, depth);
    var t := Tables(map[], map[a := l, b := m]);
    if Untangled(l, m, a, b) {
      forall val
        ensures Satisfies(Through(val, t.symbols, t.scopes), t)
      {
        UntangledSatisfies(l, m, a, b, val);
      }
    } else {
      TangledFails(l, m, a, b);
    }
  }

  lemma ThroughPair(l: PartialScopeStack, m: PartialScopeStack, a: Var, b: Var, val: Valuation, v: Var)
    requires a != b
    ensures ScopeValue(Through(val, map[], map[a := l, b := m]), v) ==
            if v == a then EvalScopes(l, val) else if v == b then EvalScopes(m, val) else ScopeValue(val, v)
  {
  }

  lemma UntangledSatisfies(l: PartialScopeStack, m: PartialScopeStack, a: Var, b: Var, val: Valuation)
    requires a != b && Untangled(l, m, a, b) && !Below(a, l) && !Below(b, m)
    ensures Satisfies(Through(val, map[], map[a := l, b := m]), Tables(map[], map[a := l, b := m]))
  {
    hide Through;
    var through := Through(val, map[], map[a := l, b := m]);
    ThroughPair(l, m, a, b, val, a);
    ThroughPair(l, m, a, b, val, b);
    if l.variable.Some? {
      ThroughPair(l, m, a, b, val, l.variable.value);
    }
    if m.variable.Some? {
      ThroughPair(l, m, a, b, val, m.variable.value);
    }
    assert ScopeValue(through, a) == EvalScopes(l, through);
    assert ScopeValue(through, b) == EvalScopes(m, through);
  }

  lemma TangledFails(l: PartialScopeStack, m: PartialScopeStack, a: Var, b: Var)
    requires a != b && !Untangled(l, m, a, b) && !Below(a, l) && !Below(b, m)
    ensures !OnceIsEnough(Tables(map[], map[a := l, b := m]))
  {
    hide Through;
    var first := l.variable == Some(b) && m != ScopesFromVariable(b);
    var bound := if first then m.scopes else l.scopes;
    var other: seq<NodeHandle> := if bound == [] then [0] else [];
    var val := Valuation(imap[], imap[if first then b else a := other]);
    assert ScopeValue(val, if first then b else a) == other && ScopeValue(val, if first then a else b) == [];
    var t := Tables(map[], map[a := l, b := m]);
    var through := Through(val, t.symbols, t.scopes);
    ThroughPair(l, m, a, b, val, a);
    ThroughPair(l, m, a, b, val, b);
    assert !Satisfies(through, t);
  }

  /** Two canonical paths that share variables: joining them succeeds, although no stacks meet. */
  lemma SharedVariablesMislead(g: Graph, n: NodeHandle, x: Symbol, t: NodeHandle, depth: nat)
    requires g.Kind(n) == Scope(true)
    ensures var lhs := PartialPath(n, n, OneSymbol(x, ScopesFromVariable(2)), ScopesFromVariable(1),
                                   OneSymbol(x, PartialScopeStack([t], Some(2))), ScopesFromVariable(1), []);
            var rhs := PartialPath(n, n, OneSymbol(x, ScopesFromVariable(1)), ScopesFromVariable(2),
                                   EMPTY_SYMBOLS, EMPTY_SCOPES, []);
            && CanonicalStacks(lhs.symbolPre, lhs.scopePre) && CanonicalStacks(rhs.symbolPre, rhs.scopePre)
            && Concatenate(g, lhs, rhs, depth).Ok?
            && forall val :: !Equates(val, lhs.symbolPost, lhs.scopePost, rhs.symbolPre, rhs.scopePre)
  {
    var l, m := PartialScopeStack([t], Some(2)), ScopesFromVariable(1);
    UnifyPairIs(x, l, m, 1, 2, depth);
    FoundOrNot(x, l, m, 1, 2, depth);
    OneSymbolCanonical(x, 2, 1);
    OneSymbolCanonical(x, 1, 2);
    forall val
      ensures !Equates(val, OneSymbol(x, l), m, OneSymbol(x, ScopesFromVariable(1)), ScopesFromVariable(2))
    {
      PairEquates(x, l, m, 1, 2, val);
    }
  }

  lemma OneSymbolCanonical(x: Symbol, a: Var, b: Var)
    requires a != b
    ensures CanonicalStacks(OneSymbol(x, ScopesFromVariable(a)), ScopesFromVariable(b))
  {
    var symbols := OneSymbol(x, ScopesFromVariable(a)).symbols;
    assert forall i, v :: 0 <= i < |symbols| && v in symbols[i].ScopeVariables() ==> v == a;
  }
}
