/**
 Joining a left postcondition to a canonical right precondition: the bindings are found exactly when
 some valuation makes both agree, they are satisfied by exactly those valuations, and they are in
 solved form, so that substituting them once is enough.
 */
module CanonicalJoin {
  import opened Wrappers
  import opened Graphs
  import opened Patterns
  import opened Unification
  import opened CanonicalUnification

  /** No variable is shared between the two sides. */
  ghost predicate Apart(ls: PartialSymbolStack, lc: PartialScopeStack, rs: PartialSymbolStack, rc: PartialScopeStack) {
    && ls.SymbolVariables() !! rs.SymbolVariables()
    && (ls.ScopeVariables() + lc.ScopeVariables()) !! (rs.ScopeVariables() + rc.ScopeVariables())
  }

  ghost predicate Equates(val: Valuation, ls: PartialSymbolStack, lc: PartialScopeStack,
                          rs: PartialSymbolStack, rc: PartialScopeStack)
  {
    EvalStack(ls, val) == EvalStack(rs, val) && EvalScopes(lc, val) == EvalScopes(rc, val)
  }

  ghost predicate Satisfies(val: Valuation, t: Tables) {
    SatisfiesSymbols(val, t.symbols) && SatisfiesScopes(val, t.scopes)
  }

  /** What variables are bound to does not mention bound variables. */
  ghost predicate Solved(t: Tables) {
    && (forall v :: v in t.scopes ==> t.scopes[v].ScopeVariables() !! t.scopes.Keys)
    && (forall v :: v in t.symbols ==>
          t.symbols[v].SymbolVariables() !! t.symbols.Keys && t.symbols[v].ScopeVariables() !! t.scopes.Keys)
  }

  /** Of a solved table: reading variables through it satisfies it ... */
  lemma ThroughSatisfies(val: Valuation, t: Tables)
    requires Solved(t)
    ensures Satisfies(Through(val, t.symbols, t.scopes), t)
  {
    var through := Through(val, t.symbols, t.scopes);
    forall v | v in t.scopes
      ensures ScopeValue(through, v) == EvalScopes(t.scopes[v], through)
    {
      EvalScopesAgree(t.scopes[v], val, through);
    }
    forall v | v in t.symbols
      ensures SymbolValue(through, v) == EvalStack(t.symbols[v], through)
    {
      EvalStackAgree(t.symbols[v], val, through);
    }
  }

  /** ... and changes nothing for a valuation that satisfies it already. */
  lemma SatisfyingIsThrough(val: Valuation, t: Tables, v: Var)
    requires Satisfies(val, t)
    ensures SymbolValue(Through(val, t.symbols, t.scopes), v) == SymbolValue(val, v)
    ensures ScopeValue(Through(val, t.symbols, t.scopes), v) == ScopeValue(val, v)
  {
  }

  lemma EvalDrop(s: PartialSymbolStack, k: nat, val: Valuation)
    requires k <= |s.symbols|
    ensures EvalStack(s, val) == EvalSymbols(s.symbols[..k], val) + EvalStack(Drop(s, k), val)
  {
    assert s.symbols == s.symbols[..k] + s.symbols[k..];
    EvalSymbolsConcat(s.symbols[..k], s.symbols[k..], val);
  }

  lemma EvalSplit(l: PartialSymbolStack, r: PartialSymbolStack, k: nat, val: Valuation)
    requires k <= |l.symbols| && k <= |r.symbols|
    ensures EvalStack(l, val) == EvalStack(r, val) <==>
            && EvalSymbols(l.symbols[..k], val) == EvalSymbols(r.symbols[..k], val)
            && EvalStack(Drop(l, k), val) == EvalStack(Drop(r, k), val)
  {
    EvalDrop(l, k, val);
    EvalDrop(r, k, val);
    assert EvalStack(l, val)[..k] == EvalSymbols(l.symbols[..k], val);
    assert EvalStack(r, val)[..k] == EvalSymbols(r.symbols[..k], val);
    assert EvalStack(l, val)[k..] == EvalStack(Drop(l, k), val);
    assert EvalStack(r, val)[k..] == EvalStack(Drop(r, k), val);
  }

  /** Once at most one side has symbols left, both sides are equal iff the demanded binding holds. */
  lemma EvalTails(l: PartialSymbolStack, r: PartialSymbolStack, val: Valuation)
    requires l.symbols == [] || r.symbols == []
    requires l.SymbolVariables() !! r.SymbolVariables()
    ensures EvalStack(l, val) == EvalStack(r, val) <==>
            && MatchTails(l, r).Ok?
            && (MatchTails(l, r).value.BindTail? ==>
                  SymbolValue(val, MatchTails(l, r).value.variable) == EvalStack(MatchTails(l, r).value.bound, val))
  {
    assert |EvalStack(l, val)| >= |l.symbols| && |EvalStack(r, val)| >= |r.symbols|;
    assert l.symbols == [] && l.variable.Some? ==> EvalStack(l, val) == SymbolValue(val, l.variable.value);
    assert r.symbols == [] && r.variable.Some? ==> EvalStack(r, val) == SymbolValue(val, r.variable.value);
    assert l.variable.Some? ==> l.variable.value in l.SymbolVariables();
    assert r.variable.Some? ==> r.variable.value in r.SymbolVariables();
  }

  lemma EvalPairs(l: seq<PartialScopedSymbol>, r: seq<PartialScopedSymbol>, cb: ScopeBindings, val: Valuation)
    requires |l| == |r| && PrefixesAlike(l, r)
    requires CanonicalSymbols(r)
    requires Pairs(cb, map[], l, r)
    ensures EvalSymbols(l, val) == EvalSymbols(r, val) <==> SatisfiesScopes(val, cb)
  {
    forall i | 0 <= i < |r| && r[i].scopes.Some?
      ensures EvalSymbol(l[i], val) == EvalSymbol(r[i], val) <==>
              ScopeValue(val, r[i].scopes.value.variable.value) == EvalScopes(l[i].scopes.value, val)
    {
      assert Alike(l[i], r[i]) && r[i].scopes.value.IsBare();
      assert EvalScopes(r[i].scopes.value, val) == ScopeValue(val, r[i].scopes.value.variable.value);
    }
    if EvalSymbols(l, val) == EvalSymbols(r, val) {
      forall v | v in cb
        ensures ScopeValue(val, v) == EvalScopes(cb[v], val)
      {
        var i :| 0 <= i < |r| && v in r[i].ScopeVariables();
        assert EvalSymbols(l, val)[i] == EvalSymbols(r, val)[i];
      }
    }
    if SatisfiesScopes(val, cb) {
      forall i | 0 <= i < |r|
        ensures EvalSymbol(l[i], val) == EvalSymbol(r[i], val)
      {
        assert Alike(l[i], r[i]);
      }
    }
  }

  /** Symbol stack unification against a canonical stack, in terms of valuations. */
  lemma SymbolsMostGeneral(l: PartialSymbolStack, r: PartialSymbolStack, depth: nat, val: Valuation)
    requires CanonicalSymbols(r.symbols)
    requires l.SymbolVariables() !! r.SymbolVariables() && l.ScopeVariables() !! r.ScopeVariables()
    ensures var u := UnifySymbols(l, r, [], map[], map[], depth);
            EvalStack(l, val) == EvalStack(r, val) <==>
            u.Ok? && SatisfiesSymbols(val, u.value.symbols) && SatisfiesScopes(val, u.value.scopes)
  {
    hide UnifySymbols, EvalStack, MatchTails, Pairs;
    UnifyCanonical(l, r, [], map[], depth);
    var k := Min(|l.symbols|, |r.symbols|);
    EvalSplit(l, r, k, val);
    EvalTails(Drop(l, k), Drop(r, k), val);
    if PrefixesAlike(l.symbols, r.symbols) {
      assert forall i :: 0 <= i < k ==> Alike(l.symbols[i], r.symbols[i]);
      var u := UnifySymbols(l, r, [], map[], map[], depth);
      if u.Ok? {
        EvalPairs(l.symbols[..k], r.symbols[..k], u.value.scopes, val);
      }
    } else {
      var i :| 0 <= i < k && !Alike(l.symbols[i], r.symbols[i]);
      assert EvalSymbols(l.symbols[..k], val)[i] == EvalSymbol(l.symbols[i], val);
      assert EvalSymbols(r.symbols[..k], val)[i] == EvalSymbol(r.symbols[i], val);
    }
  }

  /** Where the bindings come from: scope variables of the right, bound to scopes of the left. */
  ghost predicate Directed(t: Tables, ls: PartialSymbolStack, lc: PartialScopeStack,
                           rs: PartialSymbolStack, rc: PartialScopeStack)
  {
    && t.scopes.Keys <= rs.ScopeVariables() + rc.ScopeVariables()
    && (forall v :: v in t.scopes ==> t.scopes[v].ScopeVariables() <= ls.ScopeVariables() + lc.ScopeVariables())
    && (forall v :: v in t.scopes ==>
          t.scopes[v] == lc || exists i :: 0 <= i < |ls.symbols| && ls.symbols[i].scopes == Some(t.scopes[v]))
    && t.symbols.Keys <= ls.SymbolVariables() + rs.SymbolVariables()
    && (forall v :: v in t.symbols ==>
          if v in rs.SymbolVariables()
          then |rs.symbols| <= |ls.symbols| && t.symbols[v] == Drop(ls, |rs.symbols|)
          else |ls.symbols| <= |rs.symbols| && t.symbols[v] == Drop(rs, |ls.symbols|))
  }

  /** At most one symbol variable is bound: to the rest of the other side, which is left alone. */
  lemma SymbolBinding(l: PartialSymbolStack, r: PartialSymbolStack, cb: ScopeBindings, v: Var, depth: nat)
    requires CanonicalSymbols(r.symbols)
    requires l.SymbolVariables() !! r.SymbolVariables() && l.ScopeVariables() !! r.ScopeVariables()
    requires UnifySymbols(l, r, [], map[], map[], depth).Ok?
    requires cb == UnifySymbols(l, r, [], map[], map[], depth).value.scopes
    requires v in UnifySymbols(l, r, [], map[], map[], depth).value.symbols
    ensures var sb := UnifySymbols(l, r, [], map[], map[], depth).value.symbols;
            && sb.Keys == {v}
            && (v in r.SymbolVariables() && |r.symbols| <= |l.symbols| ==> sb[v] == Drop(l, |r.symbols|))
            && (v in l.SymbolVariables() ==> |l.symbols| <= |r.symbols| && sb[v] == Drop(r, |l.symbols|))
            && (v in r.SymbolVariables() <==> |r.symbols| <= |l.symbols| && r.variable.Some?)
            && (v in l.SymbolVariables() || v in r.SymbolVariables())
            && v !in sb[v].SymbolVariables()
            && sb[v].ScopeVariables() !! cb.Keys
  {
    UnifyCanonical(l, r, [], map[], depth);
    var k := Min(|l.symbols|, |r.symbols|);
    assert r.symbols == r.symbols[..k] + r.symbols[k..] && l.symbols == l.symbols[..k] + l.symbols[k..];
    SymbolsScopeVariablesConcat(r.symbols[..k], r.symbols[k..]);
    SymbolsScopeVariablesConcat(l.symbols[..k], l.symbols[k..]);
    CanonicalPartsDisjoint(r.symbols, k);
  }

  /** If the canonical side has a variable, one side's variable is bound to the rest of the other. */
  lemma TailBinding(l: PartialSymbolStack, r: PartialSymbolStack, depth: nat)
    requires CanonicalSymbols(r.symbols) && r.variable.Some?
    requires l.ScopeVariables() !! r.ScopeVariables()
    requires UnifySymbols(l, r, [], map[], map[], depth).Ok?
    ensures var sb := UnifySymbols(l, r, [], map[], map[], depth).value.symbols;
            if |r.symbols| <= |l.symbols|
            then sb == map[r.variable.value := Drop(l, |r.symbols|)]
            else l.variable.Some? && sb == map[l.variable.value := Drop(r, |l.symbols|)]
  {
    UnifyCanonical(l, r, [], map[], depth);
  }

  lemma CanonicalPartsDisjoint(symbols: seq<PartialScopedSymbol>, k: nat)
    requires CanonicalSymbols(symbols) && k <= |symbols|
    ensures SymbolsScopeVariables(symbols[..k]) !! SymbolsScopeVariables(symbols[k..])
  {
    forall v, w | v in SymbolsScopeVariables(symbols[..k]) && w in SymbolsScopeVariables(symbols[k..])
      ensures v != w
    {
      var i :| 0 <= i < k && v in symbols[..k][i].ScopeVariables();
      var j :| 0 <= j < |symbols| - k && w in symbols[k..][j].ScopeVariables();
      assert symbols[i].scopes != symbols[k + j].scopes;
    }
  }

  /** The tables that unification against a canonical side comes to, if the symbol stacks unify. */
  lemma UnifiedTables(ls: PartialSymbolStack, lc: PartialScopeStack, rs: PartialSymbolStack, rc: PartialScopeStack,
                      depth: nat)
    requires CanonicalStacks(rs, rc) && Apart(ls, lc, rs, rc)
    ensures var u := UnifySymbols(ls, rs, [], map[], map[], depth);
            && (u.Err? ==> UnifyStacks(ls, lc, rs, rc, depth) == Err(u.error) && u.error != StackOverflow)
            && (u.Ok? ==>
                  && UnifyStacks(ls, lc, rs, rc, depth) ==
                     Ok(Tables(u.value.symbols, u.value.scopes[rc.variable.value := lc]))
                  && rc.variable.value !in u.value.scopes
                  && Pairs(u.value.scopes, map[], ls.symbols[..Min(|ls.symbols|, |rs.symbols|)],
                           rs.symbols[..Min(|ls.symbols|, |rs.symbols|)]))
  {
    hide UnifySymbols, UnifyScopes, MatchTails;
    UnifyCanonical(ls, rs, [], map[], depth);
    match UnifySymbols(ls, rs, [], map[], map[], depth)
    case Err(_) =>
    case Ok(SymbolsUnified(_, sb, cb)) =>
      SymbolPairs(ls.symbols, rs.symbols, cb);
      assert lc.variable != rc.variable by {
        assert rc.variable.value in rc.ScopeVariables();
        assert lc.variable.Some? ==> lc.variable.value in lc.ScopeVariables();
      }
      UnifyScopesBare(lc, rc, cb, depth);
  }

  lemma SatisfiesAdded(val: Valuation, cb: ScopeBindings, v: Var, bound: PartialScopeStack)
    requires v !in cb
    ensures SatisfiesScopes(val, cb[v := bound]) <==>
            SatisfiesScopes(val, cb) && ScopeValue(val, v) == EvalScopes(bound, val)
  {
    var after := cb[v := bound];
    assert after[v] == bound;
    if SatisfiesScopes(val, after) {
      forall w | w in cb
        ensures ScopeValue(val, w) == EvalScopes(cb[w], val)
      {
        assert w in after;
      }
    }
  }

  /** The bindings are in solved form, and come from where they should. */
  lemma UnifyStacksSolved(ls: PartialSymbolStack, lc: PartialScopeStack, rs: PartialSymbolStack, rc: PartialScopeStack,
                          depth: nat)
    requires CanonicalStacks(rs, rc) && Apart(ls, lc, rs, rc)
    requires UnifyStacks(ls, lc, rs, rc, depth).Ok?
    ensures var t := UnifyStacks(ls, lc, rs, rc, depth).value;
            Solved(t) && Directed(t, ls, lc, rs, rc)
  {
    hide UnifySymbols, UnifyStacks, Pairs, CanonicalSymbols;
    UnifiedTables(ls, lc, rs, rc, depth);
    var u := UnifySymbols(ls, rs, [], map[], map[], depth);
    var sb, cb := u.value.symbols, u.value.scopes;
    var t := UnifyStacks(ls, lc, rs, rc, depth).value;
    SymbolPairs(ls.symbols, rs.symbols, cb);
    assert rc.ScopeVariables() == {rc.variable.value};
    forall v | v in sb
      ensures sb[v].SymbolVariables() !! sb.Keys && sb[v].ScopeVariables() !! t.scopes.Keys
      ensures v in ls.SymbolVariables() + rs.SymbolVariables()
      ensures if v in rs.SymbolVariables()
              then |rs.symbols| <= |ls.symbols| && sb[v] == Drop(ls, |rs.symbols|)
              else |ls.symbols| <= |rs.symbols| && sb[v] == Drop(rs, |ls.symbols|)
    {
      SymbolBinding(ls, rs, cb, v, depth);
      DropVariables(ls, |rs.symbols|);
      DropVariables(rs, |ls.symbols|);
    }
  }

  lemma UnifyStacksMostGeneral(ls: PartialSymbolStack, lc: PartialScopeStack, rs: PartialSymbolStack,
                               rc: PartialScopeStack, depth: nat)
    requires CanonicalStacks(rs, rc) && Apart(ls, lc, rs, rc)
    ensures var u := UnifyStacks(ls, lc, rs, rc, depth);
            && (u.Err? ==> u.error != StackOverflow)
            && (u.Err? ==> forall val :: !Equates(val, ls, lc, rs, rc))
            && (u.Ok? ==> forall val :: Equates(val, ls, lc, rs, rc) <==> Satisfies(val, u.value))
            && (u.Ok? ==> Solved(u.value) && Directed(u.value, ls, lc, rs, rc))
  {
    hide UnifySymbols, UnifyStacks, EvalStack, Pairs, SatisfiesScopes, SatisfiesSymbols, Solved, Directed,
      CanonicalSymbols;
    UnifiedTables(ls, lc, rs, rc, depth);
    forall val {
      SymbolsMostGeneral(ls, rs, depth, val);
    }
    var u := UnifySymbols(ls, rs, [], map[], map[], depth);
    if u.Ok? {
      UnifyStacksSolved(ls, lc, rs, rc, depth);
      forall val
        ensures Equates(val, ls, lc, rs, rc) <==> Satisfies(val, UnifyStacks(ls, lc, rs, rc, depth).value)
      {
        SatisfiesAdded(val, u.value.scopes, rc.variable.value, lc);
        assert EvalScopes(rc, val) == ScopeValue(val, rc.variable.value);
      }
    }
  }

  lemma DropVariables(s: PartialSymbolStack, k: nat)
    ensures k <= |s.symbols| ==> Drop(s, k).ScopeVariables() <= s.ScopeVariables()
  {
    if k <= |s.symbols| {
      assert s.symbols == s.symbols[..k] + s.symbols[k..];
      SymbolsScopeVariablesConcat(s.symbols[..k], s.symbols[k..]);
    }
  }

  lemma SymbolPairs(l: seq<PartialScopedSymbol>, r: seq<PartialScopedSymbol>, cb: ScopeBindings)
    requires Pairs(cb, map[], l[..Min(|l|, |r|)], r[..Min(|l|, |r|)])
    ensures cb.Keys <= SymbolsScopeVariables(r)
    ensures forall v :: v in cb ==> cb[v].ScopeVariables() <= SymbolsScopeVariables(l)
    ensures forall v :: v in cb ==> exists i :: 0 <= i < |l| && l[i].scopes == Some(cb[v])
  {
    var k := Min(|l|, |r|);
    assert r == r[..k] + r[k..];
    SymbolsScopeVariablesConcat(r[..k], r[k..]);
    forall v | v in cb
      ensures cb[v].ScopeVariables() <= SymbolsScopeVariables(l)
      ensures exists i :: 0 <= i < |l| && l[i].scopes == Some(cb[v])
    {
      var i :| 0 <= i < k && v in r[..k][i].ScopeVariables();
      assert cb[v] == l[..k][i].scopes.value == l[i].scopes.value;
      assert l[i].ScopeVariables() <= SymbolsScopeVariables(l);
    }
  }
}
