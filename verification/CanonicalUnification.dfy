/**
 Unification against a canonical right-hand side, the only kind that path finding produces: every
 attached scope list is a bare variable of its own.  Then each variable is bound at most once, so
 `unify` and `add` never recurse, and the bindings are a most general solved form.
 */
module CanonicalUnification {
  import opened Wrappers
  import opened Graphs
  import opened Patterns
  import opened Unification

  ghost predicate CanonicalSymbols(symbols: seq<PartialScopedSymbol>) {
    && (forall i :: 0 <= i < |symbols| && symbols[i].scopes.Some? ==> symbols[i].scopes.value.IsBare())
    && (forall i, j :: 0 <= i < j < |symbols| && symbols[i].scopes.Some? && symbols[j].scopes.Some? ==>
          symbols[i].scopes != symbols[j].scopes)
  }

  ghost predicate CanonicalStacks(symbols: PartialSymbolStack, scopes: PartialScopeStack) {
    && CanonicalSymbols(symbols.symbols)
    && scopes.IsBare()
    && scopes.variable.value !in symbols.ScopeVariables()
  }

  function Min(a: nat, b: nat): nat {
    if a < b then a else b
  }

  /** A bare variable takes whatever it is unified with. */
  lemma UnifyScopesBare(l: PartialScopeStack, r: PartialScopeStack, b: ScopeBindings, depth: nat)
    requires r.IsBare() && r.variable.value !in b && l.variable != r.variable
    ensures UnifyScopes(l, r, b, depth).Ok?
    ensures UnifyScopes(l, r, b, depth).value.scopes == b[r.variable.value := l]
  {
  }

  /** The symbols agree, and both or neither have scopes attached. */
  predicate Alike(a: PartialScopedSymbol, b: PartialScopedSymbol) {
    a.symbol == b.symbol && (a.scopes.Some? <==> b.scopes.Some?)
  }

  /** `after` adds to `before` the scope variables of `r`, each bound to the scopes opposite in `l`. */
  ghost predicate Pairs(after: ScopeBindings, before: ScopeBindings, l: seq<PartialScopedSymbol>,
                        r: seq<PartialScopedSymbol>)
    requires |l| == |r|
  {
    && after.Keys == before.Keys + SymbolsScopeVariables(r)
    && (forall v :: v in before ==> v in after && after[v] == before[v])
    && (forall i :: 0 <= i < |r| && r[i].scopes.Some? ==>
          && l[i].scopes.Some?
          && r[i].scopes.value.variable.Some?
          && r[i].scopes.value.variable.value in after
          && after[r[i].scopes.value.variable.value] == l[i].scopes.value)
  }

  lemma PairsCons(after: ScopeBindings, middle: ScopeBindings, before: ScopeBindings,
                  l: seq<PartialScopedSymbol>, r: seq<PartialScopedSymbol>)
    requires |l| == |r| > 0
    requires Pairs(middle, before, l[..1], r[..1])
    requires Pairs(after, middle, l[1..], r[1..])
    ensures Pairs(after, before, l, r)
  {
    assert r == r[..1] + r[1..];
    SymbolsScopeVariablesConcat(r[..1], r[1..]);
    forall i | 0 <= i < |r| && r[i].scopes.Some?
      ensures && l[i].scopes.Some?
              && r[i].scopes.value.variable.Some?
              && r[i].scopes.value.variable.value in after
              && after[r[i].scopes.value.variable.value] == l[i].scopes.value
    {
      if i == 0 {
        assert r[..1][0] == r[0] && l[..1][0] == l[0];
      } else {
        assert r[1..][i - 1] == r[i] && l[1..][i - 1] == l[i];
      }
    }
  }

  lemma HeadVariableDistinct(r: seq<PartialScopedSymbol>)
    requires CanonicalSymbols(r) && r != []
    ensures CanonicalSymbols(r[1..])
    ensures r[0].ScopeVariables() !! SymbolsScopeVariables(r[1..])
  {
    forall v | v in SymbolsScopeVariables(r[1..])
      ensures v !in r[0].ScopeVariables()
    {
      var i :| 0 <= i < |r[1..]| && v in r[1..][i].ScopeVariables();
      assert r[1..][i] == r[i + 1];
    }
  }

  /** The first `Min` symbols of both stacks are pairwise alike. */
  predicate PrefixesAlike(l: seq<PartialScopedSymbol>, r: seq<PartialScopedSymbol>) {
    forall i :: 0 <= i < Min(|l|, |r|) ==> Alike(l[i], r[i])
  }

  lemma UnifySymbolCanonical(a: PartialScopedSymbol, b: PartialScopedSymbol, cb: ScopeBindings, depth: nat)
    requires b.scopes.Some? ==> b.scopes.value.IsBare()
    requires b.ScopeVariables() !! cb.Keys && b.ScopeVariables() !! a.ScopeVariables()
    ensures var u := UnifySymbol(a, b, cb, depth);
            && (u.Ok? <==> Alike(a, b))
            && (u.Err? ==> u.error != StackOverflow)
            && (u.Ok? ==> Pairs(u.value.scopes, cb, [a], [b]))
  {
    assert SymbolsScopeVariables([b]) == b.ScopeVariables() by {
      assert [b][0] == b;
    }
    if Alike(a, b) && a.scopes.Some? {
      UnifyScopesBare(a.scopes.value, b.scopes.value, cb, depth);
    }
  }

  /** What unification against a canonical stack comes to, whatever the depth. */
  ghost predicate UnifiedCanonically(u: Result<SymbolsUnified, PathResolutionError>,
                                     l: PartialSymbolStack, r: PartialSymbolStack, cb: ScopeBindings)
  {
    var k := Min(|l.symbols|, |r.symbols|);
    var tails := MatchTails(Drop(l, k), Drop(r, k));
    && (u.Err? ==> u.error != StackOverflow)
    && (u.Ok? <==> PrefixesAlike(l.symbols, r.symbols) && tails.Ok?)
    && (u.Ok? ==>
          && Pairs(u.value.scopes, cb, l.symbols[..k], r.symbols[..k])
          && u.value.symbols == if tails.value.BindTail? then map[tails.value.variable := tails.value.bound] else map[])
  }

  lemma PrefixesAlikeCons(l: seq<PartialScopedSymbol>, r: seq<PartialScopedSymbol>)
    requires l != [] && r != []
    ensures PrefixesAlike(l, r) <==> Alike(l[0], r[0]) && PrefixesAlike(l[1..], r[1..])
  {
    var k := Min(|l|, |r|);
    if Alike(l[0], r[0]) && PrefixesAlike(l[1..], r[1..]) {
      forall i | 0 <= i < k
        ensures Alike(l[i], r[i])
      {
        assert i > 0 ==> Alike(l[1..][i - 1], r[1..][i - 1]);
      }
    }
    if PrefixesAlike(l, r) {
      forall i | 0 <= i < k - 1
        ensures Alike(l[1..][i], r[1..][i])
      {
        assert Alike(l[i + 1], r[i + 1]);
      }
    }
  }

  lemma UnifiedCons(u: Result<SymbolsUnified, PathResolutionError>, middle: ScopeBindings,
                    l: PartialSymbolStack, r: PartialSymbolStack, cb: ScopeBindings)
    requires l.symbols != [] && r.symbols != [] && Alike(l.symbols[0], r.symbols[0])
    requires Pairs(middle, cb, [l.symbols[0]], [r.symbols[0]])
    requires UnifiedCanonically(u, Drop(l, 1), Drop(r, 1), middle)
    ensures UnifiedCanonically(u, l, r, cb)
  {
    var l1, r1 := Drop(l, 1), Drop(r, 1);
    var k := Min(|l1.symbols|, |r1.symbols|);
    assert Drop(l1, k) == Drop(l, k + 1) && Drop(r1, k) == Drop(r, k + 1);
    PrefixesAlikeCons(l.symbols, r.symbols);
    if u.Ok? {
      var lk, rk := l.symbols[..k + 1], r.symbols[..k + 1];
      assert lk[..1] == [l.symbols[0]] && rk[..1] == [r.symbols[0]];
      assert lk[1..] == l1.symbols[..k] && rk[1..] == r1.symbols[..k];
      PairsCons(u.value.scopes, middle, cb, lk, rk);
    }
  }

  lemma TailVariables(symbols: seq<PartialScopedSymbol>)
    requires symbols != []
    ensures SymbolsScopeVariables(symbols) == symbols[0].ScopeVariables() + SymbolsScopeVariables(symbols[1..])
    ensures SymbolsScopeVariables([symbols[0]]) == symbols[0].ScopeVariables()
  {
    assert symbols == [symbols[0]] + symbols[1..];
    SymbolsScopeVariablesConcat([symbols[0]], symbols[1..]);
    assert [symbols[0]][0] == symbols[0];
  }

  lemma {:induction false} UnifyCanonical(l: PartialSymbolStack, r: PartialSymbolStack, head: seq<PartialScopedSymbol>,
                                          cb: ScopeBindings, depth: nat)
    requires CanonicalSymbols(r.symbols)
    requires r.ScopeVariables() !! cb.Keys && r.ScopeVariables() !! l.ScopeVariables()
    ensures UnifiedCanonically(UnifySymbols(l, r, head, map[], cb, depth), l, r, cb)
    decreases |l.symbols|
  {
    if l.symbols == [] || r.symbols == [] {
      assert Drop(l, 0) == l && Drop(r, 0) == r;
    } else {
      var a, b := l.symbols[0], r.symbols[0];
      TailVariables(l.symbols);
      TailVariables(r.symbols);
      HeadVariableDistinct(r.symbols);
      UnifySymbolCanonical(a, b, cb, depth);
      match UnifySymbol(a, b, cb, depth)
      case Err(_) => assert !Alike(l.symbols[0], r.symbols[0]);
      case Ok(SymbolUnified(unified, middle)) =>
        UnifyCanonical(Drop(l, 1), Drop(r, 1), head + [unified], middle, depth);
        UnifiedCons(UnifySymbols(l, r, head, map[], cb, depth), middle, l, r, cb);
    }
  }
}
