/**
 Partial symbol stacks and partial scope stacks: patterns that match concrete stacks.  A pattern
 denotes, under a valuation of its variables, exactly one concrete stack.
 */
module Patterns {
  import opened Wrappers
  import opened Graphs

  /** Variables are numbered from 1. */
  type Var = v: int | v >= 1 witness 1

  datatype PartialScopeStack = PartialScopeStack(scopes: seq<NodeHandle>, variable: Option<Var>) {
    predicate CanOnlyMatchEmpty() {
      scopes == [] && variable.None?
    }

    function LargestScopeVariable(): (r: nat)
      ensures forall v :: v in ScopeVariables() ==> v <= r
      ensures r == 0 || r in ScopeVariables()
    {
      if variable.Some? then variable.value else 0
    }

    function ScopeVariables(): set<Var> {
      if variable.Some? then {variable.value} else {}
    }

    function WithOffset(offset: nat): PartialScopeStack {
      if variable.Some? then PartialScopeStack(scopes, Some(variable.value + offset)) else this
    }

    ghost predicate IsBare() {
      scopes == [] && variable.Some?
    }
  }

  const EMPTY_SCOPES := PartialScopeStack([], None)

  function ScopesFromVariable(v: Var): PartialScopeStack {
    PartialScopeStack([], Some(v))
  }

  datatype PartialScopedSymbol = PartialScopedSymbol(symbol: Symbol, scopes: Option<PartialScopeStack>) {
    function ScopeVariables(): set<Var> {
      if scopes.Some? then scopes.value.ScopeVariables() else {}
    }

    function WithOffset(offset: nat): PartialScopedSymbol {
      PartialScopedSymbol(symbol, if scopes.Some? then Some(scopes.value.WithOffset(offset)) else None)
    }
  }

  function SymbolsWithOffset(symbols: seq<PartialScopedSymbol>, offset: nat): (r: seq<PartialScopedSymbol>) {
    seq(|symbols|, i requires 0 <= i < |symbols| => symbols[i].WithOffset(offset))
  }

  /** The scope stack variables attached to any of the symbols. */
  ghost function SymbolsScopeVariables(symbols: seq<PartialScopedSymbol>): set<Var> {
    set i, v | 0 <= i < |symbols| && v in symbols[i].ScopeVariables() :: v
  }

  datatype PartialSymbolStack = PartialSymbolStack(symbols: seq<PartialScopedSymbol>, variable: Option<Var>) {
    function LargestSymbolVariable(): nat {
      if variable.Some? then variable.value else 0
    }

    ghost function SymbolVariables(): set<Var> {
      if variable.Some? then {variable.value} else {}
    }

    ghost function ScopeVariables(): set<Var> {
      SymbolsScopeVariables(symbols)
    }

    function WithOffset(symbolOffset: nat, scopeOffset: nat): PartialSymbolStack {
      PartialSymbolStack(
        SymbolsWithOffset(symbols, scopeOffset),
        if variable.Some? then Some(variable.value + symbolOffset) else None)
    }
  }

  const EMPTY_SYMBOLS := PartialSymbolStack([], None)

  function SymbolsFromVariable(v: Var): PartialSymbolStack {
    PartialSymbolStack([], Some(v))
  }

  /** What is left of a stack after its first `k` symbols. */
  function Drop(s: PartialSymbolStack, k: nat): PartialSymbolStack
    requires k <= |s.symbols|
  {
    s.(symbols := s.symbols[k..])
  }

  /** The largest scope stack variable attached to any of the symbols, 0 if there is none. */
  function LargestAttached(symbols: seq<PartialScopedSymbol>): (r: nat)
    ensures forall v :: v in SymbolsScopeVariables(symbols) ==> v <= r
    ensures r == 0 || r in SymbolsScopeVariables(symbols)
  {
    if symbols == [] then 0
    else
      var front := symbols[..|symbols| - 1];
      var last := symbols[|symbols| - 1];
      assert symbols == front + [last];
      SymbolsScopeVariablesConcat(front, [last]);
      assert SymbolsScopeVariables([last]) == last.ScopeVariables() by { assert [last][0] == last; }
      var m := LargestAttached(front);
      if last.scopes.Some? && last.scopes.value.LargestScopeVariable() > m
      then last.scopes.value.LargestScopeVariable()
      else m
  }

  lemma SymbolsScopeVariablesConcat(a: seq<PartialScopedSymbol>, b: seq<PartialScopedSymbol>)
    ensures SymbolsScopeVariables(a + b) == SymbolsScopeVariables(a) + SymbolsScopeVariables(b)
  {
    forall v | v in SymbolsScopeVariables(a + b)
      ensures v in SymbolsScopeVariables(a) + SymbolsScopeVariables(b)
    {
      var i :| 0 <= i < |a + b| && v in (a + b)[i].ScopeVariables();
      if i >= |a| {
        assert v in b[i - |a|].ScopeVariables();
      }
    }
    forall v | v in SymbolsScopeVariables(a)
      ensures v in SymbolsScopeVariables(a + b)
    {
      var i :| 0 <= i < |a| && v in a[i].ScopeVariables();
      assert (a + b)[i] == a[i];
    }
    forall v | v in SymbolsScopeVariables(b)
      ensures v in SymbolsScopeVariables(a + b)
    {
      var i :| 0 <= i < |b| && v in b[i].ScopeVariables();
      assert (a + b)[|a| + i] == b[i];
    }
  }

  // ---------------------------------------------------------------------------------------------
  // Valuations and denotations

  /** An assignment of concrete stacks to variables; a variable it leaves out stands for []. */
  datatype Valuation = Valuation(symbols: imap<Var, SymbolStack>, scopes: imap<Var, ScopeStack>)

  ghost function SymbolValue(val: Valuation, v: Var): SymbolStack {
    if v in val.symbols then val.symbols[v] else []
  }

  ghost function ScopeValue(val: Valuation, v: Var): ScopeStack {
    if v in val.scopes then val.scopes[v] else []
  }

  ghost function EvalScopes(p: PartialScopeStack, val: Valuation): ScopeStack {
    p.scopes + if p.variable.Some? then ScopeValue(val, p.variable.value) else []
  }

  ghost function EvalSymbol(p: PartialScopedSymbol, val: Valuation): ScopedSymbol {
    ScopedSymbol(p.symbol, if p.scopes.Some? then Some(EvalScopes(p.scopes.value, val)) else None)
  }

  ghost function EvalSymbols(symbols: seq<PartialScopedSymbol>, val: Valuation): (r: SymbolStack)
    ensures |r| == |symbols|
  {
    seq(|symbols|, i requires 0 <= i < |symbols| => EvalSymbol(symbols[i], val))
  }

  ghost function EvalStack(p: PartialSymbolStack, val: Valuation): SymbolStack {
    EvalSymbols(p.symbols, val) + if p.variable.Some? then SymbolValue(val, p.variable.value) else []
  }

  lemma EvalSymbolsConcat(a: seq<PartialScopedSymbol>, b: seq<PartialScopedSymbol>, val: Valuation)
    ensures EvalSymbols(a + b, val) == EvalSymbols(a, val) + EvalSymbols(b, val)
  {
  }

  /** Two valuations that agree on a pattern's variables give it the same denotation. */
  lemma EvalScopesAgree(p: PartialScopeStack, a: Valuation, b: Valuation)
    requires forall v :: v in p.ScopeVariables() ==> ScopeValue(a, v) == ScopeValue(b, v)
    ensures EvalScopes(p, a) == EvalScopes(p, b)
  {
  }

  lemma EvalSymbolsAgree(symbols: seq<PartialScopedSymbol>, a: Valuation, b: Valuation)
    requires forall v :: v in SymbolsScopeVariables(symbols) ==> ScopeValue(a, v) == ScopeValue(b, v)
    ensures EvalSymbols(symbols, a) == EvalSymbols(symbols, b)
  {
    forall i | 0 <= i < |symbols|
      ensures EvalSymbol(symbols[i], a) == EvalSymbol(symbols[i], b)
    {
      assert symbols[i].ScopeVariables() <= SymbolsScopeVariables(symbols);
    }
  }

  lemma EvalStackAgree(p: PartialSymbolStack, a: Valuation, b: Valuation)
    requires forall v :: v in p.ScopeVariables() ==> ScopeValue(a, v) == ScopeValue(b, v)
    requires forall v :: v in p.SymbolVariables() ==> SymbolValue(a, v) == SymbolValue(b, v)
    ensures EvalStack(p, a) == EvalStack(p, b)
  {
    EvalSymbolsAgree(p.symbols, a, b);
  }
}
