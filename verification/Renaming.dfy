/** Renaming the variables of a partial path changes neither what it denotes nor its shape. */
module Renaming {
  import opened Wrappers
  import opened Graphs
  import opened Patterns
  import opened Unification
  import opened CanonicalUnification
  import opened PartialPaths
  import opened Exactness

  ghost predicate Exceeds(v: Var, offset: nat) {
    v > offset
  }

  /** What the variables of the original path stand for when the renamed ones have these values. */
  ghost function Unshift(val: Valuation, symbolOffset: nat, scopeOffset: nat): Valuation {
    Valuation(
      imap v: Var | Exceeds(v, 0) :: SymbolValue(val, v + symbolOffset),
      imap v: Var | Exceeds(v, 0) :: ScopeValue(val, v + scopeOffset))
  }

  ghost function Shift(val: Valuation, symbolOffset: nat, scopeOffset: nat): Valuation {
    Valuation(
      imap v: Var | Exceeds(v, symbolOffset) :: SymbolValue(val, v - symbolOffset),
      imap v: Var | Exceeds(v, scopeOffset) :: ScopeValue(val, v - scopeOffset))
  }

  lemma EvalScopesOffset(p: PartialScopeStack, val: Valuation, so: nat, co: nat)
    ensures EvalScopes(p.WithOffset(co), val) == EvalScopes(p, Unshift(val, so, co))
  {
  }

  lemma EvalStackOffset(p: PartialSymbolStack, val: Valuation, so: nat, co: nat)
    ensures EvalStack(p.WithOffset(so, co), val) == EvalStack(p, Unshift(val, so, co))
  {
    var symbols := SymbolsWithOffset(p.symbols, co);
    forall i | 0 <= i < |p.symbols|
      ensures EvalSymbol(symbols[i], val) == EvalSymbol(p.symbols[i], Unshift(val, so, co))
    {
      if p.symbols[i].scopes.Some? {
        EvalScopesOffset(p.symbols[i].scopes.value, val, so, co);
      }
    }
    assert EvalSymbols(symbols, val) == EvalSymbols(p.symbols, Unshift(val, so, co));
  }

  lemma EvalPathOffset(p: PartialPath, val: Valuation, so: nat, co: nat)
    ensures Before(p.WithOffset(so, co), val) == Before(p, Unshift(val, so, co))
    ensures After(p.WithOffset(so, co), val) == After(p, Unshift(val, so, co))
  {
    EvalStackOffset(p.symbolPre, val, so, co);
    EvalStackOffset(p.symbolPost, val, so, co);
    EvalScopesOffset(p.scopePre, val, so, co);
    EvalScopesOffset(p.scopePost, val, so, co);
  }

  lemma UnshiftValue(val: Valuation, so: nat, co: nat, v: Var)
    ensures SymbolValue(Unshift(val, so, co), v) == SymbolValue(val, v + so)
    ensures ScopeValue(Unshift(val, so, co), v) == ScopeValue(val, v + co)
  {
    hide SymbolValue, ScopeValue;
    var unshifted := Unshift(val, so, co);
    assert Exceeds(v, 0);
    assert v in unshifted.symbols && v in unshifted.scopes;
    UnfoldValue(unshifted, v);
  }

  lemma UnfoldValue(val: Valuation, v: Var)
    requires v in val.symbols && v in val.scopes
    ensures SymbolValue(val, v) == val.symbols[v] && ScopeValue(val, v) == val.scopes[v]
  {
  }

  lemma ShiftValue(val: Valuation, so: nat, co: nat, v: Var)
    ensures SymbolValue(Shift(val, so, co), v + so) == SymbolValue(val, v)
    ensures ScopeValue(Shift(val, so, co), v + co) == ScopeValue(val, v)
  {
    assert Exceeds(v + so, so) && Exceeds(v + co, co);
  }

  lemma UnshiftShiftValue(val: Valuation, so: nat, co: nat, v: Var)
    ensures SymbolValue(Unshift(Shift(val, so, co), so, co), v) == SymbolValue(val, v)
    ensures ScopeValue(Unshift(Shift(val, so, co), so, co), v) == ScopeValue(val, v)
  {
    hide *;
    UnshiftValue(Shift(val, so, co), so, co, v);
    ShiftValue(val, so, co, v);
  }

  lemma UnshiftShift(p: PartialPath, val: Valuation, so: nat, co: nat)
    ensures Before(p, Unshift(Shift(val, so, co), so, co)) == Before(p, val)
    ensures After(p, Unshift(Shift(val, so, co), so, co)) == After(p, val)
  {
    hide EvalStack, EvalScopes, Unshift, Shift;
    var same := Unshift(Shift(val, so, co), so, co);
    forall v: Var {
      UnshiftShiftValue(val, so, co, v);
    }
    EvalStackAgree(p.symbolPre, val, same);
    EvalStackAgree(p.symbolPost, val, same);
    EvalScopesAgree(p.scopePre, val, same);
    EvalScopesAgree(p.scopePost, val, same);
  }

  /** Renaming preserves the relation a path denotes. */
  lemma OffsetRelates(p: PartialPath, so: nat, co: nat, s: Stacks, t: Stacks)
    ensures Relates(p.WithOffset(so, co), s, t) <==> Relates(p, s, t)
  {
    var q := p.WithOffset(so, co);
    if Relates(q, s, t) {
      var val :| Before(q, val) == s && After(q, val) == t;
      EvalPathOffset(p, val, so, co);
    }
    if Relates(p, s, t) {
      var val :| Before(p, val) == s && After(p, val) == t;
      EvalPathOffset(p, Shift(val, so, co), so, co);
      UnshiftShift(p, val, so, co);
      assert Before(q, Shift(val, so, co)) == s;
    }
  }

  /** Hence a renamed summary still summarises the walk. */
  lemma OffsetSummary(g: Graph, p: PartialPath, w: Walk, so: nat, co: nat, o: Origin)
    requires Summary(g, p, w, o)
    ensures Summary(g, p.WithOffset(so, co), w, o)
  {
    var q := p.WithOffset(so, co);
    forall val
      ensures o.Admits(Before(q, val)) && Run(g, w, Before(q, val)) == Some(After(q, val))
    {
      EvalPathOffset(p, val, so, co);
    }
    forall s | o.Admits(s) && Run(g, w, s).Some?
      ensures exists val :: Before(q, val) == s
    {
      var val :| Before(p, val) == s;
      EvalPathOffset(p, Shift(val, so, co), so, co);
      UnshiftShift(p, val, so, co);
    }
    forall i | 0 <= i < |q.symbolPost.symbols| && q.symbolPost.symbols[i].scopes.Some?
      ensures ScopeNodes(g, q.symbolPost.symbols[i].scopes.value.scopes)
    {
      assert q.symbolPost.symbols[i] == p.symbolPost.symbols[i].WithOffset(co);
    }
  }

  lemma OffsetVariables(p: PartialSymbolStack, so: nat, co: nat, v: Var)
    requires v in p.WithOffset(so, co).ScopeVariables()
    ensures v > co && v - co in p.ScopeVariables()
  {
    var symbols := p.WithOffset(so, co).symbols;
    var i :| 0 <= i < |symbols| && v in symbols[i].ScopeVariables();
    assert symbols[i] == p.symbols[i].WithOffset(co);
    assert v - co in p.symbols[i].ScopeVariables();
  }

  lemma OffsetCanonical(p: PartialPath, so: nat, co: nat)
    requires Canonical(p)
    ensures Canonical(p.WithOffset(so, co))
  {
    var q := p.WithOffset(so, co);
    forall i | 0 <= i < |p.symbolPre.symbols|
      ensures q.symbolPre.symbols[i] == p.symbolPre.symbols[i].WithOffset(co)
    {
    }
    forall i, j | 0 <= i < j < |q.symbolPre.symbols| && q.symbolPre.symbols[i].scopes.Some? &&
                  q.symbolPre.symbols[j].scopes.Some?
      ensures q.symbolPre.symbols[i].scopes != q.symbolPre.symbols[j].scopes
    {
      assert p.symbolPre.symbols[i].scopes != p.symbolPre.symbols[j].scopes;
    }
    if q.scopePre.variable.value in q.symbolPre.ScopeVariables() {
      OffsetVariables(p.symbolPre, so, co, q.scopePre.variable.value);
    }
  }

  /** No variable occurs in both preconditions. */
  ghost predicate VariablesApart(a: PartialPath, b: PartialPath) {
    a.symbolPre.SymbolVariables() !! b.symbolPre.SymbolVariables() && ScopesOfPre(a) !! ScopesOfPre(b)
  }

  /** `ensure_no_overlapping_variables` does what its name says. */
  lemma RenamedIsApart(p: PartialPath, other: PartialPath)
    ensures VariablesApart(p.RenamedApartFrom(other), other)
  {
    var co := other.LargestScopeVariable();
    var so := other.symbolPre.LargestSymbolVariable();
    forall v | v in ScopesOfPre(p.RenamedApartFrom(other))
      ensures v > co
    {
      if v in p.symbolPre.WithOffset(so, co).ScopeVariables() {
        OffsetVariables(p.symbolPre, so, co, v);
      }
    }
    assert forall v :: v in ScopesOfPre(other) ==> v <= co;
  }
}
