/**
 The binding tables as the vectors they are, and unification as the loops that run over both stacks
 and fill the tables in place.  Every method does what its counterpart in Unification says.
 */
module BindingTables {
  import opened Wrappers
  import opened Graphs
  import opened Patterns
  import opened Unification

  ghost predicate IsBound<T>(bindings: seq<Option<T>>, v: Var) {
    v <= |bindings| && bindings[v - 1].Some?
  }

  /** Index `v - 1` holds what variable `v` is bound to. */
  class ScopeTable {
    var bindings: seq<Option<PartialScopeStack>>

    ghost function View(): ScopeBindings
      reads this
    {
      map v: Var | 1 <= v <= |bindings| && IsBound(bindings, v) :: bindings[v - 1].value
    }

    constructor ()
      ensures View() == map[]
    {
      bindings := [];
    }

    function Get(v: Var): (r: Option<PartialScopeStack>)
      reads this
      ensures r == if v in View() then Some(View()[v]) else None
    {
      if |bindings| < v then None else bindings[v - 1]
    }

    method Add(v: Var, scopes: PartialScopeStack, depth: nat) returns (r: Result<(), PathResolutionError>)
      modifies this
      ensures |bindings| >= old(|bindings|)
      ensures var after := AddScopes(old(View()), v, scopes, depth);
              if after.Err? then r == Err(after.error) else r.Ok? && View() == after.value
      decreases depth, 0
    {
      if |bindings| < v {
        ghost var before := View();
        bindings := bindings + seq(v - |bindings|, _ => None);
        assert View() == before;
      }
      var unified := scopes;
      if bindings[v - 1].Some? {
        if depth == 0 {
          return Err(StackOverflow);
        }
        var u := UnifyScopeStacks(scopes, bindings[v - 1].value, this, depth - 1);
        if u.Err? {
          return Err(u.error);
        }
        unified := u.value;
      }
      ghost var before := View();
      bindings := bindings[v - 1 := Some(unified)];
      assert View() == before[v := unified];
      return Ok(());
    }
  }

  /** Unifies two scope stacks, recording what variables have to stand for. */
  method UnifyScopeStacks(self: PartialScopeStack, originalRhs: PartialScopeStack, table: ScopeTable, depth: nat)
    returns (r: Result<PartialScopeStack, PathResolutionError>)
    modifies table
    ensures |table.bindings| >= old(|table.bindings|)
    ensures var u := UnifyScopes(self, originalRhs, old(table.View()), depth);
            if u.Err? then r == Err(u.error) else r == Ok(u.value.stack) && table.View() == u.value.scopes
    decreases depth, 1
  {
    var lhs, rhs := self, originalRhs;
    while lhs.scopes != [] && rhs.scopes != []
      invariant lhs.variable == self.variable && rhs.variable == originalRhs.variable
      invariant StripScopes(lhs.scopes, rhs.scopes) == StripScopes(self.scopes, originalRhs.scopes)
      decreases |lhs.scopes|
    {
      var lhsFront, rhsFront := lhs.scopes[0], rhs.scopes[0];
      lhs, rhs := lhs.(scopes := lhs.scopes[1..]), rhs.(scopes := rhs.scopes[1..]);
      if lhsFront != rhsFront {
        return Err(ScopeStackUnsatisfied);
      }
    }
    var added;
    if lhs.scopes == [] && rhs.scopes == [] {
      match lhs.variable {
        case None =>
          match rhs.variable {
            case None =>
              return Ok(self);
            case Some(v) =>
              added := table.Add(v, EMPTY_SCOPES, depth);
              return if added.Err? then Err(added.error) else Ok(originalRhs);
          }
        case Some(v) =>
          match rhs.variable {
            case None => added := table.Add(v, EMPTY_SCOPES, depth);
            case Some(w) => added := table.Add(w, ScopesFromVariable(v), depth);
          }
          return if added.Err? then Err(added.error) else Ok(self);
      }
    }
    if lhs.scopes == [] && lhs.variable.None? {
      return Err(ScopeStackUnsatisfied);
    }
    if rhs.scopes == [] && rhs.variable.None? {
      return Err(ScopeStackUnsatisfied);
    }
    if lhs.variable.Some? && rhs.variable.Some? && lhs.variable.value == rhs.variable.value {
      return Err(ScopeStackUnsatisfied);
    }
    if lhs.scopes != [] {
      added := table.Add(rhs.variable.value, lhs, depth);
      return if added.Err? then Err(added.error) else Ok(self);
    }
    added := table.Add(lhs.variable.value, rhs, depth);
    return if added.Err? then Err(added.error) else Ok(originalRhs);
  }

  /** Unifies two scoped symbols. */
  method UnifyScopedSymbols(lhs: PartialScopedSymbol, rhs: PartialScopedSymbol, table: ScopeTable, depth: nat)
    returns (r: Result<PartialScopedSymbol, PathResolutionError>)
    modifies table
    ensures var u := UnifySymbol(lhs, rhs, old(table.View()), depth);
            if u.Err? then r == Err(u.error) else r == Ok(u.value.symbol) && table.View() == u.value.scopes
  {
    if lhs.symbol != rhs.symbol {
      return Err(SymbolStackUnsatisfied);
    }
    if lhs.scopes.None? && rhs.scopes.None? {
      return Ok(lhs);
    }
    if lhs.scopes.None? || rhs.scopes.None? {
      return Err(SymbolStackUnsatisfied);
    }
    var u := UnifyScopeStacks(lhs.scopes.value, rhs.scopes.value, table, depth);
    return if u.Err? then Err(u.error) else Ok(lhs.(scopes := Some(u.value)));
  }

  class SymbolTable {
    var bindings: seq<Option<PartialSymbolStack>>

    ghost function View(): SymbolBindings
      reads this
    {
      map v: Var | 1 <= v <= |bindings| && IsBound(bindings, v) :: bindings[v - 1].value
    }

    constructor ()
      ensures View() == map[]
    {
      bindings := [];
    }

    function Get(v: Var): (r: Option<PartialSymbolStack>)
      reads this
      ensures r == if v in View() then Some(View()[v]) else None
    {
      if |bindings| < v then None else bindings[v - 1]
    }

    method Add(v: Var, symbols: PartialSymbolStack, scopeTable: ScopeTable, depth: nat)
      returns (r: Result<(), PathResolutionError>)
      modifies this, scopeTable
      ensures |bindings| >= old(|bindings|)
      ensures var after := AddSymbols(old(View()), v, symbols, old(scopeTable.View()), depth);
              if after.Err? then r == Err(after.error)
              else r.Ok? && View() == after.value.symbols && scopeTable.View() == after.value.scopes
      decreases depth, 0
    {
      if |bindings| < v {
        ghost var before := View();
        bindings := bindings + seq(v - |bindings|, _ => None);
        assert View() == before;
      }
      var unified := symbols;
      if bindings[v - 1].Some? {
        if depth == 0 {
          return Err(StackOverflow);
        }
        var u := UnifySymbolStacks(symbols, bindings[v - 1].value, this, scopeTable, depth - 1);
        if u.Err? {
          return Err(u.error);
        }
        unified := u.value;
      }
      ghost var before := View();
      bindings := bindings[v - 1 := Some(unified)];
      assert View() == before[v := unified];
      return Ok(());
    }
  }

  /** Puts symbols in front of a stack, the last one first. */
  method PrependAll(stack: PartialSymbolStack, head: seq<PartialScopedSymbol>) returns (r: PartialSymbolStack)
    ensures r == Prepend(head, stack)
  {
    r := stack;
    var left := head;
    while left != []
      invariant left <= head && r == Prepend(head[|left|..], stack)
      decreases |left|
    {
      r := r.(symbols := [left[|left| - 1]] + r.symbols);
      left := left[..|left| - 1];
    }
  }

  /** Unifies the symbols that both stacks start with, one by one; `symbols` are their unifications. */
  method UnifyFronts(self: PartialSymbolStack, other: PartialSymbolStack, scopeTable: ScopeTable, depth: nat,
                     ghost sb: SymbolBindings)
    returns (r: Result<seq<PartialScopedSymbol>, PathResolutionError>, lhs: PartialSymbolStack, rhs: PartialSymbolStack)
    modifies scopeTable
    ensures r.Ok? ==> lhs.symbols == [] || rhs.symbols == []
    ensures r.Ok? ==> lhs.variable == self.variable && rhs.variable == other.variable
    ensures var u := UnifySymbols(self, other, [], sb, old(scopeTable.View()), depth);
            if r.Err? then u == Err(r.error)
            else u == UnifySymbols(lhs, rhs, r.value, sb, scopeTable.View(), depth)
  {
    lhs, rhs := self, other;
    var head: seq<PartialScopedSymbol> := [];
    while lhs.symbols != [] && rhs.symbols != []
      invariant lhs.variable == self.variable && rhs.variable == other.variable
      invariant UnifySymbols(self, other, [], sb, old(scopeTable.View()), depth) ==
                UnifySymbols(lhs, rhs, head, sb, scopeTable.View(), depth)
      decreases |lhs.symbols|
    {
      var lhsFront, rhsFront := lhs.symbols[0], rhs.symbols[0];
      var u := UnifyScopedSymbols(lhsFront, rhsFront, scopeTable, depth);
      if u.Err? {
        return Err(u.error), lhs, rhs;
      }
      lhs, rhs := lhs.(symbols := lhs.symbols[1..]), rhs.(symbols := rhs.symbols[1..]);
      head := head + [u.value];
    }
    return Ok(head), lhs, rhs;
  }

  /** Unifies two symbol stacks, recording what variables have to stand for. */
  method UnifySymbolStacks(self: PartialSymbolStack, other: PartialSymbolStack, table: SymbolTable,
                           scopeTable: ScopeTable, depth: nat)
    returns (r: Result<PartialSymbolStack, PathResolutionError>)
    modifies table, scopeTable
    ensures |table.bindings| >= old(|table.bindings|)
    ensures var u := UnifySymbols(self, other, [], old(table.View()), old(scopeTable.View()), depth);
            if u.Err? then r == Err(u.error)
            else r == Ok(u.value.stack) && table.View() == u.value.symbols && scopeTable.View() == u.value.scopes
    decreases depth, 1
  {
    hide UnifySymbol, UnifyScopes;
    var fronts, lhs, rhs := UnifyFronts(self, other, scopeTable, depth, table.View());
    if fronts.Err? {
      return Err(fronts.error);
    }
    var head := fronts.value;
    var added, stack;
    if lhs.symbols == [] && rhs.symbols == [] {
      match lhs.variable {
        case None =>
          match rhs.variable {
            case None =>
              stack := PrependAll(lhs, head);
              return Ok(stack);
            case Some(v) =>
              added := table.Add(v, EMPTY_SYMBOLS, scopeTable, depth);
              if added.Err? {
                return Err(added.error);
              }
              stack := PrependAll(rhs, head);
              return Ok(stack);
          }
        case Some(v) =>
          match rhs.variable {
            case None => added := table.Add(v, EMPTY_SYMBOLS, scopeTable, depth);
            case Some(w) => added := table.Add(w, SymbolsFromVariable(v), scopeTable, depth);
          }
          if added.Err? {
            return Err(added.error);
          }
          stack := PrependAll(lhs, head);
          return Ok(stack);
      }
    }
    if lhs.symbols == [] && lhs.variable.None? {
      return Err(SymbolStackUnsatisfied);
    }
    if rhs.symbols == [] && rhs.variable.None? {
      return Err(SymbolStackUnsatisfied);
    }
    if lhs.variable.Some? && rhs.variable.Some? && lhs.variable.value == rhs.variable.value {
      return Err(ScopeStackUnsatisfied);
    }
    if lhs.symbols != [] {
      added := table.Add(rhs.variable.value, lhs, scopeTable, depth);
      if added.Err? {
        return Err(added.error);
      }
      stack := PrependAll(lhs, head);
      return Ok(stack);
    }
    added := table.Add(lhs.variable.value, rhs, scopeTable, depth);
    if added.Err? {
      return Err(added.error);
    }
    stack := PrependAll(rhs, head);
    return Ok(stack);
  }

  // ---------------------------------------------------------------------------------------------
  // Substitution and renaming

  method ApplyToScopes(self: PartialScopeStack, table: ScopeTable) returns (result: PartialScopeStack)
    ensures result == SubstScopes(self, table.View())
  {
    result := EMPTY_SCOPES;
    if self.variable.Some? {
      var bound := table.Get(self.variable.value);
      result := if bound.Some? then bound.value else ScopesFromVariable(self.variable.value);
    }
    ghost var bound := result;
    var scopes := self.scopes;
    while scopes != []
      invariant scopes <= self.scopes
      invariant result == bound.(scopes := self.scopes[|scopes|..] + bound.scopes)
      decreases |scopes|
    {
      result := result.(scopes := [scopes[|scopes| - 1]] + result.scopes);
      scopes := scopes[..|scopes| - 1];
    }
  }

  method ApplyToSymbols(self: PartialSymbolStack, table: SymbolTable, scopeTable: ScopeTable)
    returns (result: PartialSymbolStack)
    ensures result == SubstStack(self, table.View(), scopeTable.View())
  {
    result := EMPTY_SYMBOLS;
    if self.variable.Some? {
      var bound := table.Get(self.variable.value);
      result := if bound.Some? then bound.value else SymbolsFromVariable(self.variable.value);
    }
    ghost var bound := result;
    ghost var cb := scopeTable.View();
    var symbols := self.symbols;
    while symbols != []
      invariant symbols <= self.symbols
      invariant result == bound.(symbols := SubstSymbols(self.symbols, cb)[|symbols|..] + bound.symbols)
      decreases |symbols|
    {
      var symbol := symbols[|symbols| - 1];
      symbols := symbols[..|symbols| - 1];
      if symbol.scopes.Some? {
        var scopes := ApplyToScopes(symbol.scopes.value, scopeTable);
        symbol := symbol.(scopes := Some(scopes));
      }
      result := result.(symbols := [symbol] + result.symbols);
    }
  }

  method RenameSymbols(self: PartialSymbolStack, symbolOffset: nat, scopeOffset: nat)
    returns (result: PartialSymbolStack)
    ensures result == self.WithOffset(symbolOffset, scopeOffset)
  {
    result := if self.variable.Some? then SymbolsFromVariable(self.variable.value + symbolOffset) else EMPTY_SYMBOLS;
    var rest := self.symbols;
    while rest != []
      invariant |rest| <= |self.symbols| && rest == self.symbols[|self.symbols| - |rest|..]
      invariant result.symbols == SymbolsWithOffset(self.symbols[..|self.symbols| - |rest|], scopeOffset)
      invariant result.variable == self.WithOffset(symbolOffset, scopeOffset).variable
      decreases |rest|
    {
      result := result.(symbols := result.symbols + [rest[0].WithOffset(scopeOffset)]);
      rest := rest[1..];
    }
    assert self.symbols[..|self.symbols|] == self.symbols;
  }

  method LargestScopeVariable(symbols: seq<PartialScopedSymbol>) returns (r: nat)
    ensures r == LargestAttached(symbols)
  {
    r := 0;
    for i := 0 to |symbols|
      invariant r == LargestAttached(symbols[..i])
    {
      assert symbols[..i + 1][..i] == symbols[..i];
      if symbols[i].scopes.Some? && symbols[i].scopes.value.variable.Some? &&
        symbols[i].scopes.value.variable.value > r {
        r := symbols[i].scopes.value.variable.value;
      }
    }
    assert symbols[..|symbols|] == symbols;
  }
}
