/**
 Partial paths as the records that path finding updates in place.  Every method leaves the record
 holding what the function of the same purpose in PartialPaths says.
 */
module PartialPathUpdates {
  import opened Wrappers
  import opened Graphs
  import opened Patterns
  import opened Unification
  import opened BindingTables
  import opened PartialPaths
  import opened Cycles = Cyclicity

  class Path {
    var startNode: NodeHandle
    var endNode: NodeHandle
    var symbolPre: PartialSymbolStack
    var scopePre: PartialScopeStack
    var symbolPost: PartialSymbolStack
    var scopePost: PartialScopeStack
    var edges: seq<PartialPathEdge>

    ghost function View(): PartialPath
      reads this
    {
      PartialPath(startNode, endNode, symbolPre, scopePre, symbolPost, scopePost, edges)
    }

    constructor Blank(n: NodeHandle)
      ensures View() == PartialPaths.Blank(n)
    {
      startNode, endNode := n, n;
      symbolPre, symbolPost := SymbolsFromVariable(1), SymbolsFromVariable(1);
      scopePre, scopePost := ScopesFromVariable(1), ScopesFromVariable(1);
      edges := [];
    }

    constructor Clone(other: Path)
      ensures View() == other.View()
    {
      startNode, endNode := other.startNode, other.endNode;
      symbolPre, scopePre := other.symbolPre, other.scopePre;
      symbolPost, scopePost := other.symbolPost, other.scopePost;
      edges := other.edges;
    }

    /** Lifts a node. */
    static method FromNode(g: Graph, n: NodeHandle) returns (path: Path, r: Result<(), PathResolutionError>)
      ensures fresh(path)
      ensures var p := PartialPaths.FromNode(g, n);
              if p.Err? then r == Err(p.error) else r.Ok? && path.View() == p.value
    {
      path := new Path.Blank(n);
      r := path.Enter(g.Kind(n));
      if r.Err? {
        r := Err(Panic);
      }
    }

    method LargestPreVariable() returns (v: nat)
      ensures v == View().LargestScopeVariable()
    {
      var attached := LargestScopeVariable(symbolPre.symbols);
      var tail := scopePre.LargestScopeVariable();
      v := if attached < tail then tail else attached;
    }

    /** Updates the conditions with the effect of a node. */
    method Enter(node: Node) returns (r: Result<(), PathResolutionError>)
      modifies this`symbolPre, this`symbolPost, this`scopePost
      ensures var p := AppendNode(node, old(View()));
              if p.Err? then r == Err(p.error) && symbolPre == old(symbolPre) && scopePost == old(scopePost)
              else r.Ok? && View() == p.value
    {
      match node {
        case DropScopes =>
          scopePost := EMPTY_SCOPES;
        case JumpTo =>
        case PopScopedSymbol(symbol, _) =>
          if symbolPost.symbols != [] {
            var top := symbolPost.symbols[0];
            symbolPost := symbolPost.(symbols := symbolPost.symbols[1..]);
            if top.symbol != symbol {
              return Err(IncorrectPoppedSymbol);
            }
            if top.scopes.None? {
              return Err(MissingAttachedScopeList);
            }
            scopePost := top.scopes.value;
          } else if symbolPost.variable.Some? {
            var largest := LargestPreVariable();
            var v := largest + 1;
            symbolPre := symbolPre.(symbols := symbolPre.symbols +
                                    [PartialScopedSymbol(symbol, Some(ScopesFromVariable(v)))]);
            scopePost := ScopesFromVariable(v);
          } else {
            return Err(SymbolStackUnsatisfied);
          }
        case PopSymbol(symbol, _) =>
          if symbolPost.symbols != [] {
            var top := symbolPost.symbols[0];
            symbolPost := symbolPost.(symbols := symbolPost.symbols[1..]);
            if top.symbol != symbol {
              return Err(IncorrectPoppedSymbol);
            }
            if top.scopes.Some? {
              return Err(UnexpectedAttachedScopeList);
            }
          } else if symbolPost.variable.Some? {
            symbolPre := symbolPre.(symbols := symbolPre.symbols + [PartialScopedSymbol(symbol, None)]);
          } else {
            return Err(SymbolStackUnsatisfied);
          }
        case PushScopedSymbol(symbol, scope, _) =>
          if scope.None? {
            return Err(UnknownAttachedScope);
          }
          var attached := scopePost;
          attached := attached.(scopes := [scope.value] + attached.scopes);
          symbolPost := symbolPost.(symbols := [PartialScopedSymbol(symbol, Some(attached))] + symbolPost.symbols);
        case PushSymbol(symbol, _) =>
          symbolPost := symbolPost.(symbols := [PartialScopedSymbol(symbol, None)] + symbolPost.symbols);
        case Root =>
        case Scope(_) =>
      }
      return Ok(());
    }

    method EnsureNoOverlappingVariables(other: Path)
      modifies this
      ensures View() == old(View()).RenamedApartFrom(old(other.View()))
    {
      var symbolOffset := other.symbolPre.LargestSymbolVariable();
      var scopeOffset := other.LargestPreVariable();
      symbolPre := RenameSymbols(symbolPre, symbolOffset, scopeOffset);
      symbolPost := RenameSymbols(symbolPost, symbolOffset, scopeOffset);
      scopePre := scopePre.WithOffset(scopeOffset);
      scopePost := scopePost.WithOffset(scopeOffset);
    }

    method EliminatePreconditionStackVariables()
      modifies this
      ensures View() == old(View()).WithoutPreconditionVariables()
    {
      var symbolTable := new SymbolTable();
      var scopeTable := new ScopeTable();
      if symbolPre.variable.Some? {
        var added := symbolTable.Add(symbolPre.variable.value, EMPTY_SYMBOLS, scopeTable, 0);
      }
      if scopePre.variable.Some? {
        var added := scopeTable.Add(scopePre.variable.value, EMPTY_SCOPES, 0);
      }
      symbolPre := ApplyToSymbols(symbolPre, symbolTable, scopeTable);
      scopePre := ApplyToScopes(scopePre, scopeTable);
      symbolPost := ApplyToSymbols(symbolPost, symbolTable, scopeTable);
      scopePost := ApplyToScopes(scopePost, scopeTable);
    }

    /** If the jump cannot be followed, the path is left as it was. */
    method ResolveFromPostcondition(g: Graph) returns (r: Result<(), PathResolutionError>)
      modifies this
      ensures var p := PartialPaths.ResolveFromPostcondition(g, old(View()));
              if p.Err? then r == Err(p.error) && View() == old(View()) else r.Ok? && View() == p.value
    {
      if !g.Kind(endNode).JumpTo? {
        return Ok(());
      }
      if scopePost.CanOnlyMatchEmpty() {
        return Err(EmptyScopeStack);
      }
      if scopePost.scopes == [] {
        return Ok(());
      }
      var top := scopePost.scopes[0];
      scopePost := scopePost.(scopes := scopePost.scopes[1..]);
      edges := edges + [PartialPathEdge(endNode, 0)];
      endNode := top;
      return Ok(());
    }

    method ResolveToNode(g: Graph, n: NodeHandle) returns (r: Result<(), PathResolutionError>)
      modifies this
      ensures var p := PartialPaths.ResolveToNode(g, old(View()), n);
              if p.Err? then r == Err(p.error) && View() == old(View()) else r.Ok? && View() == p.value
    {
      if !g.Kind(endNode).JumpTo? {
        return Ok(());
      }
      if scopePost.variable.None? {
        return Err(ScopeStackUnsatisfied);
      }
      var v := scopePost.variable.value;
      var symbolTable := new SymbolTable();
      var scopeTable := new ScopeTable();
      var added := scopeTable.Add(v, PartialScopeStack([n], Some(v)), 0);
      symbolPre := ApplyToSymbols(symbolPre, symbolTable, scopeTable);
      scopePre := ApplyToScopes(scopePre, scopeTable);
      endNode := n;
      return Ok(());
    }

    /** An edge that cannot be entered leaves the end of the path and its preconditions alone. */
    method Append(g: Graph, e: Edge) returns (r: Result<(), PathResolutionError>)
      modifies this
      ensures var p := PartialPaths.Append(g, old(View()), e);
              if p.Err? then r == Err(p.error) else r.Ok? && View() == p.value
      ensures Entered(g, old(View()), e).Err? ==>
                View() == old(View()).(symbolPost := symbolPost)
    {
      if e.source != endNode {
        return Err(IncorrectSourceNode);
      }
      r := Enter(g.Kind(e.sink));
      if r.Err? {
        return;
      }
      endNode := e.sink;
      edges := edges + [PartialPathEdge(e.source, e.precedence)];
      r := ResolveFromPostcondition(g);
    }

    /** The tables that join this path to another one. */
    method ComputeJoin(g: Graph, rhs: Path, depth: nat)
      returns (r: Result<(), PathResolutionError>, symbolTable: SymbolTable, scopeTable: ScopeTable)
      ensures fresh(symbolTable) && fresh(scopeTable)
      ensures var t := PartialPaths.ComputeJoin(g, View(), rhs.View(), depth);
              if t.Err? then r == Err(t.error) else r.Ok? && t.value == Tables(symbolTable.View(), scopeTable.View())
    {
      hide UnifySymbols, UnifyScopes;
      symbolTable := new SymbolTable();
      scopeTable := new ScopeTable();
      if endNode != rhs.startNode {
        return Err(IncorrectSourceNode), symbolTable, scopeTable;
      }
      var post := HalfOpenPost(g.Kind(endNode), symbolPost);
      if post.None? {
        return Err(Panic), symbolTable, scopeTable;
      }
      var pre := HalfOpenPre(g.Kind(rhs.startNode), rhs.symbolPre, rhs.scopePre);
      if pre.None? {
        return Err(Panic), symbolTable, scopeTable;
      }
      var symbols := UnifySymbolStacks(post.value, pre.value.symbols, symbolTable, scopeTable, depth);
      if symbols.Err? {
        return Err(symbols.error), symbolTable, scopeTable;
      }
      var scopes := UnifyScopeStacks(scopePost, pre.value.scopes, scopeTable, depth);
      r := if scopes.Err? then Err(scopes.error) else Ok(());
    }

    method PushEdges(more: seq<PartialPathEdge>)
      modifies this`edges
      ensures edges == old(edges) + more
    {
      var rest := more;
      while rest != []
        invariant |rest| <= |more| && rest == more[|more| - |rest|..]
        invariant edges == old(edges) + more[..|more| - |rest|]
        decreases |rest|
      {
        edges := edges + [rest[0]];
        rest := rest[1..];
      }
    }

    /** Appends another path to this one; if they do not join, this one is left as it was. */
    method Concatenate(g: Graph, rhs: Path, depth: nat) returns (r: Result<(), PathResolutionError>)
      requires rhs != this
      modifies this
      ensures var p := PartialPaths.Concatenate(g, old(View()), rhs.View(), depth);
              if p.Err? then r == Err(p.error) else r.Ok? && View() == p.value
      ensures Joined(g, old(View()), rhs.View(), depth).Err? ==> View() == old(View())
    {
      hide PartialPaths.ComputeJoin, SubstStack, SubstScopes;
      var join, symbolTable, scopeTable := ComputeJoin(g, rhs, depth);
      if join.Err? {
        return Err(join.error);
      }
      symbolPre := ApplyToSymbols(symbolPre, symbolTable, scopeTable);
      symbolPost := ApplyToSymbols(rhs.symbolPost, symbolTable, scopeTable);
      scopePre := ApplyToScopes(scopePre, scopeTable);
      scopePost := ApplyToScopes(rhs.scopePost, scopeTable);
      PushEdges(rhs.edges);
      endNode := rhs.endNode;
      r := ResolveFromPostcondition(g);
    }

    /** Appends a stored path while stitching. */
    method AppendPath(g: Graph, next: Path, depth: nat) returns (r: Result<(), PathResolutionError>)
      requires next != this
      modifies this
      ensures var p := PartialPaths.AppendPath(g, old(View()), next.View(), depth);
              if p.Err? then r == Err(p.error) else r.Ok? && View() == p.value
    {
      hide PartialPaths.Concatenate, PartialPaths.ResolveToNode;
      r := ResolveToNode(g, next.startNode);
      if r.Err? {
        return;
      }
      EnsureNoOverlappingVariables(next);
      r := Concatenate(g, next, depth);
    }

    /** Appends an edge while stitching. */
    method AppendEdge(g: Graph, e: Edge) returns (r: Result<(), PathResolutionError>)
      modifies this
      ensures var p := PartialPaths.AppendEdge(g, old(View()), e);
              if p.Err? then r == Err(p.error) else r.Ok? && View() == p.value
    {
      hide PartialPaths.Append, PartialPaths.ResolveToNode;
      r := ResolveToNode(g, e.source);
      if r.Err? {
        return;
      }
      r := Append(g, e);
    }

    /** Whether the path is a cycle, and of what kind. */
    method IsCyclic(g: Graph, depth: nat) returns (r: Result<Option<Cyclicity>, PathResolutionError>)
      ensures r == Cycles.IsCyclic(g, View(), depth)
    {
      hide PartialPaths.ComputeJoin;
      if startNode != endNode {
        return Ok(None);
      }
      var rhs := new Path.Clone(this);
      rhs.EnsureNoOverlappingVariables(this);
      var join, symbolTable, scopeTable := ComputeJoin(g, rhs, depth);
      if join.Err? {
        return if join.error == Panic || join.error == StackOverflow then Err(join.error) else Ok(None);
      }
      if (symbolPre.variable.Some? && symbolTable.Get(symbolPre.variable.value).Some?) ||
         (scopePre.variable.Some? && scopeTable.Get(scopePre.variable.value).Some?)
      {
        return Ok(Some(StrengthensPrecondition));
      }
      if (rhs.symbolPost.variable.Some? && symbolTable.Get(rhs.symbolPost.variable.value).Some?) ||
         (rhs.scopePost.variable.Some? && scopeTable.Get(rhs.scopePost.variable.value).Some?)
      {
        return Ok(Some(StrengthensPostcondition));
      }
      return Ok(Some(Free));
    }
  }
}
