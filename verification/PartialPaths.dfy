/**
 Partial paths as values, and the operations on them as functions: lifting a node, appending an
 edge, resolving jumps, renaming variables, and concatenation.
 */
module PartialPaths {
  import opened Wrappers
  import opened Graphs
  import opened Patterns
  import opened Unification

  datatype Edge = Edge(source: NodeHandle, sink: NodeHandle, precedence: int)

  datatype PartialPathEdge = PartialPathEdge(source: NodeHandle, precedence: int)

  datatype PartialPath = PartialPath(
    startNode: NodeHandle,
    endNode: NodeHandle,
    symbolPre: PartialSymbolStack,
    scopePre: PartialScopeStack,
    symbolPost: PartialSymbolStack,
    scopePost: PartialScopeStack,
    edges: seq<PartialPathEdge>)
  {
    function LargestScopeVariable(): nat {
      var attached := LargestAttached(symbolPre.symbols);
      if attached < scopePre.LargestScopeVariable() then scopePre.LargestScopeVariable() else attached
    }

    function WithOffset(symbolOffset: nat, scopeOffset: nat): PartialPath {
      this.(symbolPre := symbolPre.WithOffset(symbolOffset, scopeOffset),
            symbolPost := symbolPost.WithOffset(symbolOffset, scopeOffset),
            scopePre := scopePre.WithOffset(scopeOffset),
            scopePost := scopePost.WithOffset(scopeOffset))
    }

    /** Renames the variables so that none of them occurs in the precondition of `other`. */
    function RenamedApartFrom(other: PartialPath): PartialPath {
      WithOffset(other.symbolPre.LargestSymbolVariable(), other.LargestScopeVariable())
    }

    function Substituted(t: Tables): PartialPath {
      this.(symbolPre := SubstStack(symbolPre, t.symbols, t.scopes),
            symbolPost := SubstStack(symbolPost, t.symbols, t.scopes),
            scopePre := SubstScopes(scopePre, t.scopes),
            scopePost := SubstScopes(scopePost, t.scopes))
    }

    /** Replaces the variables that end the preconditions with empty stacks. */
    function WithoutPreconditionVariables(): PartialPath {
      Substituted(Tables(
                    if symbolPre.variable.Some? then map[symbolPre.variable.value := EMPTY_SYMBOLS] else map[],
                    if scopePre.variable.Some? then map[scopePre.variable.value := EMPTY_SCOPES] else map[]))
    }

    function HasPreconditionVariables(): bool {
      symbolPre.variable.Some? || scopePre.variable.Some?
    }
  }

  /** The effect of a node on the pre- and postconditions of a path that reaches it. */
  function AppendNode(node: Node, p: PartialPath): Result<PartialPath, PathResolutionError> {
    match node
    case DropScopes => Ok(p.(scopePost := EMPTY_SCOPES))
    case JumpTo => Ok(p)
    case PopScopedSymbol(symbol, _) =>
      if p.symbolPost.symbols != [] then
        var top := p.symbolPost.symbols[0];
        if top.symbol != symbol then Err(IncorrectPoppedSymbol)
        else if top.scopes.None? then Err(MissingAttachedScopeList)
        else Ok(p.(symbolPost := p.symbolPost.(symbols := p.symbolPost.symbols[1..]), scopePost := top.scopes.value))
      else if p.symbolPost.variable.Some? then
        var variable := ScopesFromVariable(p.LargestScopeVariable() + 1);
        Ok(p.(symbolPre := Pushed(p.symbolPre, PartialScopedSymbol(symbol, Some(variable))), scopePost := variable))
      else Err(SymbolStackUnsatisfied)
    case PopSymbol(symbol, _) =>
      if p.symbolPost.symbols != [] then
        var top := p.symbolPost.symbols[0];
        if top.symbol != symbol then Err(IncorrectPoppedSymbol)
        else if top.scopes.Some? then Err(UnexpectedAttachedScopeList)
        else Ok(p.(symbolPost := p.symbolPost.(symbols := p.symbolPost.symbols[1..])))
      else if p.symbolPost.variable.Some? then
        Ok(p.(symbolPre := Pushed(p.symbolPre, PartialScopedSymbol(symbol, None))))
      else Err(SymbolStackUnsatisfied)
    case PushScopedSymbol(symbol, scope, _) =>
      if scope.None? then Err(UnknownAttachedScope)
      else
        var attached := p.scopePost.(scopes := [scope.value] + p.scopePost.scopes);
        Ok(p.(symbolPost := Prepend([PartialScopedSymbol(symbol, Some(attached))], p.symbolPost)))
    case PushSymbol(symbol, _) =>
      Ok(p.(symbolPost := Prepend([PartialScopedSymbol(symbol, None)], p.symbolPost)))
    case Root => Ok(p)
    case Scope(_) => Ok(p)
  }

  function Pushed(s: PartialSymbolStack, symbol: PartialScopedSymbol): PartialSymbolStack {
    s.(symbols := s.symbols + [symbol])
  }

  /** The path of no edges at all, before the effect of its only node. */
  function Blank(n: NodeHandle): PartialPath {
    PartialPath(n, n, SymbolsFromVariable(1), ScopesFromVariable(1), SymbolsFromVariable(1), ScopesFromVariable(1), [])
  }

  function FromNode(g: Graph, n: NodeHandle): Result<PartialPath, PathResolutionError> {
    match AppendNode(g.Kind(n), Blank(n))
    case Err(_) => Err(Panic)
    case Ok(p) => Ok(p)
  }

  /** Follows the top of the scope stack if the path ends in a jump and knows that top. */
  function ResolveFromPostcondition(g: Graph, p: PartialPath): Result<PartialPath, PathResolutionError> {
    if !g.Kind(p.endNode).JumpTo? then Ok(p)
    else if p.scopePost.CanOnlyMatchEmpty() then Err(EmptyScopeStack)
    else if p.scopePost.scopes == [] then Ok(p)
    else Ok(p.(endNode := p.scopePost.scopes[0],
               scopePost := p.scopePost.(scopes := p.scopePost.scopes[1..]),
               edges := p.edges + [PartialPathEdge(p.endNode, 0)]))
  }

  function ResolveToNode(g: Graph, p: PartialPath, n: NodeHandle): Result<PartialPath, PathResolutionError> {
    if !g.Kind(p.endNode).JumpTo? then Ok(p)
    else if p.scopePost.variable.None? then Err(ScopeStackUnsatisfied)
    else
      var v := p.scopePost.variable.value;
      var cb: ScopeBindings := map[v := PartialScopeStack([n], Some(v))];
      Ok(p.(symbolPre := SubstStack(p.symbolPre, map[], cb), scopePre := SubstScopes(p.scopePre, cb), endNode := n))
  }

  /** Entering the sink of an edge, before any jump is resolved. */
  function Entered(g: Graph, p: PartialPath, e: Edge): Result<PartialPath, PathResolutionError> {
    if e.source != p.endNode then Err(IncorrectSourceNode)
    else
      match AppendNode(g.Kind(e.sink), p)
      case Err(error) => Err(error)
      case Ok(q) => Ok(q.(endNode := e.sink, edges := p.edges + [PartialPathEdge(e.source, e.precedence)]))
  }

  function Append(g: Graph, p: PartialPath, e: Edge): Result<PartialPath, PathResolutionError> {
    match Entered(g, p, e)
    case Err(error) => Err(error)
    case Ok(q) => ResolveFromPostcondition(g, q)
  }

  /** Takes the effect of an end node off a postcondition, if that node pushes. */
  function HalfOpenPost(node: Node, symbols: PartialSymbolStack): Option<PartialSymbolStack> {
    if !node.PushScopedSymbol? && !node.PushSymbol? then Some(symbols)
    else if symbols.symbols == [] || symbols.symbols[0].symbol != node.symbol then None
    else Some(Drop(symbols, 1))
  }

  datatype PreStacks = PreStacks(symbols: PartialSymbolStack, scopes: PartialScopeStack)

  /** Takes the effect of a start node off a precondition, if that node pops. */
  function HalfOpenPre(node: Node, symbols: PartialSymbolStack, scopes: PartialScopeStack): Option<PreStacks> {
    if !node.PopScopedSymbol? && !node.PopSymbol? then Some(PreStacks(symbols, scopes))
    else if symbols.symbols == [] || symbols.symbols[0].symbol != node.symbol then None
    else if node.PopSymbol? then Some(PreStacks(Drop(symbols, 1), scopes))
    else if symbols.symbols[0].scopes.None? then None
    else Some(PreStacks(Drop(symbols, 1), symbols.symbols[0].scopes.value))
  }

  function ComputeJoin(g: Graph, lhs: PartialPath, rhs: PartialPath, depth: nat): Result<Tables, PathResolutionError> {
    if lhs.endNode != rhs.startNode then Err(IncorrectSourceNode)
    else
      var post := HalfOpenPost(g.Kind(lhs.endNode), lhs.symbolPost);
      var pre := HalfOpenPre(g.Kind(rhs.startNode), rhs.symbolPre, rhs.scopePre);
      if post.None? || pre.None? then Err(Panic)
      else UnifyStacks(post.value, lhs.scopePost, pre.value.symbols, pre.value.scopes, depth)
  }

  /** Both paths joined, before any jump is resolved. */
  function Joined(g: Graph, lhs: PartialPath, rhs: PartialPath, depth: nat): Result<PartialPath, PathResolutionError> {
    match ComputeJoin(g, lhs, rhs, depth)
    case Err(e) => Err(e)
    case Ok(t) =>
      Ok(PartialPath(lhs.startNode, rhs.endNode,
                     SubstStack(lhs.symbolPre, t.symbols, t.scopes), SubstScopes(lhs.scopePre, t.scopes),
                     SubstStack(rhs.symbolPost, t.symbols, t.scopes), SubstScopes(rhs.scopePost, t.scopes),
                     lhs.edges + rhs.edges))
  }

  function Concatenate(g: Graph, lhs: PartialPath, rhs: PartialPath, depth: nat)
    : Result<PartialPath, PathResolutionError>
  {
    match Joined(g, lhs, rhs, depth)
    case Err(e) => Err(e)
    case Ok(p) => ResolveFromPostcondition(g, p)
  }

  /** Appending one path to another during stitching: resolve a jump, rename apart, concatenate. */
  function AppendPath(g: Graph, path: PartialPath, next: PartialPath, depth: nat)
    : Result<PartialPath, PathResolutionError>
  {
    match ResolveToNode(g, path, next.startNode)
    case Err(e) => Err(e)
    case Ok(resolved) => Concatenate(g, resolved.RenamedApartFrom(next), next, depth)
  }

  /** Appending an edge during stitching. */
  function AppendEdge(g: Graph, path: PartialPath, e: Edge): Result<PartialPath, PathResolutionError> {
    match ResolveToNode(g, path, e.source)
    case Err(error) => Err(error)
    case Ok(resolved) => Append(g, resolved, e)
  }
}
