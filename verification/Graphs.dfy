/**
 The node kinds of a stack graph, and what walking over a node does to a concrete symbol stack
 and scope stack.  `Run` is the reference semantics against which partial paths are judged.
 */
module Graphs {
  import opened Wrappers

  type Symbol = nat
  type NodeHandle = nat

  /** `scope` of a push scoped symbol node is the outcome of looking its node ID up in the graph. */
  datatype Node =
    | DropScopes
    | JumpTo
    | PopScopedSymbol(symbol: Symbol, isDefinition: bool)
    | PopSymbol(symbol: Symbol, isDefinition: bool)
    | PushScopedSymbol(symbol: Symbol, scope: Option<NodeHandle>, isReference: bool)
    | PushSymbol(symbol: Symbol, isReference: bool)
    | Root
    | Scope(isExported: bool)
  {
    predicate IsDefinition() {
      (PopScopedSymbol? || PopSymbol?) && isDefinition
    }

    predicate IsReference() {
      (PushScopedSymbol? || PushSymbol?) && isReference
    }

    predicate IsExportedScope() {
      Scope? && isExported
    }

    predicate IsEndpoint() {
      IsDefinition() || IsExportedScope() || IsReference() || Root?
    }
  }

  /** Node IDs are unique in a stack graph, so a node's handle also serves as its ID. */
  datatype Graph = Graph(nodes: seq<Node>) {
    /** Handles come from the graph's own arena; what an invalid one denotes is immaterial. */
    function Kind(n: NodeHandle): Node {
      if n < |nodes| then nodes[n] else Scope(false)
    }

    /** Scopes attached by push scoped symbol nodes exist and are exported scope nodes. */
    ghost predicate AttachedScopesExist() {
      forall n: NodeHandle :: Kind(n).PushScopedSymbol? ==>
        Kind(n).scope.Some? && Kind(Kind(n).scope.value).IsExportedScope()
    }
  }

  type ScopeStack = seq<NodeHandle>

  /** A symbol without attached scopes differs from one with an empty list of attached scopes. */
  datatype ScopedSymbol = ScopedSymbol(symbol: Symbol, scopes: Option<ScopeStack>)

  type SymbolStack = seq<ScopedSymbol>

  datatype Stacks = Stacks(symbols: SymbolStack, scopes: ScopeStack)

  /** The effect of entering a node over an edge; None when the node cannot be entered. */
  function Step(node: Node, s: Stacks): Option<Stacks> {
    match node
    case DropScopes => Some(Stacks(s.symbols, []))
    case PopScopedSymbol(symbol, _) =>
      if s.symbols != [] && s.symbols[0].symbol == symbol && s.symbols[0].scopes.Some?
      then Some(Stacks(s.symbols[1..], s.symbols[0].scopes.value))
      else None
    case PopSymbol(symbol, _) =>
      if s.symbols != [] && s.symbols[0] == ScopedSymbol(symbol, None)
      then Some(Stacks(s.symbols[1..], s.scopes))
      else None
    case PushScopedSymbol(symbol, scope, _) =>
      if scope.Some?
      then Some(Stacks([ScopedSymbol(symbol, Some([scope.value] + s.scopes))] + s.symbols, s.scopes))
      else None
    case PushSymbol(symbol, _) => Some(Stacks([ScopedSymbol(symbol, None)] + s.symbols, s.scopes))
    case JumpTo => Some(s)
    case Root => Some(s)
    case Scope(_) => Some(s)
  }

  /** Moving on to `sink`: a jump takes the scope on top of the scope stack, an edge enters the sink. */
  function Move(g: Graph, source: NodeHandle, sink: NodeHandle, s: Stacks): Option<Stacks> {
    if g.Kind(source).JumpTo? then
      if s.scopes != [] && s.scopes[0] == sink && g.Kind(sink).IsExportedScope()
      then Some(Stacks(s.symbols, s.scopes[1..]))
      else None
    else
      Step(g.Kind(sink), s)
  }

  type Walk = w: seq<NodeHandle> | |w| > 0 witness [0]

  function Last(w: Walk): NodeHandle {
    w[|w| - 1]
  }

  /** The stacks after the moves of a walk, when its first node has already been entered. */
  function Moves(g: Graph, w: Walk, s: Stacks): Option<Stacks>
    decreases |w|
  {
    if |w| == 1 then Some(s)
    else
      match Moves(g, w[..|w| - 1], s)
      case None => None
      case Some(t) => Move(g, w[|w| - 2], Last(w), t)
  }

  /** The stacks after a whole walk, its first node included; None when the walk gets stuck. */
  function Run(g: Graph, w: Walk, s: Stacks): Option<Stacks> {
    match Step(g.Kind(w[0]), s)
    case None => None
    case Some(t) => Moves(g, w, t)
  }

  /** Where walks may start: with any stacks at all, or with both stacks empty. */
  datatype Origin = Anywhere | Nowhere {
    predicate Admits(s: Stacks) {
      this == Anywhere || s == Stacks([], [])
    }
  }

  /** Some admitted stacks can complete the walk. */
  ghost predicate Feasible(g: Graph, w: Walk, o: Origin) {
    exists s :: o.Admits(s) && Run(g, w, s).Some?
  }

  /** Two walks that meet in a node, the node counted once. */
  function Splice(w: Walk, u: Walk): (r: Walk)
    requires Last(w) == u[0]
    ensures r[0] == w[0] && Last(r) == Last(u)
  {
    w + u[1..]
  }

  lemma {:induction false} MovesSplice(g: Graph, w: Walk, u: Walk, s: Stacks)
    requires Last(w) == u[0]
    ensures Moves(g, Splice(w, u), s) ==
            match Moves(g, w, s) { case None => None case Some(t) => Moves(g, u, t) }
    decreases |u|
  {
    if |u| == 1 {
      assert Splice(w, u) == w;
    } else {
      var front := u[..|u| - 1];
      MovesSplice(g, w, front, s);
      assert Splice(w, u)[..|Splice(w, u)| - 1] == Splice(w, front);
    }
  }

  /** Running a spliced walk is running the first part and then the moves of the second. */
  lemma RunSplice(g: Graph, w: Walk, u: Walk, s: Stacks)
    requires Last(w) == u[0]
    ensures Run(g, Splice(w, u), s) ==
            match Run(g, w, s) { case None => None case Some(t) => Moves(g, u, t) }
  {
    if Step(g.Kind(w[0]), s).Some? {
      MovesSplice(g, w, u, Step(g.Kind(w[0]), s).value);
    }
  }

  /** One more move at the end of a walk. */
  lemma RunExtend(g: Graph, w: Walk, n: NodeHandle, s: Stacks)
    ensures Run(g, w + [n], s) ==
            match Run(g, w, s) { case None => None case Some(t) => Move(g, Last(w), n, t) }
  {
    assert (w + [n])[..|w|] == w;
  }
}
