/** Lifting nodes, appending edges and resolving jumps keep partial paths exact and canonical. */
module AppendExactness {
  import opened Wrappers
  import opened Graphs
  import opened Patterns
  import opened Unification
  import opened CanonicalUnification
  import opened PartialPaths
  import opened Exactness

  /** Exactness of what entering a node makes of an exact path. */
  lemma AppendNodeExact(g: Graph, p: PartialPath, w: Walk, n: NodeHandle, o: Origin)
    requires Exact(g, p, w, o) && !g.Kind(Last(w)).JumpTo?
    ensures var r := AppendNode(g.Kind(n), p);
            && (r.Err? ==> !Feasible(g, w + [n], o))
            && (r.Ok? ==> Exact(g, r.value, w + [n], o))
  {
    PostVariablesOccurInPre(g, p, w, o);
    AppendNodeEnters(g.Kind(n), p);
    forall s {
      RunExtend(g, w, n, s);
    }
    match AppendNode(g.Kind(n), p)
    case Err(_) =>
      forall s | o.Admits(s)
        ensures Run(g, w + [n], s).None?
      {
        if Run(g, w, s).Some? {
          var val :| Before(p, val) == s;
        }
      }
    case Ok(q) =>
      forall val
        ensures o.Admits(Before(q, val)) && Run(g, w + [n], Before(q, val)) == Some(After(q, val))
      {
        assert Lowers(g.Kind(n), p, q, val);
        var below :| StepsTo(g.Kind(n), p, below, q, val);
        assert Run(g, w, Before(p, below)) == Some(After(p, below));
      }
      forall s | o.Admits(s) && Run(g, w + [n], s).Some?
        ensures exists above :: Before(q, above) == s
      {
        var val :| Before(p, val) == s;
        assert Lifts(q, p, val);
        var above :| StartsAlike(q, above, p, val);
      }
  }
  // ---------------------------------------------------------------------------------------------
  // Why a node cannot be entered

  function Top(t: Stacks): Option<ScopedSymbol> {
    if t.symbols == [] then None else Some(t.symbols[0])
  }

  /** Some run of the walk ends with this symbol, or with none, on top of the symbol stack. */
  ghost predicate EndsUnder(g: Graph, w: Walk, o: Origin, top: Option<ScopedSymbol>) {
    exists s :: o.Admits(s) && Run(g, w, s).Some? && Top(Run(g, w, s).value) == top
  }

  /** All runs of the walk end with nothing on the symbol stack. */
  ghost predicate AlwaysEmpty(g: Graph, w: Walk, o: Origin) {
    forall top :: EndsUnder(g, w, o, top) ==> top.None?
  }

  /** All runs end with a symbol on top, but never with this one. */
  ghost predicate AlwaysOther(g: Graph, w: Walk, o: Origin, symbol: Symbol) {
    forall top :: EndsUnder(g, w, o, top) ==> top.Some? && top.value.symbol != symbol
  }

  /** All runs end with this symbol on top, with or without attached scopes. */
  ghost predicate AlwaysUnder(g: Graph, w: Walk, o: Origin, symbol: Symbol, attached: bool) {
    forall top :: EndsUnder(g, w, o, top) ==>
      top.Some? && top.value.symbol == symbol && (top.value.scopes.Some? <==> attached)
  }

  lemma TopsDescribed(g: Graph, p: PartialPath, w: Walk, o: Origin, val: Valuation)
    requires Exact(g, p, w, o)
    ensures EndsUnder(g, w, o, Top(After(p, val)))
    ensures forall top :: EndsUnder(g, w, o, top) ==> exists v :: Top(After(p, v)) == top
  {
    hide EvalStack, EvalScopes, Run;
    assert Run(g, w, Before(p, val)) == Some(After(p, val));
    forall top | EndsUnder(g, w, o, top)
      ensures exists v :: Top(After(p, v)) == top
    {
      var s :| o.Admits(s) && Run(g, w, s).Some? && Top(Run(g, w, s).value) == top;
      var v :| Before(p, v) == s;
      assert Run(g, w, Before(p, v)) == Some(After(p, v));
    }
  }

  lemma TopOf(p: PartialPath, val: Valuation)
    ensures Top(After(p, val)) ==
            if p.symbolPost.symbols != [] then Some(EvalSymbol(p.symbolPost.symbols[0], val))
            else if p.symbolPost.variable.Some? then Top(Stacks(SymbolValue(val, p.symbolPost.variable.value), []))
            else None
  {
  }

  /** The error that entering a node gives says what is on top of the symbol stack after every run. */
  lemma EntryErrors(g: Graph, p: PartialPath, w: Walk, n: NodeHandle, o: Origin)
    requires Exact(g, p, w, o)
    ensures var node, r := g.Kind(n), AppendNode(g.Kind(n), p);
            var pops := node.PopSymbol? || node.PopScopedSymbol?;
            && (r == Err(SymbolStackUnsatisfied) <==> pops && AlwaysEmpty(g, w, o))
            && (r == Err(IncorrectPoppedSymbol) <==> pops && AlwaysOther(g, w, o, node.symbol))
            && (r == Err(MissingAttachedScopeList) <==>
                  node.PopScopedSymbol? && AlwaysUnder(g, w, o, node.symbol, false))
            && (r == Err(UnexpectedAttachedScopeList) <==>
                  node.PopSymbol? && AlwaysUnder(g, w, o, node.symbol, true))
            && (r == Err(UnknownAttachedScope) <==> node.PushScopedSymbol? && node.scope.None?)
            && (r.Err? ==> r.error in {SymbolStackUnsatisfied, IncorrectPoppedSymbol, MissingAttachedScopeList,
                                       UnexpectedAttachedScopeList, UnknownAttachedScope})
  {
    hide EndsUnder, Exact;
    forall val: Valuation
      ensures Top(After(p, val)) ==
              if p.symbolPost.symbols != [] then Some(EvalSymbol(p.symbolPost.symbols[0], val))
              else if p.symbolPost.variable.Some? then Top(Stacks(SymbolValue(val, p.symbolPost.variable.value), []))
              else None
    {
      TopOf(p, val);
    }
    TopsDescribed(g, p, w, o, NOTHING);
    if p.symbolPost.symbols == [] && p.symbolPost.variable.Some? {
      var below := [ScopedSymbol(0, None)];
      var val := Valuation(imap[p.symbolPost.variable.value := below], imap[]);
      TopsDescribed(g, p, w, o, val);
      assert Top(After(p, val)) == Some(ScopedSymbol(0, None));
    }
  }


  lemma AppendNodeKeeps(g: Graph, p: PartialPath, n: NodeHandle)
    requires AppendNode(g.Kind(n), p).Ok?
    requires g.AttachedScopesExist() && PostScopesExist(g, p)
    ensures PostScopesExist(g, AppendNode(g.Kind(n), p).value)
    ensures Canonical(p) ==> Canonical(AppendNode(g.Kind(n), p).value)
  {
    var q := AppendNode(g.Kind(n), p).value;
    if Canonical(p) && q.symbolPre != p.symbolPre {
      var k := |p.symbolPre.symbols|;
      var c := q.symbolPre.symbols[k];
      SymbolsScopeVariablesConcat(p.symbolPre.symbols, [c]);
      assert forall v :: v in c.ScopeVariables() ==> v == p.LargestScopeVariable() + 1;
      forall i, j | 0 <= i < j <= k && q.symbolPre.symbols[i].scopes.Some? && q.symbolPre.symbols[j].scopes.Some?
        ensures q.symbolPre.symbols[i].scopes != q.symbolPre.symbols[j].scopes
      {
        if j == k {
          assert p.symbolPre.symbols[i].ScopeVariables() <= p.symbolPre.ScopeVariables();
          assert p.symbolPre.symbols[i].scopes.value.variable.value in p.symbolPre.symbols[i].ScopeVariables();
        }
      }
    }
  }

  lemma AppendNodeShape(node: Node, p: PartialPath)
    requires AppendNode(node, p).Ok?
    ensures var q := AppendNode(node, p).value;
            && q.startNode == p.startNode && q.edges == p.edges && q.scopePre == p.scopePre
            && q.symbolPre.variable == p.symbolPre.variable
  {
  }

  /** A node lifted to a path summarises the walk that only enters that node. */
  lemma FromNodeSummary(g: Graph, n: NodeHandle)
    requires g.AttachedScopesExist()
    ensures var r := FromNode(g, n);
            r.Ok? && Summary(g, r.value, [n], Anywhere) && Open(r.value) && r.value.edges == []
  {
    var blank := Blank(n);
    AppendNodeEnters(g.Kind(n), blank);
    var q := AppendNode(g.Kind(n), blank).value;
    forall val
      ensures Before(blank, val) == After(blank, val)
      ensures Run(g, [n], Before(q, val)) == Some(After(q, val))
    {
      assert Lowers(g.Kind(n), blank, q, val);
      var below :| StepsTo(g.Kind(n), blank, below, q, val);
      assert Before(blank, below) == After(blank, below);
    }
    forall s | Run(g, [n], s).Some?
      ensures exists above :: Before(q, above) == s
    {
      var val := Valuation(imap[1 := s.symbols], imap[1 := s.scopes]);
      assert Before(blank, val) == s;
      assert Lifts(q, blank, val);
      var above :| StartsAlike(q, above, blank, val);
    }
    AppendNodeKeeps(g, blank, n);
  }

  /** A path that ends in a jump whose target it knows. */
  predicate JumpKnown(g: Graph, p: PartialPath) {
    g.Kind(p.endNode).JumpTo? && p.scopePost.scopes != []
  }

  /** The walk, continued to the jump's target if that is known. */
  function Settled(g: Graph, p: PartialPath, w: Walk): Walk {
    if JumpKnown(g, p) then w + [p.scopePost.scopes[0]] else w
  }

  /** Resolving a jump follows the only way on, fails when there is none, and waits if there are many. */
  lemma ResolveExact(g: Graph, p: PartialPath, w: Walk, o: Origin)
    requires Summary(g, p, w, o)
    ensures var r := ResolveFromPostcondition(g, p);
            && (r.Ok? ==> Summary(g, r.value, Settled(g, p, w), o))
            && (r.Ok? ==> r.value.symbolPre == p.symbolPre && r.value.scopePre == p.scopePre)
            && (r.Err? ==> g.Kind(p.endNode).JumpTo? && forall n :: !Feasible(g, w + [n], o))
            && (JumpKnown(g, p) ==> r.Ok? && forall n :: Feasible(g, w + [n], o) <==> n == p.scopePost.scopes[0])
            && (r.Ok? && g.Kind(r.value.endNode).JumpTo? && !JumpKnown(g, p) ==>
                  forall n :: Feasible(g, w + [n], o) <==> g.Kind(n).IsExportedScope())
  {
    forall s, n {
      RunExtend(g, w, n, s);
    }
    if g.Kind(p.endNode).JumpTo? {
      forall s, n | o.Admits(s) && Run(g, w + [n], s).Some?
        ensures exists val :: Before(p, val) == s && After(p, val).scopes != [] && n == After(p, val).scopes[0]
      {
        var val :| Before(p, val) == s;
        assert Run(g, w, Before(p, val)) == Some(After(p, val));
      }
      if p.scopePost.CanOnlyMatchEmpty() {
        assert forall val :: After(p, val).scopes == [];
      } else if p.scopePost.scopes == [] {
        forall n | g.Kind(n).IsExportedScope()
          ensures Feasible(g, w + [n], o)
        {
          JumpPossible(g, p, w, n, o);
        }
      } else {
        ResolveKnown(g, p, w, o);
      }
    }
  }

  lemma JumpPossible(g: Graph, p: PartialPath, w: Walk, n: NodeHandle, o: Origin)
    requires Summary(g, p, w, o) && g.Kind(p.endNode).JumpTo?
    requires p.scopePost.scopes == [] && p.scopePost.variable.Some?
    requires g.Kind(n).IsExportedScope()
    ensures Feasible(g, w + [n], o)
  {
    hide Run, Complete, PostScopesExist, EvalStack;
    var val := Valuation(imap[], imap[p.scopePost.variable.value := [n]]);
    assert After(p, val).scopes == [n];
    RunExtend(g, w, n, Before(p, val));
    assert Run(g, w + [n], Before(p, val)).Some?;
  }

  lemma ResolveKnown(g: Graph, p: PartialPath, w: Walk, o: Origin)
    requires Summary(g, p, w, o) && JumpKnown(g, p)
    ensures var r := ResolveFromPostcondition(g, p);
            && r.Ok?
            && Summary(g, r.value, w + [p.scopePost.scopes[0]], o)
            && Feasible(g, w + [p.scopePost.scopes[0]], o)
  {
    var top := p.scopePost.scopes[0];
    var q := ResolveFromPostcondition(g, p).value;
    forall val
      ensures o.Admits(Before(q, val)) && Run(g, w + [top], Before(q, val)) == Some(After(q, val))
    {
      RunExtend(g, w, top, Before(p, val));
      assert Run(g, w, Before(p, val)) == Some(After(p, val));
      assert EvalScopes(p.scopePost, val)[1..] == EvalScopes(q.scopePost, val);
    }
    forall s | o.Admits(s) && Run(g, w + [top], s).Some?
      ensures exists val :: Before(q, val) == s
    {
      RunExtend(g, w, top, s);
      var val :| Before(p, val) == s;
      assert Before(q, val) == s;
    }
    ExactFeasible(g, q, w + [top], o);
  }

  /** Exactness is a matter of the pre- and postconditions only. */
  lemma SameConditions(g: Graph, p: PartialPath, q: PartialPath, w: Walk, o: Origin)
    requires Exact(g, p, w, o)
    requires q.symbolPre == p.symbolPre && q.scopePre == p.scopePre
    requires q.symbolPost == p.symbolPost && q.scopePost == p.scopePost
    ensures Exact(g, q, w, o)
  {
    forall val
      ensures Before(p, val) == Before(q, val) && After(p, val) == After(q, val)
    {
    }
  }

  /** Entering the sink of an edge extends a summary, and fails exactly when the walk cannot go on. */
  lemma EnteredSummary(g: Graph, p: PartialPath, w: Walk, e: Edge, o: Origin)
    requires g.AttachedScopesExist() && Summary(g, p, w, o)
    requires e.source == p.endNode && !g.Kind(e.source).JumpTo?
    ensures var r := Entered(g, p, e);
            && (r.Ok? <==> Feasible(g, w + [e.sink], o))
            && (r.Ok? ==> Summary(g, r.value, w + [e.sink], o))
            && (r.Ok? && Canonical(p) ==> Canonical(r.value))
            && (r.Ok? && Open(p) ==> Open(r.value))
            && (r.Ok? ==> |r.value.edges| == |p.edges| + 1)
  {
    hide AppendNode, Step, Run, Moves, Sound, Complete;
    AppendNodeExact(g, p, w, e.sink, o);
    match AppendNode(g.Kind(e.sink), p)
    case Err(_) =>
    case Ok(q) =>
      AppendNodeShape(g.Kind(e.sink), p);
      AppendNodeKeeps(g, p, e.sink);
      var r := Entered(g, p, e).value;
      SameConditions(g, q, r, w + [e.sink], o);
      ExactFeasible(g, r, w + [e.sink], o);
  }

  // ---------------------------------------------------------------------------------------------
  // Folding `append` over a list of edges

  function Trace(g: Graph, n: NodeHandle, edges: seq<Edge>): Result<PartialPath, PathResolutionError> {
    if edges == [] then FromNode(g, n)
    else
      match Trace(g, n, edges[..|edges| - 1])
      case Err(e) => Err(e)
      case Ok(p) => Append(g, p, edges[|edges| - 1])
  }

  /** The nodes the fold passes, the targets of resolved jumps included. */
  function TraceWalk(g: Graph, n: NodeHandle, edges: seq<Edge>): Walk {
    if edges == [] then [n]
    else
      var front, e := edges[..|edges| - 1], edges[|edges| - 1];
      var w := TraceWalk(g, n, front) + [e.sink];
      match Trace(g, n, front)
      case Err(_) => w
      case Ok(p) =>
        match Entered(g, p, e)
        case Err(_) => w
        case Ok(q) => Settled(g, q, w)
  }

  /** Whatever the fold arrives at summarises the walk it made, and is canonical. */
  lemma {:induction false} TraceSummary(g: Graph, n: NodeHandle, edges: seq<Edge>)
    requires g.AttachedScopesExist()
    requires forall e :: e in edges ==> !g.Kind(e.source).JumpTo?
    ensures var r := Trace(g, n, edges);
            r.Ok? ==> Summary(g, r.value, TraceWalk(g, n, edges), Anywhere) && Canonical(r.value)
  {
    if edges == [] {
      FromNodeSummary(g, n);
    } else {
      var front, e := edges[..|edges| - 1], edges[|edges| - 1];
      TraceSummary(g, n, front);
      match Trace(g, n, front)
      case Err(_) =>
      case Ok(p) =>
        if e.source == p.endNode {
          EnteredSummary(g, p, TraceWalk(g, n, front), e, Anywhere);
          if Entered(g, p, e).Ok? {
            ResolveExact(g, Entered(g, p, e).value, TraceWalk(g, n, front) + [e.sink], Anywhere);
          }
        }
    }
  }

  /** The node that the edges lead to from `n`. */
  function EndOf(n: NodeHandle, edges: seq<Edge>): NodeHandle {
    if edges == [] then n else edges[|edges| - 1].sink
  }

  /** The edges follow one another from `n`, and none of them touches a jump node. */
  predicate JumpFreeChain(g: Graph, n: NodeHandle, edges: seq<Edge>) {
    if edges == [] then !g.Kind(n).JumpTo?
    else
      var front, e := edges[..|edges| - 1], edges[|edges| - 1];
      JumpFreeChain(g, n, front) && e.source == EndOf(n, front) && !g.Kind(e.sink).JumpTo?
  }

  function Nodes(n: NodeHandle, edges: seq<Edge>): (w: Walk)
    ensures |w| == |edges| + 1
    ensures w[0] == n
    ensures forall i :: 0 <= i < |edges| ==> w[i + 1] == edges[i].sink
  {
    [n] + seq(|edges|, i requires 0 <= i < |edges| => edges[i].sink)
  }

  function EdgeRecords(edges: seq<Edge>): seq<PartialPathEdge> {
    seq(|edges|, i requires 0 <= i < |edges| => PartialPathEdge(edges[i].source, edges[i].precedence))
  }

  /** Appending one edge to a summary, away from jumps. */
  lemma AppendSummary(g: Graph, p: PartialPath, w: Walk, e: Edge, o: Origin)
    requires g.AttachedScopesExist() && Summary(g, p, w, o) && Canonical(p)
    requires e.source == p.endNode && !g.Kind(e.source).JumpTo? && !g.Kind(e.sink).JumpTo?
    ensures var r := Append(g, p, e);
            && (r.Ok? <==> Feasible(g, w + [e.sink], o))
            && (r.Ok? ==> Summary(g, r.value, w + [e.sink], o) && Canonical(r.value))
            && (r.Ok? ==> r.value.edges == p.edges + [PartialPathEdge(e.source, e.precedence)])
  {
    EnteredSummary(g, p, w, e, o);
  }

  lemma InfeasibleExtend(g: Graph, w: Walk, n: NodeHandle, o: Origin)
    requires !Feasible(g, w, o)
    ensures !Feasible(g, w + [n], o)
  {
    forall s {
      RunExtend(g, w, n, s);
    }
  }

  /** What folding `append` along a walk comes to. */
  ghost predicate Summarises(g: Graph, r: Result<PartialPath, PathResolutionError>, w: Walk, edges: seq<Edge>,
                             o: Origin)
  {
    && (r.Ok? <==> Feasible(g, w, o))
    && (r.Ok? ==> Summary(g, r.value, w, o) && Canonical(r.value) && r.value.edges == EdgeRecords(edges))
  }

  lemma SummarisesStep(g: Graph, r: Result<PartialPath, PathResolutionError>, w: Walk, edges: seq<Edge>, e: Edge,
                       o: Origin)
    requires g.AttachedScopesExist() && Summarises(g, r, w, edges, o)
    requires e.source == Last(w) && !g.Kind(e.source).JumpTo? && !g.Kind(e.sink).JumpTo?
    ensures r.Err? ==> Summarises(g, r, w + [e.sink], edges + [e], o)
    ensures r.Ok? ==> Summarises(g, Append(g, r.value, e), w + [e.sink], edges + [e], o)
  {
    hide Append, Canonical, Feasible, Exact, PostScopesExist;
    match r
    case Err(_) => InfeasibleExtend(g, w, e.sink, o);
    case Ok(p) =>
      AppendSummary(g, p, w, e, o);
      assert EdgeRecords(edges + [e]) == EdgeRecords(edges) + [PartialPathEdge(e.source, e.precedence)];
  }

  lemma {:induction false} TraceSummarises(g: Graph, n: NodeHandle, edges: seq<Edge>)
    requires g.AttachedScopesExist() && JumpFreeChain(g, n, edges)
    ensures Summarises(g, Trace(g, n, edges), Nodes(n, edges), edges, Anywhere)
  {
    if edges == [] {
      NodeSummarises(g, n);
    } else {
      var front, e := edges[..|edges| - 1], edges[|edges| - 1];
      NodesSnoc(n, front, e);
      assert edges == front + [e];
      TraceSummarises(g, n, front);
      ChainAvoidsJumps(g, n, front);
      SummarisesStep(g, Trace(g, n, front), Nodes(n, front), front, e, Anywhere);
    }
  }

  lemma ChainAvoidsJumps(g: Graph, n: NodeHandle, edges: seq<Edge>)
    requires JumpFreeChain(g, n, edges)
    ensures !g.Kind(EndOf(n, edges)).JumpTo?
  {
    if edges == [] {
    } else {
      ChainAvoidsJumps(g, n, edges[..|edges| - 1]);
    }
  }

  lemma NodeSummarises(g: Graph, n: NodeHandle)
    requires g.AttachedScopesExist()
    ensures Summarises(g, Trace(g, n, []), Nodes(n, []), [], Anywhere)
  {
    FromNodeSummary(g, n);
    ExactFeasible(g, FromNode(g, n).value, [n], Anywhere);
    assert Nodes(n, []) == [n];
  }

  lemma NodesSnoc(n: NodeHandle, front: seq<Edge>, e: Edge)
    ensures Nodes(n, front + [e]) == Nodes(n, front) + [e.sink]
    ensures Last(Nodes(n, front)) == EndOf(n, front)
  {
  }

  /**
   Edge by edge summaries are exact: folding `append` over a jump-free chain of edges fails exactly
   when no stacks can complete the walk; otherwise the result relates exactly its concrete runs.
   */
  lemma EdgeByEdge(g: Graph, n: NodeHandle, edges: seq<Edge>)
    requires g.AttachedScopesExist() && JumpFreeChain(g, n, edges)
    ensures Trace(g, n, edges).Ok? <==> Feasible(g, Nodes(n, edges), Anywhere)
    ensures Trace(g, n, edges).Ok? ==>
              var p := Trace(g, n, edges).value;
              && Denotes(g, p, Nodes(n, edges), Anywhere)
              && Canonical(p)
              && p.symbolPost.SymbolVariables() <= p.symbolPre.SymbolVariables()
              && ScopesOfPost(p) <= ScopesOfPre(p)
              && p.startNode == n && p.endNode == EndOf(n, edges)
              && p.edges == EdgeRecords(edges)
  {
    TraceSummarises(g, n, edges);
    match Trace(g, n, edges)
    case Err(_) =>
    case Ok(p) =>
      ExactDenotes(g, p, Nodes(n, edges), Anywhere);
      PostVariablesOccurInPre(g, p, Nodes(n, edges), Anywhere);
  }
}
