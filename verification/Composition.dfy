/**
 Concatenation is exact composition: joining two exact summaries that meet in a node succeeds exactly
 when some stacks can run the left walk and then the right one, the shared node counted once, and
 then the result is an exact summary of the spliced walk.
 */
module Composition {
  import opened Wrappers
  import opened Graphs
  import opened Patterns
  import opened Unification
  import opened CanonicalUnification
  import opened CanonicalJoin
  import opened PartialPaths
  import opened Exactness
  import opened Renaming

  // ---------------------------------------------------------------------------------------------
  // Half-open conditions

  /** `m` are the stacks at the join node, half-open; `t` are the stacks once it has been entered. */
  ghost predicate Junction(node: Node, m: Stacks, t: Stacks) {
    if node.PushSymbol? || node.PushScopedSymbol? then Step(node, m) == Some(t)
    else m == t && (node.DropScopes? ==> t.scopes == [])
  }

  /** Entering the join node from a precondition, in terms of the half-open precondition. */
  ghost predicate Opens(node: Node, before: Stacks, m: Stacks) {
    && Step(node, before).Some?
    && (if node.PopSymbol? || node.PopScopedSymbol? then m == Step(node, before).value else m == before)
  }

  ghost function Meeting(symbols: PartialSymbolStack, scopes: PartialScopeStack, val: Valuation): Stacks {
    Stacks(EvalStack(symbols, val), EvalScopes(scopes, val))
  }

  /** Whatever a walk ends with has just been produced by entering its last node. */
  lemma EndsEntered(g: Graph, w: Walk, s: Stacks) returns (u: Stacks)
    requires Run(g, w, s).Some?
    ensures Step(g.Kind(Last(w)), u) == Run(g, w, s)
  {
    if |w| == 1 {
      u := s;
    } else {
      var start := Step(g.Kind(w[0]), s).value;
      u := Moves(g, w[..|w| - 1], start).value;
      if g.Kind(w[|w| - 2]).JumpTo? {
        u := Run(g, w, s).value;
      }
    }
  }

  lemma EvalUncons(s: PartialSymbolStack, val: Valuation)
    requires s.symbols != []
    ensures EvalStack(s, val) == [EvalSymbol(s.symbols[0], val)] + EvalStack(Drop(s, 1), val)
    ensures EvalStack(s, val)[1..] == EvalStack(Drop(s, 1), val)
  {
    EvalDrop(s, 1, val);
    assert EvalSymbols(s.symbols[..1], val) == [EvalSymbol(s.symbols[0], val)];
  }

  /** The postcondition of a summary can be half-opened, and then meets the end node's junction. */
  lemma HalfOpenLeft(g: Graph, p: PartialPath, w: Walk, o: Origin)
    requires Summary(g, p, w, o)
    ensures var post := HalfOpenPost(g.Kind(p.endNode), p.symbolPost);
            && post.Some?
            && (forall val :: Junction(g.Kind(p.endNode), Meeting(post.value, p.scopePost, val), After(p, val)))
            && post.value.ScopeVariables() <= p.symbolPost.ScopeVariables()
            && post.value.SymbolVariables() == p.symbolPost.SymbolVariables()
  {
    var node := g.Kind(p.endNode);
    assert Run(g, w, Before(p, NOTHING)) == Some(After(p, NOTHING));
    var u := EndsEntered(g, w, Before(p, NOTHING));
    assert |EvalStack(p.symbolPost, NOTHING)| == |p.symbolPost.symbols|;
    if node.PushSymbol? || node.PushScopedSymbol? {
      assert EvalStack(p.symbolPost, NOTHING)[0] == EvalSymbol(p.symbolPost.symbols[0], NOTHING);
      DropVariables(p.symbolPost, 1);
    }
    var post := HalfOpenPost(node, p.symbolPost).value;
    forall val
      ensures Junction(node, Meeting(post, p.scopePost, val), After(p, val))
    {
      assert Run(g, w, Before(p, val)) == Some(After(p, val));
      var u := EndsEntered(g, w, Before(p, val));
      if node.PushSymbol? || node.PushScopedSymbol? {
        EvalUncons(p.symbolPost, val);
        assert EvalStack(p.symbolPost, val)[1..] == u.symbols;
        assert EvalStack(p.symbolPost, val) == [EvalStack(p.symbolPost, val)[0]] + u.symbols;
      }
    }
  }

  /** The precondition of a summary can be half-opened, which undoes the effect of entering the start node. */
  lemma HalfOpened(g: Graph, p: PartialPath, w: Walk)
    requires Summary(g, p, w, Anywhere)
    ensures var pre := HalfOpenPre(g.Kind(p.startNode), p.symbolPre, p.scopePre);
            && pre.Some?
            && (forall val :: Opens(g.Kind(p.startNode), Before(p, val),
                                    Meeting(pre.value.symbols, pre.value.scopes, val)))
            && pre.value.symbols.ScopeVariables() + pre.value.scopes.ScopeVariables() <= ScopesOfPre(p)
            && pre.value.symbols.SymbolVariables() == p.symbolPre.SymbolVariables()
            && (exists k :: 0 <= k <= |p.symbolPre.symbols| && pre.value.symbols == Drop(p.symbolPre, k))
  {
    var node := g.Kind(p.startNode);
    assert Run(g, w, Before(p, NOTHING)) == Some(After(p, NOTHING));
    assert |EvalStack(p.symbolPre, NOTHING)| == |p.symbolPre.symbols|;
    if node.PopSymbol? || node.PopScopedSymbol? {
      assert EvalStack(p.symbolPre, NOTHING)[0] == EvalSymbol(p.symbolPre.symbols[0], NOTHING);
      TailVariables(p.symbolPre.symbols);
      assert Drop(p.symbolPre, 1).ScopeVariables() == SymbolsScopeVariables(p.symbolPre.symbols[1..]);
    } else {
      assert Drop(p.symbolPre, 0) == p.symbolPre;
    }
    var pre := HalfOpenPre(node, p.symbolPre, p.scopePre).value;
    forall val
      ensures Opens(node, Before(p, val), Meeting(pre.symbols, pre.scopes, val))
    {
      assert Run(g, w, Before(p, val)) == Some(After(p, val));
      if node.PopSymbol? || node.PopScopedSymbol? {
        EvalUncons(p.symbolPre, val);
      }
    }
  }

  /** A canonical precondition stays canonical when it is half-opened. */
  lemma HalfOpenRight(g: Graph, p: PartialPath, w: Walk)
    requires Summary(g, p, w, Anywhere) && Canonical(p)
    ensures var pre := HalfOpenPre(g.Kind(p.startNode), p.symbolPre, p.scopePre);
            && pre.Some?
            && (forall val :: Opens(g.Kind(p.startNode), Before(p, val),
                                    Meeting(pre.value.symbols, pre.value.scopes, val)))
            && CanonicalStacks(pre.value.symbols, pre.value.scopes)
            && pre.value.symbols.ScopeVariables() + pre.value.scopes.ScopeVariables() <= ScopesOfPre(p)
            && pre.value.symbols.SymbolVariables() == p.symbolPre.SymbolVariables()
            && (exists k :: 0 <= k <= |p.symbolPre.symbols| && pre.value.symbols == Drop(p.symbolPre, k))
  {
    hide Opens, Summary;
    HalfOpened(g, p, w);
    var node := g.Kind(p.startNode);
    if node.PopSymbol? || node.PopScopedSymbol? {
      TailVariables(p.symbolPre.symbols);
      HeadVariableDistinct(p.symbolPre.symbols);
      assert Drop(p.symbolPre, 1).ScopeVariables() == SymbolsScopeVariables(p.symbolPre.symbols[1..]);
    }
  }

  /** Two half-open sides that meet agree on the stacks after the join node. */
  lemma JunctionAgrees(node: Node, m: Stacks, t: Stacks, before: Stacks)
    requires Junction(node, m, t) && Opens(node, before, m)
    ensures Step(node, before) == Some(t)
  {
  }

  /** Any stacks after the join node can be had by entering it from stacks that half-open to `m`. */
  lemma JunctionReentered(node: Node, m: Stacks, t: Stacks, u: Stacks) returns (before: Stacks)
    requires Junction(node, m, t) && Step(node, u) == Some(t)
    ensures Step(node, before) == Some(t) && Opens(node, before, m)
    ensures forall other :: Opens(node, before, other) ==> other == m
  {
    if node.PopSymbol? || node.PopScopedSymbol? {
      before := u;
    } else {
      before := m;
    }
  }

  // ---------------------------------------------------------------------------------------------
  // Joining

  /** Both sides of a join: exact summaries that meet in a node and share no variable. */
  ghost predicate Adjacent(g: Graph, lhs: PartialPath, w: Walk, rhs: PartialPath, u: Walk, o: Origin) {
    && Summary(g, lhs, w, o) && Summary(g, rhs, u, Anywhere)
    && Last(w) == u[0]
    && VariablesApart(lhs, rhs)
  }

  ghost predicate Joinable(g: Graph, lhs: PartialPath, w: Walk, rhs: PartialPath, u: Walk, o: Origin) {
    Adjacent(g, lhs, w, rhs, u, o) && Canonical(rhs)
  }

  /** The half-open conditions that `compute_join` unifies. */
  ghost function LeftPost(g: Graph, lhs: PartialPath): PartialSymbolStack {
    var post := HalfOpenPost(g.Kind(lhs.endNode), lhs.symbolPost);
    if post.Some? then post.value else lhs.symbolPost
  }

  ghost function RightPre(g: Graph, rhs: PartialPath): PreStacks {
    var pre := HalfOpenPre(g.Kind(rhs.startNode), rhs.symbolPre, rhs.scopePre);
    if pre.Some? then pre.value else PreStacks(rhs.symbolPre, rhs.scopePre)
  }

  ghost predicate Meets(g: Graph, lhs: PartialPath, rhs: PartialPath, val: Valuation) {
    Equates(val, LeftPost(g, lhs), lhs.scopePost, RightPre(g, rhs).symbols, RightPre(g, rhs).scopes)
  }

  /** What `compute_join` finds: no panic, no overflow, and the bindings of every possible meeting. */
  lemma JoinBindings(g: Graph, lhs: PartialPath, w: Walk, rhs: PartialPath, u: Walk, depth: nat, o: Origin)
    requires Joinable(g, lhs, w, rhs, u, o)
    ensures var r := ComputeJoin(g, lhs, rhs, depth);
            && (r.Err? ==> r.error != StackOverflow && r.error != Panic)
            && (r.Err? ==> forall val :: !Meets(g, lhs, rhs, val))
            && (r.Ok? ==> forall val :: Meets(g, lhs, rhs, val) <==> Satisfies(val, r.value))
            && (r.Ok? ==> Solved(r.value))
            && (r.Ok? ==> Directed(r.value, LeftPost(g, lhs), lhs.scopePost, RightPre(g, rhs).symbols,
                                   RightPre(g, rhs).scopes))
  {
    hide Adjacent, Canonical, UnifyStacks, Equates, Satisfies, Solved, Directed, LeftPost, RightPre;
    JoinUnifies(g, lhs, w, rhs, u, depth, o);
    HalfOpenCanonical(g, lhs, w, rhs, u, o);
    var ls, rs, rc := LeftPost(g, lhs), RightPre(g, rhs).symbols, RightPre(g, rhs).scopes;
    UnifyStacksMostGeneral(ls, lhs.scopePost, rs, rc, depth);
    UnificationErrors(ls, lhs.scopePost, rs, rc, depth);
  }

  lemma HalfOpenCanonical(g: Graph, lhs: PartialPath, w: Walk, rhs: PartialPath, u: Walk, o: Origin)
    requires Joinable(g, lhs, w, rhs, u, o)
    ensures CanonicalStacks(RightPre(g, rhs).symbols, RightPre(g, rhs).scopes)
  {
    hide Summary, Opens;
    HalfOpenRight(g, rhs, u);
  }

  /** Joining unifies the half-open conditions, which share no variable. */
  lemma JoinUnifies(g: Graph, lhs: PartialPath, w: Walk, rhs: PartialPath, u: Walk, depth: nat, o: Origin)
    requires Adjacent(g, lhs, w, rhs, u, o)
    ensures ComputeJoin(g, lhs, rhs, depth) ==
            UnifyStacks(LeftPost(g, lhs), lhs.scopePost, RightPre(g, rhs).symbols, RightPre(g, rhs).scopes, depth)
    ensures Apart(LeftPost(g, lhs), lhs.scopePost, RightPre(g, rhs).symbols, RightPre(g, rhs).scopes)
  {
    hide Junction, Opens, UnifyStacks, Meeting;
    HalfOpenLeft(g, lhs, w, o);
    HalfOpened(g, rhs, u);
    PostVariablesOccurInPre(g, lhs, w, o);
  }

  /** A meeting of both sides runs the right walk on from where the left one has ended. */
  lemma MeetingRuns(g: Graph, lhs: PartialPath, w: Walk, rhs: PartialPath, u: Walk, val: Valuation, o: Origin)
    requires Adjacent(g, lhs, w, rhs, u, o) && Meets(g, lhs, rhs, val)
    ensures o.Admits(Before(lhs, val)) && Run(g, Splice(w, u), Before(lhs, val)) == Some(After(rhs, val))
  {
    HalfOpenLeft(g, lhs, w, o);
    HalfOpened(g, rhs, u);
    var node := g.Kind(u[0]);
    var m := Meeting(LeftPost(g, lhs), lhs.scopePost, val);
    assert m == Meeting(RightPre(g, rhs).symbols, RightPre(g, rhs).scopes, val);
    JunctionAgrees(node, m, After(lhs, val), Before(rhs, val));
    RunSplice(g, w, u, Before(lhs, val));
    assert Run(g, w, Before(lhs, val)) == Some(After(lhs, val));
    assert Run(g, u, Before(rhs, val)) == Some(After(rhs, val));
  }

  /** The left valuation on the left's variables, the right one on all others. */
  ghost function Merged(lhs: PartialPath, left: Valuation, right: Valuation): Valuation {
    Valuation(
      imap v: Var {:trigger v in lhs.symbolPre.SymbolVariables()} ::
        if v in lhs.symbolPre.SymbolVariables() then SymbolValue(left, v) else SymbolValue(right, v),
      imap v: Var {:trigger v in ScopesOfPre(lhs)} ::
        if v in ScopesOfPre(lhs) then ScopeValue(left, v) else ScopeValue(right, v))
  }

  lemma MergedLeft(g: Graph, lhs: PartialPath, w: Walk, left: Valuation, right: Valuation, o: Origin)
    requires Summary(g, lhs, w, o)
    ensures Before(lhs, Merged(lhs, left, right)) == Before(lhs, left)
    ensures EvalStack(LeftPost(g, lhs), Merged(lhs, left, right)) == EvalStack(LeftPost(g, lhs), left)
    ensures EvalScopes(lhs.scopePost, Merged(lhs, left, right)) == EvalScopes(lhs.scopePost, left)
  {
    var val := Merged(lhs, left, right);
    PostVariablesOccurInPre(g, lhs, w, o);
    HalfOpenLeft(g, lhs, w, o);
    EvalStackAgree(lhs.symbolPre, left, val);
    EvalScopesAgree(lhs.scopePre, left, val);
    EvalStackAgree(LeftPost(g, lhs), left, val);
    EvalScopesAgree(lhs.scopePost, left, val);
  }

  lemma MergedRight(g: Graph, lhs: PartialPath, w: Walk, rhs: PartialPath, u: Walk, left: Valuation, right: Valuation,
                    o: Origin)
    requires Adjacent(g, lhs, w, rhs, u, o)
    ensures EvalStack(RightPre(g, rhs).symbols, Merged(lhs, left, right)) == EvalStack(RightPre(g, rhs).symbols, right)
    ensures EvalScopes(RightPre(g, rhs).scopes, Merged(lhs, left, right)) == EvalScopes(RightPre(g, rhs).scopes, right)
  {
    var val := Merged(lhs, left, right);
    HalfOpened(g, rhs, u);
    EvalStackAgree(RightPre(g, rhs).symbols, right, val);
    EvalScopesAgree(RightPre(g, rhs).scopes, right, val);
  }

  /** Every run of the spliced walk is a meeting of both sides. */
  lemma RunMeets(g: Graph, lhs: PartialPath, w: Walk, rhs: PartialPath, u: Walk, s: Stacks, o: Origin)
    returns (val: Valuation)
    requires Adjacent(g, lhs, w, rhs, u, o) && o.Admits(s) && Run(g, Splice(w, u), s).Some?
    ensures Before(lhs, val) == s && Meets(g, lhs, rhs, val)
  {
    RunSplice(g, w, u, s);
    var left :| Before(lhs, left) == s;
    assert Run(g, w, s) == Some(After(lhs, left));
    var t := After(lhs, left);
    var entered := EndsEntered(g, w, s);
    HalfOpenLeft(g, lhs, w, o);
    HalfOpened(g, rhs, u);
    var m := Meeting(LeftPost(g, lhs), lhs.scopePost, left);
    var before := JunctionReentered(g.Kind(u[0]), m, t, entered);
    assert Run(g, u, before).Some?;
    var right :| Before(rhs, right) == before;
    assert Opens(g.Kind(u[0]), before, Meeting(RightPre(g, rhs).symbols, RightPre(g, rhs).scopes, right));
    val := Merged(lhs, left, right);
    MergedLeft(g, lhs, w, left, right, o);
    MergedRight(g, lhs, w, rhs, u, left, right, o);
  }

  lemma JoinedExact(g: Graph, lhs: PartialPath, w: Walk, rhs: PartialPath, u: Walk, depth: nat, o: Origin)
    requires Joinable(g, lhs, w, rhs, u, o)
    ensures var r := Joined(g, lhs, rhs, depth);
            && (r.Err? ==> r.error != StackOverflow && r.error != Panic)
            && (r.Ok? <==> Feasible(g, Splice(w, u), o))
            && (r.Ok? ==> Exact(g, r.value, Splice(w, u), o))
  {
    JoinBindings(g, lhs, w, rhs, u, depth, o);
    match ComputeJoin(g, lhs, rhs, depth)
    case Err(_) =>
      if Feasible(g, Splice(w, u), o) {
        var s :| o.Admits(s) && Run(g, Splice(w, u), s).Some?;
        var val := RunMeets(g, lhs, w, rhs, u, s, o);
      }
    case Ok(t) =>
      var q := Joined(g, lhs, rhs, depth).value;
      forall val
        ensures o.Admits(Before(q, val)) && Run(g, Splice(w, u), Before(q, val)) == Some(After(q, val))
      {
        var through := Through(val, t.symbols, t.scopes);
        ThroughSatisfies(val, t);
        MeetingRuns(g, lhs, w, rhs, u, through, o);
        EvalJoined(g, lhs, rhs, depth, t, val);
      }
      forall s | o.Admits(s) && Run(g, Splice(w, u), s).Some?
        ensures exists val :: Before(q, val) == s
      {
        var val := RunMeets(g, lhs, w, rhs, u, s, o);
        EvalJoined(g, lhs, rhs, depth, t, val);
        forall v {
          SatisfyingIsThrough(val, t, v);
        }
        EvalStackAgree(lhs.symbolPre, val, Through(val, t.symbols, t.scopes));
        EvalScopesAgree(lhs.scopePre, val, Through(val, t.symbols, t.scopes));
      }
      ExactFeasible(g, q, Splice(w, u), o);
  }

  lemma EvalJoined(g: Graph, lhs: PartialPath, rhs: PartialPath, depth: nat, t: Tables, val: Valuation)
    requires ComputeJoin(g, lhs, rhs, depth) == Ok(t)
    ensures Before(Joined(g, lhs, rhs, depth).value, val) == Before(lhs, Through(val, t.symbols, t.scopes))
    ensures After(Joined(g, lhs, rhs, depth).value, val) == After(rhs, Through(val, t.symbols, t.scopes))
  {
    EvalSubstStack(lhs.symbolPre, val, t.symbols, t.scopes);
    EvalSubstStack(rhs.symbolPost, val, t.symbols, t.scopes);
    EvalSubstScopes(lhs.scopePre, val, t.symbols, t.scopes);
    EvalSubstScopes(rhs.scopePost, val, t.symbols, t.scopes);
  }
}
