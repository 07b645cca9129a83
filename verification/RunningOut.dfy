/**
 Why cycles that strengthen the precondition run out, whatever jumps they pass.  Going round one of them always takes
 symbols off the stack, or always takes scopes off: so from any stacks it can be gone round only so many times.
 */
module RunningOut {
  import opened Wrappers
  import opened Graphs
  import opened Patterns
  import opened Unification
  import opened LinearUnification
  import opened PartialPaths
  import opened Exactness
  import opened Renaming
  import opened Composition
  import opened LinearComposition
  import opened Cyclicity
  import opened CycleDetection
  import opened ChosenJumps
  import opened ChosenCycles

  /** The closed walk, gone round `k` times. */
  ghost function Laps(w: Walk, k: nat): (r: Walk)
    requires w[0] == Last(w) && k > 0
    ensures r[0] == w[0] && Last(r) == w[0]
  {
    if k == 1 then w else Splice(Laps(w, k - 1), w)
  }

  // ---------------------------------------------------------------------------------------------
  // Symbols

  /** How much longer or shorter a walk makes the symbol stack does not depend on the stacks. */
  lemma {:induction false} SameChange(g: Graph, w: Walk, a: Stacks, b: Stacks)
    requires Moves(g, w, a).Some? && Moves(g, w, b).Some?
    ensures |Moves(g, w, a).value.symbols| - |a.symbols| == |Moves(g, w, b).value.symbols| - |b.symbols|
    decreases |w|
  {
    if |w| > 1 {
      SameChange(g, w[..|w| - 1], a, b);
    }
  }

  /** If going round takes symbols off once, it does so always. */
  lemma ShrinksAlways(g: Graph, w: Walk, e: Stacks)
    requires Shrinks(g, w) && Moves(g, w, e).Some?
    ensures |Moves(g, w, e).value.symbols| < |e.symbols|
  {
    var s :| ShrinksFrom(g, w, s);
    SameChange(g, w, Step(g.Kind(w[0]), s).value, e);
  }

  lemma {:induction false} LapsShrink(g: Graph, w: Walk, k: nat, s: Stacks)
    requires w[0] == Last(w) && k > 0 && Shrinks(g, w) && Run(g, Laps(w, k), s).Some?
    ensures |Run(g, Laps(w, k), s).value.symbols| + k <= |Step(g.Kind(w[0]), s).value.symbols|
  {
    hide Shrinks, Step;
    if k == 1 {
      ShrinksAlways(g, w, Step(g.Kind(w[0]), s).value);
    } else {
      RunSplice(g, Laps(w, k - 1), w, s);
      LapsShrink(g, w, k - 1, s);
      ShrinksAlways(g, w, Run(g, Laps(w, k - 1), s).value);
    }
  }

  // ---------------------------------------------------------------------------------------------
  // Two runs from the same symbols

  /** None of the first `k` symbols has attached scopes. */
  predicate Plain(symbols: SymbolStack, k: nat)
    requires k <= |symbols|
  {
    forall i :: 0 <= i < k ==> symbols[i].scopes.None?
  }

  /** Where two runs from the same symbols are, the `k` first of which they have popped. */
  ghost predicate Together(below: SymbolStack, k: nat, a: Stacks, b: Stacks) {
    k <= |below| && |a.symbols| == |b.symbols| && (a == b || Plain(below, k))
  }

  function Above(s: Stacks, below: SymbolStack): Stacks {
    Stacks(s.symbols + below, s.scopes)
  }

  /** One step of both: `c` and `d` are what they have on top of the rest of the symbols afterwards. */
  ghost predicate StepsOn(node: Node, below: SymbolStack, k: nat, a: Stacks, b: Stacks, j: nat, c: Stacks, d: Stacks) {
    && k <= j && Together(below, j, c, d) && k <= |below|
    && Step(node, Above(a, below[k..])) == Some(Above(c, below[j..]))
    && Step(node, Above(b, below[k..])) == Some(Above(d, below[j..]))
    && Step(node, Above(a, below[k..j])) == Some(c)
  }

  lemma PopsBelow(node: Node, below: SymbolStack, k: nat, a: Stacks, b: Stacks) returns (c: Stacks, d: Stacks)
    requires Together(below, k, a, b) && a.symbols == [] && (node.PopSymbol? || node.PopScopedSymbol?)
    requires Step(node, Above(a, below[k..])).Some? && Step(node, Above(b, below[k..])).Some?
    ensures k < |below| && StepsOn(node, below, k, a, b, k + 1, c, d)
  {
    assert Above(a, below[k..]) == Stacks(below[k..], a.scopes) && Above(b, below[k..]) == Stacks(below[k..], b.scopes);
    c := Stacks([], Step(node, Above(a, below[k..])).value.scopes);
    d := Stacks([], Step(node, Above(b, below[k..])).value.scopes);
    assert below[k..][1..] == below[k + 1..];
    assert Above(c, below[k + 1..]) == Stacks(below[k + 1..], c.scopes);
    assert Above(d, below[k + 1..]) == Stacks(below[k + 1..], d.scopes);
    assert Above(a, below[k..k + 1]) == Stacks([below[k]], a.scopes) && [below[k]][1..] == [];
  }

  lemma PopsOwn(node: Node, below: SymbolStack, k: nat, a: Stacks, b: Stacks) returns (c: Stacks, d: Stacks)
    requires Together(below, k, a, b) && a.symbols != [] && (node.PopSymbol? || node.PopScopedSymbol?)
    requires Step(node, Above(a, below[k..])).Some? && Step(node, Above(b, below[k..])).Some?
    ensures StepsOn(node, below, k, a, b, k, c, d)
  {
    c := Stacks(a.symbols[1..], Step(node, Above(a, below[k..])).value.scopes);
    d := Stacks(b.symbols[1..], Step(node, Above(b, below[k..])).value.scopes);
    assert (a.symbols + below[k..])[1..] == c.symbols + below[k..];
    assert (b.symbols + below[k..])[1..] == d.symbols + below[k..];
    AboveNothing(a, below, k);
  }

  lemma AboveNothing(a: Stacks, below: SymbolStack, k: nat)
    requires k <= |below|
    ensures Above(a, below[k..k]) == a
  {
    assert below[k..k] == [] && a.symbols + [] == a.symbols;
  }

  lemma PushesOn(node: Node, below: SymbolStack, k: nat, a: Stacks, b: Stacks) returns (c: Stacks, d: Stacks)
    requires Together(below, k, a, b) && (node.PushSymbol? || node.PushScopedSymbol?)
    requires Step(node, Above(a, below[k..])).Some? && Step(node, Above(b, below[k..])).Some?
    ensures StepsOn(node, below, k, a, b, k, c, d)
  {
    var t, u := Step(node, Above(a, below[k..])).value, Step(node, Above(b, below[k..])).value;
    c, d := Stacks([t.symbols[0]] + a.symbols, t.scopes), Stacks([u.symbols[0]] + b.symbols, u.scopes);
    assert t.symbols == c.symbols + below[k..] && u.symbols == d.symbols + below[k..];
    AboveNothing(a, below, k);
  }

  lemma StepsTogether(node: Node, below: SymbolStack, k: nat, a: Stacks, b: Stacks)
    returns (j: nat, c: Stacks, d: Stacks)
    requires Together(below, k, a, b)
    requires Step(node, Above(a, below[k..])).Some? && Step(node, Above(b, below[k..])).Some?
    ensures StepsOn(node, below, k, a, b, j, c, d)
  {
    hide Plain;
    j := k;
    if node.PopSymbol? || node.PopScopedSymbol? {
      if a.symbols == [] {
        j := k + 1;
        c, d := PopsBelow(node, below, k, a, b);
      } else {
        c, d := PopsOwn(node, below, k, a, b);
      }
    } else if node.PushSymbol? || node.PushScopedSymbol? {
      c, d := PushesOn(node, below, k, a, b);
    } else {
      c := Stacks(a.symbols, Step(node, Above(a, below[k..])).value.scopes);
      d := Stacks(b.symbols, Step(node, Above(b, below[k..])).value.scopes);
      AboveNothing(a, below, k);
    }
  }

  lemma NonePopped(below: SymbolStack)
    ensures Plain(below, 0)
  {
  }

  /**
   Two runs of one walk, from the same symbols and different scopes: they pop the same symbols, and end up with
   the same stacks unless these are all without attached scopes.  What they have not popped is not needed.
   */
  lemma {:induction false} RunsTogether(g: Graph, w: Walk, below: SymbolStack, p: ScopeStack, q: ScopeStack)
    returns (k: nat, a: Stacks, b: Stacks)
    requires Run(g, w, Stacks(below, p)).Some? && Run(g, w, Stacks(below, q)).Some?
    ensures Together(below, k, a, b)
    ensures Run(g, w, Stacks(below, p)) == Some(Above(a, below[k..]))
    ensures Run(g, w, Stacks(below, q)) == Some(Above(b, below[k..]))
    ensures Run(g, w, Stacks(below[..k], p)) == Some(a)
    decreases |w|
  {
    hide Step, StepsOn, Plain;
    if |w| == 1 {
      a, b := Stacks([], p), Stacks([], q);
      assert below[0..] == below && [] + below == below;
      NonePopped(below);
      k, a, b := StepsTogether(g.Kind(w[0]), below, 0, a, b);
      StepsOnAre(g.Kind(w[0]), below, 0, Stacks([], p), Stacks([], q), k, a, b);
      assert below[0..k] == below[..k] && [] + below[..k] == below[..k];
    } else {
      var front := w[..|w| - 1];
      k, a, b := RunsTogether(g, front, below, p, q);
      k, a, b := MovesTogether(g, w, below, p, q, k, a, b);
    }
  }

  lemma StepsOnAre(node: Node, below: SymbolStack, k: nat, a: Stacks, b: Stacks, j: nat, c: Stacks, d: Stacks)
    requires StepsOn(node, below, k, a, b, j, c, d)
    ensures k <= j && Together(below, j, c, d) && k <= |below|
    ensures Step(node, Above(a, below[k..])) == Some(Above(c, below[j..]))
    ensures Step(node, Above(b, below[k..])) == Some(Above(d, below[j..]))
    ensures Step(node, Above(a, below[k..j])) == Some(c)
  {
  }

  lemma MovesTogether(g: Graph, w: Walk, below: SymbolStack, p: ScopeStack, q: ScopeStack, k: nat, a: Stacks, b: Stacks)
    returns (j: nat, c: Stacks, d: Stacks)
    requires |w| > 1 && Run(g, w, Stacks(below, p)).Some? && Run(g, w, Stacks(below, q)).Some?
    requires Together(below, k, a, b)
    requires var front: Walk := w[..|w| - 1];
             && Run(g, front, Stacks(below, p)) == Some(Above(a, below[k..]))
             && Run(g, front, Stacks(below, q)) == Some(Above(b, below[k..]))
             && Run(g, front, Stacks(below[..k], p)) == Some(a)
    ensures Together(below, j, c, d)
    ensures Run(g, w, Stacks(below, p)) == Some(Above(c, below[j..]))
    ensures Run(g, w, Stacks(below, q)) == Some(Above(d, below[j..]))
    ensures Run(g, w, Stacks(below[..j], p)) == Some(c)
  {
    hide Step, StepsOn, Plain, Run;
    var front: Walk := w[..|w| - 1];
    assert w == front + [Last(w)];
    RunExtend(g, front, Last(w), Stacks(below, p));
    RunExtend(g, front, Last(w), Stacks(below, q));
    if g.Kind(Last(front)).JumpTo? {
      j, c, d := k, Stacks(a.symbols, a.scopes[1..]), Stacks(b.symbols, b.scopes[1..]);
    } else {
      j, c, d := StepsTogether(g.Kind(Last(w)), below, k, a, b);
      StepsOnAre(g.Kind(Last(w)), below, k, a, b, j, c, d);
    }
    RunFrame(g, front, Stacks(below[..k], p), below[k..j]);
    assert below[..k] + below[k..j] == below[..j];
    AboveNothing(a, below, k);
    RunExtend(g, front, Last(w), Stacks(below[..j], p));
  }

  // ---------------------------------------------------------------------------------------------
  // Scopes

  /** None of the symbols that the precondition demands has attached scopes. */
  predicate PlainPre(p: PartialPath) {
    forall i :: 0 <= i < |p.symbolPre.symbols| ==> p.symbolPre.symbols[i].scopes.None?
  }

  /** A cycle that takes scopes pops no symbol with attached scopes that has been there before. */
  lemma TakersArePlain(g: Graph, p: PartialPath, w: Walk)
    requires ChosenCycle(g, p, w) && TakesScopes(g, w) && Feasible(g, Splice(w, w), Anywhere)
    ensures PlainPre(p)
  {
    hide Chosen, Run, Plain, Feasible;
    ChosenIsLinear(g, p);
    var s :| OnceOnly(g, w, s);
    var val := RunsBefore(g, p, w, s);
    var t := TwiceRuns(g, w);
    RunSplice(g, w, w, t);
    var c := RunsBefore(g, p, w, t);
    var few := WithScopes(c, p.scopePre.variable.value, []);
    FewerScopes(p, c, few, val);
    var u := Before(p, few);
    assert Run(g, w, u) == Some(After(p, few));
    var k, a, b := RunsTogether(g, w, t.symbols, t.scopes, u.scopes);
    RunSplice(g, w, w, u);
    assert Run(g, Splice(w, w), u).None?;
    assert Plain(t.symbols, k);
    var v := RunsBefore(g, p, w, Stacks(t.symbols[..k], t.scopes));
    PlainSymbols(p, c, k, v);
  }

  lemma TwiceRuns(g: Graph, w: Walk) returns (t: Stacks)
    requires w[0] == Last(w) && Feasible(g, Splice(w, w), Anywhere)
    ensures Run(g, Splice(w, w), t).Some?
  {
    t :| Run(g, Splice(w, w), t).Some?;
  }

  lemma RunsBefore(g: Graph, p: PartialPath, w: Walk, s: Stacks) returns (val: Valuation)
    requires Summary(g, p, w, Anywhere) && Run(g, w, s).Some?
    ensures Before(p, val) == s && Run(g, w, s) == Some(After(p, val))
  {
    hide Run;
    val :| Before(p, val) == s;
    assert Run(g, w, Before(p, val)) == Some(After(p, val));
  }

  /** With nothing for the precondition's scope variable, the symbols are the same, and the scopes as few as can be. */
  lemma FewerScopes(p: PartialPath, c: Valuation, few: Valuation, val: Valuation)
    requires Linear(p) && few == WithScopes(c, p.scopePre.variable.value, [])
    ensures Before(p, few).symbols == Before(p, c).symbols
    ensures |Before(p, few).scopes| <= |Before(p, val).scopes|
  {
    WithScopesValue(c, p.scopePre.variable.value, []);
    forall i | 0 <= i < |p.symbolPre.symbols|
      ensures EvalSymbol(p.symbolPre.symbols[i], few) == EvalSymbol(p.symbolPre.symbols[i], c)
    {
      if p.symbolPre.symbols[i].scopes.Some? {
        OtherVariable(p, i);
      }
    }
    assert EvalSymbols(p.symbolPre.symbols, few) == EvalSymbols(p.symbolPre.symbols, c);
  }

  lemma OtherVariable(p: PartialPath, i: nat)
    requires Linear(p) && i < |p.symbolPre.symbols| && p.symbolPre.symbols[i].scopes.Some?
    ensures p.symbolPre.symbols[i].scopes.value.variable != p.scopePre.variable
  {
    assert p.symbolPre.symbols[i].ScopeVariables() <= p.symbolPre.ScopeVariables();
  }

  lemma PlainSymbols(p: PartialPath, c: Valuation, k: nat, v: Valuation)
    requires k <= |Before(p, c).symbols| && Plain(Before(p, c).symbols, k)
    requires Before(p, v).symbols == Before(p, c).symbols[..k]
    ensures PlainPre(p)
  {
    assert |Before(p, v).symbols| >= |p.symbolPre.symbols|;
    forall i | 0 <= i < |p.symbolPre.symbols|
      ensures p.symbolPre.symbols[i].scopes.None?
    {
      assert Before(p, c).symbols[i] == EvalSymbol(p.symbolPre.symbols[i], c);
    }
  }

  /** Unifying with symbols without attached scopes binds no scope variable. */
  lemma {:induction false} PlainBindsNone(l: PartialSymbolStack, r: PartialSymbolStack, head: seq<PartialScopedSymbol>,
                                          depth: nat)
    requires forall i :: 0 <= i < |r.symbols| ==> r.symbols[i].scopes.None?
    requires UnifySymbols(l, r, head, map[], map[], depth).Ok?
    ensures UnifySymbols(l, r, head, map[], map[], depth).value.scopes == map[]
    decreases |l.symbols|
  {
    if l.symbols != [] && r.symbols != [] {
      var u := UnifySymbol(l.symbols[0], r.symbols[0], map[], depth).value;
      PlainBindsNone(l.(symbols := l.symbols[1..]), r.(symbols := r.symbols[1..]), head + [u.symbol], depth);
    }
  }

  /** Unifying scope stacks with different variables: what the left variable is bound to, if it is. */
  lemma BoundLonger(l: PartialScopeStack, r: PartialScopeStack, x: Var, depth: nat)
    requires r.variable.Some? && r.variable != l.variable && r.variable != Some(x)
    requires UnifyScopes(l, r, map[], depth).Ok? && x in UnifyScopes(l, r, map[], depth).value.scopes
    ensures l.variable == Some(x) && |l.scopes| < |r.scopes|
  {
    MatchShape(l, r);
    var m := MatchScopes(l, r).value;
    assert m.variable == x;
    var val := WithScopes(NOTHING, x, EvalScopes(m.bound, NOTHING));
    WithScopesValue(NOTHING, x, EvalScopes(m.bound, NOTHING));
    EvalMatched(l, r, val);
    assert |EvalScopes(l, val)| == |l.scopes| + |EvalScopes(m.bound, NOTHING)|;
    assert |EvalScopes(r, val)| == |r.scopes|;
  }

  /** So what a cycle that takes scopes leaves is the scopes that were there, less some. */
  lemma TakersShorten(g: Graph, p: PartialPath, w: Walk, depth: nat)
    requires ChosenCycle(g, p, w) && TakesScopes(g, w) && Feasible(g, Splice(w, w), Anywhere) && depth > 0
    ensures p.scopePost.variable == p.scopePre.variable && |p.scopePost.scopes| < |p.scopePre.scopes|
    ensures !g.Kind(w[0]).PopScopedSymbol?
  {
    hide Chosen, Run, TakesScopes, Feasible, UnifySymbols, UnifyScopes, ComputeJoin;
    TakersArePlain(g, p, w);
    PlainStart(g, p, w);
    var rhs := p.RenamedApartFrom(p);
    RenamedCycle(g, p, w);
    ChosenIsLinear(g, p);
    ChosenIsLinear(g, rhs);
    JoinedLinear(g, p, w, rhs, w, depth, Anywhere);
    TakesExactly(g, p, w, depth);
    JoinUnifies(g, p, w, rhs, w, depth, Anywhere);
    JoinVariables(g, p, w, rhs, w, Anywhere);
    PlainRight(g, p, rhs);
    var ls, pre := LeftPost(g, p), RightPre(g, rhs);
    PlainBindsNone(ls, pre.symbols, [], depth);
    BoundLonger(p.scopePost, pre.scopes, p.scopePre.variable.value, depth);
  }

  lemma PlainStart(g: Graph, p: PartialPath, w: Walk)
    requires Summary(g, p, w, Anywhere) && PlainPre(p)
    ensures !g.Kind(w[0]).PopScopedSymbol?
  {
    hide Moves;
    assert Run(g, w, Before(p, NOTHING)) == Some(After(p, NOTHING));
    assert p.symbolPre.symbols != [] ==>
        Before(p, NOTHING).symbols[0] == EvalSymbol(p.symbolPre.symbols[0], NOTHING);
  }

  lemma PlainRight(g: Graph, p: PartialPath, rhs: PartialPath)
    requires PlainPre(p) && rhs == p.RenamedApartFrom(p) && !g.Kind(p.startNode).PopScopedSymbol?
    ensures var pre := RightPre(g, rhs);
            && (forall i :: 0 <= i < |pre.symbols.symbols| ==> pre.symbols.symbols[i].scopes.None?)
            && pre.scopes == rhs.scopePre && |rhs.scopePre.scopes| == |p.scopePre.scopes|
  {
  }

  /** If going round takes scopes off for want of more, it does so always. */
  lemma TakesAlways(g: Graph, p: PartialPath, w: Walk, depth: nat, z: Stacks)
    requires ChosenCycle(g, p, w) && TakesScopes(g, w) && Feasible(g, Splice(w, w), Anywhere) && depth > 0
    requires Run(g, w, z).Some?
    ensures |Run(g, w, z).value.scopes| < |Step(g.Kind(w[0]), z).value.scopes|
  {
    hide Chosen, Summary, TakesScopes, Feasible, Moves;
    TakersShorten(g, p, w, depth);
    ScopesGone(g, p, w, z);
    EndIsStart(g, w, z);
  }

  lemma ScopesGone(g: Graph, p: PartialPath, w: Walk, z: Stacks)
    requires ChosenCycle(g, p, w) && Run(g, w, z).Some?
    requires p.scopePost.variable == p.scopePre.variable && |p.scopePost.scopes| < |p.scopePre.scopes|
    ensures |Run(g, w, z).value.scopes| < |z.scopes|
    ensures exists s :: Run(g, w, s).Some? && Run(g, w, s).value.scopes != []
  {
    hide Chosen, Run;
    var val := RunsBefore(g, p, w, z);
    assert Linear(p) by { ChosenIsLinear(g, p); }
    var more := WithScopes(NOTHING, p.scopePre.variable.value, [0]);
    WithScopesValue(NOTHING, p.scopePre.variable.value, [0]);
    assert Run(g, w, Before(p, more)) == Some(After(p, more));
  }

  /** A closed walk that can end with scopes does not start by dropping them. */
  lemma EndIsStart(g: Graph, w: Walk, z: Stacks)
    requires w[0] == Last(w) && Run(g, w, z).Some? && !g.Kind(w[0]).PopScopedSymbol?
    requires exists s :: Run(g, w, s).Some? && Run(g, w, s).value.scopes != []
    ensures Step(g.Kind(w[0]), z).value.scopes == z.scopes
  {
    hide Run;
    var s :| Run(g, w, s).Some? && Run(g, w, s).value.scopes != [];
    var u := EndsEntered(g, w, s);
    StepScopes(g, w, z);
  }

  lemma StepScopes(g: Graph, w: Walk, z: Stacks)
    requires Run(g, w, z).Some? && !g.Kind(w[0]).PopScopedSymbol? && !g.Kind(w[0]).DropScopes?
    ensures Step(g.Kind(w[0]), z).Some? && Step(g.Kind(w[0]), z).value.scopes == z.scopes
  {
  }

  lemma {:induction false} LapsTake(g: Graph, p: PartialPath, w: Walk, depth: nat, k: nat, s: Stacks)
    requires ChosenCycle(g, p, w) && TakesScopes(g, w) && Feasible(g, Splice(w, w), Anywhere) && depth > 0
    requires k > 0 && Run(g, Laps(w, k), s).Some?
    ensures |Run(g, Laps(w, k), s).value.scopes| + k <= |Step(g.Kind(w[0]), s).value.scopes|
  {
    hide TakesScopes, Feasible, Step, Summary, Chosen;
    if k == 1 {
      TakesAlways(g, p, w, depth, s);
    } else {
      RunSplice(g, Laps(w, k - 1), w, s);
      LapsTake(g, p, w, depth, k - 1, s);
      var z := EndsEntered(g, Laps(w, k - 1), s);
      TakesAlways(g, p, w, depth, z);
    }
  }

  /**
   A cycle that strengthens the precondition can be gone round no more often than there are symbols and scopes on
   the stacks, and the symbol that its start may push.
   */
  lemma RunsOut(g: Graph, p: PartialPath, w: Walk, depth: nat, k: nat, s: Stacks)
    requires ChosenCycle(g, p, w) && KindOfWalk(g, w) == Some(StrengthensPrecondition) && depth > 0
    requires k > 0 && Run(g, Laps(w, k), s).Some?
    ensures k <= |s.symbols| + |s.scopes| + 1
  {
    hide TakesScopes, Shrinks, Summary, Chosen, Feasible;
    if Shrinks(g, w) {
      LapsShrink(g, w, k, s);
    } else {
      LapsTake(g, p, w, depth, k, s);
      TakersShorten(g, p, w, depth);
    }
  }

  /** A cycle that leaves empty stacks as they were can be gone round for ever. */
  lemma BackWhereItStarted(g: Graph, w: Walk)
    requires w[0] == Last(w) && Pushes(g.Kind(w[0])) && KindFromEmptyStacks(g, w) == Some(Free)
    ensures Feasible(g, Splice(w, w), Anywhere) && !Shrinks(g, w) && !TakesScopes(g, w)
  {
    hide Moves, Shrinks, TakesScopes;
    var s := Stacks([], []);
    var t := Run(g, w, s).value;
    var u := EndsEntered(g, w, s);
    assert t == Step(g.Kind(w[0]), s).value;
    RunSplice(g, w, w, s);
    assert Run(g, Splice(w, w), s).Some? && Anywhere.Admits(s);
    if Shrinks(g, w) {
      ShrinksAlways(g, w, t);
    }
    if TakesScopes(g, w) {
      NoneTaken(g, w, s);
    }
  }

  lemma NoneTaken(g: Graph, w: Walk, s: Stacks)
    requires w[0] == Last(w) && Run(g, Splice(w, w), s).Some? && s.scopes == []
    ensures !TakesScopes(g, w)
  {
  }
}
