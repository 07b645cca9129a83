/**
 Unification of partial stacks and the binding tables it fills in.

 `unify` and `add` call each other without bound (`partial.rs:1420-1421`); `depth` is the number of nested
 `add` calls the call stack has room for, and `StackOverflow` is the outcome of running out of it.
 `Panic` stands for the places where the code unwraps a value that is not there.
 */
module Unification {
  import opened Wrappers
  import opened Graphs
  import opened Patterns

  datatype PathResolutionError =
    | EmptyScopeStack
    | IncorrectPoppedSymbol
    | IncorrectSourceNode
    | MissingAttachedScopeList
    | ScopeStackUnsatisfied
    | SymbolStackUnsatisfied
    | UnexpectedAttachedScopeList
    | UnknownAttachedScope
    | StackOverflow
    | Panic

  type ScopeBindings = map<Var, PartialScopeStack>
  type SymbolBindings = map<Var, PartialSymbolStack>

  // ---------------------------------------------------------------------------------------------
  // Scope stacks

  datatype ScopesUnified = ScopesUnified(stack: PartialScopeStack, scopes: ScopeBindings)

  datatype Rests = Rests(left: seq<NodeHandle>, right: seq<NodeHandle>)

  /** What is left of both stacks after their common prefix; None when two scopes differ. */
  function StripScopes(l: seq<NodeHandle>, r: seq<NodeHandle>): Option<Rests> {
    if l == [] || r == [] then Some(Rests(l, r))
    else if l[0] != r[0] then None
    else StripScopes(l[1..], r[1..])
  }

  /** What it takes to unify two stacks: nothing more, or one variable bound; `stack` is the result. */
  datatype ScopesMatch =
    | AlreadyEqual(stack: PartialScopeStack)
    | Bind(variable: Var, bound: PartialScopeStack, stack: PartialScopeStack)

  function MatchScopes(lhs: PartialScopeStack, rhs: PartialScopeStack): Result<ScopesMatch, PathResolutionError> {
    var rests := StripScopes(lhs.scopes, rhs.scopes);
    if rests.None? then Err(ScopeStackUnsatisfied)
    else
      var l, r := rests.value.left, rests.value.right;
      if l == [] && r == [] then
        match (lhs.variable, rhs.variable)
        case (None, None) => Ok(AlreadyEqual(lhs))
        case (None, Some(v)) => Ok(Bind(v, EMPTY_SCOPES, rhs))
        case (Some(v), None) => Ok(Bind(v, EMPTY_SCOPES, lhs))
        case (Some(v), Some(w)) => Ok(Bind(w, ScopesFromVariable(v), lhs))
      else if l == [] && lhs.variable.None? then Err(ScopeStackUnsatisfied)
      else if r == [] && rhs.variable.None? then Err(ScopeStackUnsatisfied)
      else if lhs.variable.Some? && lhs.variable == rhs.variable then Err(ScopeStackUnsatisfied)
      else if l != [] then
        StripScopesShape(lhs.scopes, rhs.scopes);
        Ok(Bind(rhs.variable.value, PartialScopeStack(l, lhs.variable), lhs))
      else
        Ok(Bind(lhs.variable.value, PartialScopeStack(r, rhs.variable), rhs))
  }

  function UnifyScopes(lhs: PartialScopeStack, rhs: PartialScopeStack, b: ScopeBindings, depth: nat)
    : Result<ScopesUnified, PathResolutionError>
    decreases depth, 1
  {
    match MatchScopes(lhs, rhs)
    case Err(e) => Err(e)
    case Ok(AlreadyEqual(stack)) => Ok(ScopesUnified(stack, b))
    case Ok(Bind(v, bound, stack)) =>
      match AddScopes(b, v, bound, depth)
      case Err(e) => Err(e)
      case Ok(after) => Ok(ScopesUnified(stack, after))
  }

  function AddScopes(b: ScopeBindings, v: Var, s: PartialScopeStack, depth: nat)
    : Result<ScopeBindings, PathResolutionError>
    decreases depth, 0
  {
    if v !in b then Ok(b[v := s])
    else if depth == 0 then Err(StackOverflow)
    else
      match UnifyScopes(s, b[v], b, depth - 1)
      case Err(e) => Err(e)
      case Ok(ScopesUnified(unified, after)) => Ok(after[v := unified])
  }

  lemma TakeCons(s: seq<NodeHandle>, k: nat)
    requires 0 < k <= |s|
    ensures s[..k] == [s[0]] + s[1..][..k - 1] && s[k..] == s[1..][k - 1..]
  {
  }

  /** Stripping takes equally long equal prefixes off both sides, as long as they can be. */
  lemma {:induction false} StripScopesShape(l: seq<NodeHandle>, r: seq<NodeHandle>)
    ensures StripScopes(l, r).None? ==> exists i :: 0 <= i < |l| && i < |r| && l[i] != r[i]
    ensures StripScopes(l, r).Some? ==>
              var rests := StripScopes(l, r).value;
              && (rests.left == [] || rests.right == [])
              && |l| - |rests.left| == |r| - |rests.right| >= 0
              && l[..|l| - |rests.left|] == r[..|l| - |rests.left|]
              && l[|l| - |rests.left|..] == rests.left
              && r[|l| - |rests.left|..] == rests.right
  {
    if l == [] || r == [] {
    } else if l[0] == r[0] {
      StripScopesShape(l[1..], r[1..]);
      var rests := StripScopes(l, r);
      if rests.None? {
        var i :| 0 <= i < |l| - 1 && i < |r| - 1 && l[1..][i] != r[1..][i];
        assert l[i + 1] != r[i + 1];
      } else {
        var k := |l| - |rests.value.left|;
        TakeCons(l, k);
        TakeCons(r, k);
      }
    }
  }

  // ---------------------------------------------------------------------------------------------
  // Symbol stacks

  datatype SymbolUnified = SymbolUnified(symbol: PartialScopedSymbol, scopes: ScopeBindings)

  function UnifySymbol(lhs: PartialScopedSymbol, rhs: PartialScopedSymbol, b: ScopeBindings, depth: nat)
    : Result<SymbolUnified, PathResolutionError>
  {
    if lhs.symbol != rhs.symbol then Err(SymbolStackUnsatisfied)
    else
      match (lhs.scopes, rhs.scopes)
      case (Some(l), Some(r)) =>
        (match UnifyScopes(l, r, b, depth)
         case Err(e) => Err(e)
         case Ok(ScopesUnified(u, after)) => Ok(SymbolUnified(lhs.(scopes := Some(u)), after)))
      case (None, None) => Ok(SymbolUnified(lhs, b))
      case _ => Err(SymbolStackUnsatisfied)
  }

  datatype Tables = Tables(symbols: SymbolBindings, scopes: ScopeBindings)

  datatype SymbolsUnified =
    SymbolsUnified(stack: PartialSymbolStack, symbols: SymbolBindings, scopes: ScopeBindings)

  datatype TailsMatch =
    | TailsEqual(stack: PartialSymbolStack)
    | BindTail(variable: Var, bound: PartialSymbolStack, stack: PartialSymbolStack)

  /** The case analysis once at most one of the stacks has symbols left. */
  function MatchTails(lhs: PartialSymbolStack, rhs: PartialSymbolStack): Result<TailsMatch, PathResolutionError>
    requires lhs.symbols == [] || rhs.symbols == []
  {
    if lhs.symbols == [] && rhs.symbols == [] then
      match (lhs.variable, rhs.variable)
      case (None, None) => Ok(TailsEqual(lhs))
      case (None, Some(v)) => Ok(BindTail(v, EMPTY_SYMBOLS, rhs))
      case (Some(v), None) => Ok(BindTail(v, EMPTY_SYMBOLS, lhs))
      case (Some(v), Some(w)) => Ok(BindTail(w, SymbolsFromVariable(v), lhs))
    else if lhs.symbols == [] && lhs.variable.None? then Err(SymbolStackUnsatisfied)
    else if rhs.symbols == [] && rhs.variable.None? then Err(SymbolStackUnsatisfied)
    else if lhs.variable.Some? && lhs.variable == rhs.variable then Err(ScopeStackUnsatisfied)
    else if lhs.symbols != [] then Ok(BindTail(rhs.variable.value, lhs, lhs))
    else Ok(BindTail(lhs.variable.value, rhs, rhs))
  }

  /** `head` holds the symbols that have been unified so far. */
  function UnifySymbols(lhs: PartialSymbolStack, rhs: PartialSymbolStack, head: seq<PartialScopedSymbol>,
                        sb: SymbolBindings, cb: ScopeBindings, depth: nat)
    : Result<SymbolsUnified, PathResolutionError>
    decreases depth, 1, |lhs.symbols|
  {
    if lhs.symbols != [] && rhs.symbols != [] then
      match UnifySymbol(lhs.symbols[0], rhs.symbols[0], cb, depth)
      case Err(e) => Err(e)
      case Ok(SymbolUnified(unified, after)) =>
        UnifySymbols(lhs.(symbols := lhs.symbols[1..]), rhs.(symbols := rhs.symbols[1..]),
                     head + [unified], sb, after, depth)
    else
      match MatchTails(lhs, rhs)
      case Err(e) => Err(e)
      case Ok(TailsEqual(stack)) => Ok(SymbolsUnified(Prepend(head, stack), sb, cb))
      case Ok(BindTail(v, bound, stack)) =>
        match AddSymbols(sb, v, bound, cb, depth)
        case Err(e) => Err(e)
        case Ok(Tables(symbols, scopes)) => Ok(SymbolsUnified(Prepend(head, stack), symbols, scopes))
  }

  function AddSymbols(sb: SymbolBindings, v: Var, s: PartialSymbolStack, cb: ScopeBindings, depth: nat)
    : Result<Tables, PathResolutionError>
    decreases depth, 0, 0
  {
    if v !in sb then Ok(Tables(sb[v := s], cb))
    else if depth == 0 then Err(StackOverflow)
    else
      match UnifySymbols(s, sb[v], [], sb, cb, depth - 1)
      case Err(e) => Err(e)
      case Ok(SymbolsUnified(unified, symbols, scopes)) => Ok(Tables(symbols[v := unified], scopes))
  }

  function Prepend(head: seq<PartialScopedSymbol>, s: PartialSymbolStack): PartialSymbolStack {
    PartialSymbolStack(head + s.symbols, s.variable)
  }

  /** Unifies the symbol stacks and then the scope stacks, from empty bindings. */
  function UnifyStacks(ls: PartialSymbolStack, lc: PartialScopeStack, rs: PartialSymbolStack, rc: PartialScopeStack,
                       depth: nat)
    : Result<Tables, PathResolutionError>
  {
    match UnifySymbols(ls, rs, [], map[], map[], depth)
    case Err(e) => Err(e)
    case Ok(SymbolsUnified(_, sb, cb)) =>
      match UnifyScopes(lc, rc, cb, depth)
      case Err(e) => Err(e)
      case Ok(ScopesUnified(_, after)) => Ok(Tables(sb, after))
  }

  /** Unification never panics. */
  lemma {:induction false} UnifyScopesError(l: PartialScopeStack, r: PartialScopeStack, b: ScopeBindings, depth: nat)
    ensures UnifyScopes(l, r, b, depth).Err? ==>
            UnifyScopes(l, r, b, depth).error in {ScopeStackUnsatisfied, StackOverflow}
    decreases depth
  {
    if MatchScopes(l, r).Ok? && MatchScopes(l, r).value.Bind? {
      var m := MatchScopes(l, r).value;
      if m.variable in b && depth > 0 {
        UnifyScopesError(m.bound, b[m.variable], b, depth - 1);
      }
    }
  }

  lemma {:induction false} UnifySymbolsError(l: PartialSymbolStack, r: PartialSymbolStack,
                                             head: seq<PartialScopedSymbol>,
                                             sb: SymbolBindings, cb: ScopeBindings, depth: nat)
    ensures var u := UnifySymbols(l, r, head, sb, cb, depth);
            u.Err? ==> u.error in {ScopeStackUnsatisfied, SymbolStackUnsatisfied, StackOverflow}
    decreases depth, |l.symbols|
  {
    if l.symbols != [] && r.symbols != [] {
      var a, b := l.symbols[0], r.symbols[0];
      if a.scopes.Some? && b.scopes.Some? {
        UnifyScopesError(a.scopes.value, b.scopes.value, cb, depth);
      }
      match UnifySymbol(a, b, cb, depth)
      case Err(_) =>
      case Ok(SymbolUnified(unified, after)) =>
        UnifySymbolsError(l.(symbols := l.symbols[1..]), r.(symbols := r.symbols[1..]),
                          head + [unified], sb, after, depth);
    } else if MatchTails(l, r).Ok? && MatchTails(l, r).value.BindTail? {
      var m := MatchTails(l, r).value;
      if m.variable in sb && depth > 0 {
        UnifySymbolsError(m.bound, sb[m.variable], [], sb, cb, depth - 1);
      }
    }
  }

  lemma UnificationErrors(ls: PartialSymbolStack, lc: PartialScopeStack, rs: PartialSymbolStack, rc: PartialScopeStack,
                          depth: nat)
    ensures var u := UnifyStacks(ls, lc, rs, rc, depth);
            u.Err? ==> u.error in {ScopeStackUnsatisfied, SymbolStackUnsatisfied, StackOverflow}
  {
    UnifySymbolsError(ls, rs, [], map[], map[], depth);
    if UnifySymbols(ls, rs, [], map[], map[], depth).Ok? {
      UnifyScopesError(lc, rc, UnifySymbols(ls, rs, [], map[], map[], depth).value.scopes, depth);
    }
  }

  // ---------------------------------------------------------------------------------------------
  // Substitution (one level: what a binding holds is not substituted in again)

  function SubstScopes(p: PartialScopeStack, b: ScopeBindings): PartialScopeStack {
    if p.variable.Some? && p.variable.value in b
    then PartialScopeStack(p.scopes + b[p.variable.value].scopes, b[p.variable.value].variable)
    else p
  }

  function SubstSymbol(p: PartialScopedSymbol, b: ScopeBindings): PartialScopedSymbol {
    if p.scopes.Some? then p.(scopes := Some(SubstScopes(p.scopes.value, b))) else p
  }

  function SubstSymbols(symbols: seq<PartialScopedSymbol>, b: ScopeBindings): (r: seq<PartialScopedSymbol>)
    ensures |r| == |symbols|
  {
    seq(|symbols|, i requires 0 <= i < |symbols| => SubstSymbol(symbols[i], b))
  }

  function SubstStack(p: PartialSymbolStack, sb: SymbolBindings, cb: ScopeBindings): PartialSymbolStack {
    if p.variable.Some? && p.variable.value in sb
    then PartialSymbolStack(SubstSymbols(p.symbols, cb) + sb[p.variable.value].symbols, sb[p.variable.value].variable)
    else PartialSymbolStack(SubstSymbols(p.symbols, cb), p.variable)
  }

  /** What the original variables stand for once bindings have been substituted for them. */
  ghost function Through(val: Valuation, sb: SymbolBindings, cb: ScopeBindings): Valuation {
    Valuation(
      imap v: Var {:trigger v in sb} :: if v in sb then EvalStack(sb[v], val) else SymbolValue(val, v),
      imap v: Var {:trigger v in cb} :: if v in cb then EvalScopes(cb[v], val) else ScopeValue(val, v))
  }

  lemma EvalSubstScopes(p: PartialScopeStack, val: Valuation, sb: SymbolBindings, cb: ScopeBindings)
    ensures EvalScopes(SubstScopes(p, cb), val) == EvalScopes(p, Through(val, sb, cb))
  {
  }

  /** Substituting and then evaluating is evaluating under what the variables now stand for. */
  lemma EvalSubstStack(p: PartialSymbolStack, val: Valuation, sb: SymbolBindings, cb: ScopeBindings)
    ensures EvalStack(SubstStack(p, sb, cb), val) == EvalStack(p, Through(val, sb, cb))
  {
    var symbols := SubstSymbols(p.symbols, cb);
    forall i | 0 <= i < |p.symbols|
      ensures EvalSymbol(symbols[i], val) == EvalSymbol(p.symbols[i], Through(val, sb, cb))
    {
      if p.symbols[i].scopes.Some? {
        EvalSubstScopes(p.symbols[i].scopes.value, val, sb, cb);
      }
    }
    assert EvalSymbols(symbols, val) == EvalSymbols(p.symbols, Through(val, sb, cb));
    if p.variable.Some? && p.variable.value in sb {
      EvalSymbolsConcat(symbols, sb[p.variable.value].symbols, val);
    }
  }

  // ---------------------------------------------------------------------------------------------
  // A valuation satisfies bindings when every bound variable stands for what it is bound to

  ghost predicate SatisfiesScopes(val: Valuation, cb: ScopeBindings) {
    forall v :: v in cb ==> ScopeValue(val, v) == EvalScopes(cb[v], val)
  }

  ghost predicate SatisfiesSymbols(val: Valuation, sb: SymbolBindings) {
    forall v :: v in sb ==> SymbolValue(val, v) == EvalStack(sb[v], val)
  }

  /** Two scope stack patterns denote the same stack iff what is left after their common prefix does. */
  lemma EvalStripped(l: PartialScopeStack, r: PartialScopeStack, val: Valuation)
    ensures var rests := StripScopes(l.scopes, r.scopes);
            EvalScopes(l, val) == EvalScopes(r, val) <==>
            && rests.Some?
            && EvalScopes(l.(scopes := rests.value.left), val) == EvalScopes(r.(scopes := rests.value.right), val)
  {
    StripScopesShape(l.scopes, r.scopes);
    var rests := StripScopes(l.scopes, r.scopes);
    if rests.None? {
      var i :| 0 <= i < |l.scopes| && i < |r.scopes| && l.scopes[i] != r.scopes[i];
      assert EvalScopes(l, val)[i] == l.scopes[i] && EvalScopes(r, val)[i] == r.scopes[i];
    } else {
      var k := |l.scopes| - |rests.value.left|;
      EvalScopesSplit(l, k, val);
      EvalScopesSplit(r, k, val);
    }
  }

  lemma EvalScopesSplit(p: PartialScopeStack, k: nat, val: Valuation)
    requires k <= |p.scopes|
    ensures var rest := EvalScopes(p.(scopes := p.scopes[k..]), val);
            && EvalScopes(p, val) == p.scopes[..k] + rest
            && EvalScopes(p, val)[k..] == rest
  {
    assert p.scopes == p.scopes[..k] + p.scopes[k..];
  }

  /** The same from the point of view of `MatchScopes`. */
  lemma EvalMatched(l: PartialScopeStack, r: PartialScopeStack, val: Valuation)
    ensures var m := MatchScopes(l, r);
            && (m.Err? ==> EvalScopes(l, val) != EvalScopes(r, val))
            && (m.Ok? && m.value.AlreadyEqual? ==> EvalScopes(l, val) == EvalScopes(r, val))
            && (m.Ok? && m.value.Bind? ==>
                  (EvalScopes(l, val) == EvalScopes(r, val) <==>
                   ScopeValue(val, m.value.variable) == EvalScopes(m.value.bound, val)))
            && (m.Ok? && EvalScopes(l, val) == EvalScopes(r, val) ==>
                EvalScopes(m.value.stack, val) == EvalScopes(l, val))
  {
    StripScopesShape(l.scopes, r.scopes);
    EvalStripped(l, r, val);
    var rests := StripScopes(l.scopes, r.scopes);
    if rests.Some? {
      var restL, restR := l.(scopes := rests.value.left), r.(scopes := rests.value.right);
      assert |EvalScopes(restL, val)| >= |restL.scopes| && |EvalScopes(restR, val)| >= |restR.scopes|;
    }
  }

  lemma SatisfiesOne(val: Valuation, v: Var, bound: PartialScopeStack)
    ensures SatisfiesScopes(val, map[v := bound]) <==> ScopeValue(val, v) == EvalScopes(bound, val)
  {
    var cb: ScopeBindings := map[v := bound];
    assert v in cb && cb[v] == bound;
  }

  /**
   Scope stack unification from empty bindings is most general: it fails exactly when no valuation
   makes both sides equal; otherwise the valuations that do are those that satisfy the bindings it
   produces, and its result then denotes the common stack.
   */
  lemma UnifyScopesMostGeneral(l: PartialScopeStack, r: PartialScopeStack, depth: nat)
    ensures var u := UnifyScopes(l, r, map[], depth);
            && (u.Err? <==> forall val :: EvalScopes(l, val) != EvalScopes(r, val))
            && (u.Err? ==> u.error == ScopeStackUnsatisfied)
            && (u.Ok? ==> forall val ::
                  (EvalScopes(l, val) == EvalScopes(r, val) <==> SatisfiesScopes(val, u.value.scopes)))
            && (u.Ok? ==> forall val :: SatisfiesScopes(val, u.value.scopes) ==>
                  EvalScopes(u.value.stack, val) == EvalScopes(l, val))
  {
    hide EvalScopes, SatisfiesScopes, StripScopes;
    forall val {
      EvalMatched(l, r, val);
    }
    match MatchScopes(l, r)
    case Err(_) =>
    case Ok(AlreadyEqual(_)) =>
      assert EvalScopes(l, Solution(map[])) == EvalScopes(r, Solution(map[]));
      forall val {
        SatisfiesNone(val);
      }
    case Ok(Bind(v, bound, _)) =>
      forall val {
        SatisfiesOne(val, v, bound);
      }
      BoundSolved(l, r);
      assert ScopeValue(Solution(map[v := bound]), v) == EvalScopes(bound, Solution(map[v := bound]));
  }

  lemma SatisfiesNone(val: Valuation)
    ensures SatisfiesScopes(val, map[])
  {
  }

  lemma BoundSolved(l: PartialScopeStack, r: PartialScopeStack)
    requires MatchScopes(l, r).Ok? && MatchScopes(l, r).value.Bind?
    ensures var m := MatchScopes(l, r).value;
            var solution := Solution(map[m.variable := m.bound]);
            ScopeValue(solution, m.variable) == EvalScopes(m.bound, solution)
  {
    StripScopesShape(l.scopes, r.scopes);
    var m := MatchScopes(l, r).value;
    var solution := Solution(map[m.variable := m.bound]);
    assert ScopeValue(solution, m.variable) == m.bound.scopes;
    assert m.bound.variable == Some(m.variable) ==> m.bound.scopes == [];
    assert m.bound.variable.Some? && m.bound.variable.value != m.variable ==>
        ScopeValue(solution, m.bound.variable.value) == [];
  }

  /** Every bound variable stands for the concrete part of its binding, all others for []. */
  ghost function Solution(cb: ScopeBindings): Valuation {
    Valuation(imap[], imap v: Var | v in cb :: cb[v].scopes)
  }

  /** From empty bindings, whether unification succeeds does not depend on the order of its sides. */
  lemma UnifyScopesSymmetric(l: PartialScopeStack, r: PartialScopeStack, depth: nat)
    ensures UnifyScopes(l, r, map[], depth).Ok? <==> UnifyScopes(r, l, map[], depth).Ok?
  {
    UnifyScopesMostGeneral(l, r, depth);
    UnifyScopesMostGeneral(r, l, depth);
  }
}
